/** The parts of Python's `str` and `int` that the network utilities rely on:
    `str.split`, `str.split(sep, 1)`, `str.join`, `str.replace`, `int(str)` and `str(int)`. */
module PyText {
  import opened Wrappers

  // ---------------------------------------------------------------------------
  // Characters
  // ---------------------------------------------------------------------------

  predicate IsDigit(c: char) { '0' <= c <= '9' }

  function DigitValue(c: char): (d: nat)
    requires IsDigit(c)
  {
    c as int - '0' as int
  }

  function DigitChar(d: nat): (c: char)
    requires d < 10
    ensures IsDigit(c) && DigitValue(c) == d
  {
    ('0' as int + d) as char
  }

  /** The ASCII characters Python's `int()` strips around a number: space, tab, line feed,
      vertical tab, form feed and carriage return. (The separators 0x1C-0x1F count as white
      space for `str.isspace()`, but `int()` does not strip them.) */
  predicate IsSpace(c: char) { c == ' ' || 9 <= c as int <= 13 }

  /** Number of occurrences of `c` in `s`. */
  function Count(s: string, c: char): (n: nat)
  {
    if s == [] then 0 else (if s[0] == c then 1 else 0) + Count(s[1..], c)
  }

  lemma {:induction false} CountAbsent(s: string, c: char)
    ensures Count(s, c) == 0 <==> c !in s
  {
    if s != [] {
      CountAbsent(s[1..], c);
      assert s == [s[0]] + s[1..];
    }
  }

  lemma {:induction false} CountConcat(a: string, b: string, c: char)
    ensures Count(a + b, c) == Count(a, c) + Count(b, c)
  {
    if a == [] {
      assert a + b == b;
    } else {
      assert (a + b)[0] == a[0];
      assert (a + b)[1..] == a[1..] + b;
      CountConcat(a[1..], b, c);
    }
  }

  // ---------------------------------------------------------------------------
  // str.split(sep), sep.join(parts), str.split(sep, 1)
  // ---------------------------------------------------------------------------

  /** `s.split(sep)` for a one-character separator: the maximal separator-free pieces. */
  function Split(s: string, sep: char): (parts: seq<string>)
    ensures |parts| == Count(s, sep) + 1
    ensures forall k :: 0 <= k < |parts| ==> sep !in parts[k]
  {
    if s == [] then [""]
    else
      var rest := Split(s[1..], sep);
      if s[0] == sep then [""] + rest else [[s[0]] + rest[0]] + rest[1..]
  }

  /** `sep.join(parts)`. */
  function Join(parts: seq<string>, sep: char): (s: string)
  {
    if parts == [] then ""
    else if |parts| == 1 then parts[0]
    else parts[0] + [sep] + Join(parts[1..], sep)
  }

  lemma {:induction false} JoinSplit(s: string, sep: char)
    ensures Join(Split(s, sep), sep) == s
  {
    if s != [] {
      JoinSplit(s[1..], sep);
      var rest := Split(s[1..], sep);
      if s[0] == sep {
        assert Split(s, sep) == [""] + rest;
        assert ([""] + rest)[1..] == rest;
      } else {
        var parts := [[s[0]] + rest[0]] + rest[1..];
        assert parts[1..] == rest[1..];
        if |rest| > 1 {
          assert rest == [rest[0]] + rest[1..];
        }
      }
    }
  }

  lemma {:induction false} SplitJoin(parts: seq<string>, sep: char)
    requires |parts| >= 1
    requires forall k :: 0 <= k < |parts| ==> sep !in parts[k]
    ensures Split(Join(parts, sep), sep) == parts
  {
    if |parts| == 1 {
      SplitNoSep(parts[0], sep);
    } else {
      SplitJoin(parts[1..], sep);
      SplitWithSep(parts[0], Join(parts[1..], sep), sep);
      assert [parts[0]] + parts[1..] == parts;
    }
  }

  lemma {:induction false} SplitNoSep(s: string, sep: char)
    requires sep !in s
    ensures Split(s, sep) == [s]
  {
    if s != [] {
      SplitNoSep(s[1..], sep);
      assert [s[0]] + s[1..] == s;
    }
  }

  /** Splitting `a + sep + b` where `a` holds no separator puts `a` in front of the pieces of `b`. */
  lemma {:induction false} SplitWithSep(a: string, b: string, sep: char)
    requires sep !in a
    ensures Split(a + [sep] + b, sep) == [a] + Split(b, sep)
  {
    if a == [] {
      assert [sep] + b == [sep] + b;
      assert ([sep] + b)[1..] == b;
    } else {
      SplitWithSep(a[1..], b, sep);
      assert (a + [sep] + b)[1..] == a[1..] + [sep] + b;
      assert [a[0]] + a[1..] == a;
    }
  }

  /** Index of the first occurrence of `c` in `s`. */
  function IndexOf(s: string, c: char): (i: nat)
    requires c in s
    ensures i < |s| && s[i] == c && c !in s[..i]
  {
    if s[0] == c then 0 else 1 + IndexOf(s[1..], c)
  }

  /** The first `c` in `a + [c] + rest` is the one after `a` when `a` holds none. */
  lemma {:induction false} IndexOfAfter(a: string, c: char, rest: string)
    requires c !in a
    ensures IndexOf(a + [c] + rest, c) == |a|
  {
    if a != [] {
      assert (a + [c] + rest)[1..] == a[1..] + [c] + rest;
      IndexOfAfter(a[1..], c, rest);
    }
  }

  /** `s.split(sep, 1)`: the whole string, or the pieces before and after the first separator. */
  function SplitFirst(s: string, sep: char): (parts: seq<string>)
    ensures 1 <= |parts| <= 2
    ensures |parts| == 1 <==> sep !in s
    ensures sep !in parts[0]
  {
    if sep in s then
      var i := IndexOf(s, sep);
      [s[..i], s[i + 1..]]
    else [s]
  }

  lemma JoinSplitFirst(s: string, sep: char)
    ensures Join(SplitFirst(s, sep), sep) == s
  {
    if sep in s {
      var i := IndexOf(s, sep);
      assert s[..i] + [sep] + s[i + 1..] == s;
    }
  }

  // ---------------------------------------------------------------------------
  // str.replace(pat, sub)
  // ---------------------------------------------------------------------------

  /** `s.replace(pat, sub)`: scans left to right and rewrites each non-overlapping occurrence. */
  function Replace(s: string, pat: string, sub: string): (r: string)
    requires |pat| > 0
  {
    if s == [] then []
    else if pat <= s then sub + Replace(s[|pat|..], pat, sub)
    else [s[0]] + Replace(s[1..], pat, sub)
  }

  /** Text that does not hold the first character of `pat` passes through `replace` unchanged. */
  lemma {:induction false} ReplaceSkip(x: string, rest: string, pat: string, sub: string)
    requires |pat| > 0 && pat[0] !in x
    ensures Replace(x + rest, pat, sub) == x + Replace(rest, pat, sub)
  {
    if x == [] {
      assert x + rest == rest;
    } else {
      assert x == [x[0]] + x[1..];
      assert (x + rest)[0] == x[0];
      assert !(pat <= x + rest);
      assert (x + rest)[1..] == x[1..] + rest;
      ReplaceSkip(x[1..], rest, pat, sub);
    }
  }

  lemma ReplaceMatch(rest: string, pat: string, sub: string)
    requires |pat| > 0
    ensures Replace(pat + rest, pat, sub) == sub + Replace(rest, pat, sub)
  {
    assert pat <= pat + rest;
    assert (pat + rest)[|pat|..] == rest;
  }

  // ---------------------------------------------------------------------------
  // int(str) and str(int)
  // ---------------------------------------------------------------------------

  /** `s.lstrip()` over the white space `int()` ignores. */
  function StripLeft(s: string): (t: string)
    ensures |t| <= |s| && t == s[|s| - |t|..]
    ensures forall k :: 0 <= k < |s| - |t| ==> IsSpace(s[k])
    ensures t == [] || !IsSpace(t[0])
  {
    if s != [] && IsSpace(s[0]) then StripLeft(s[1..]) else s
  }

  /** `s.rstrip()` over the white space `int()` ignores. */
  function StripRight(s: string): (t: string)
    ensures |t| <= |s| && t == s[..|t|]
    ensures forall k :: |t| <= k < |s| ==> IsSpace(s[k])
    ensures t == [] || !IsSpace(t[|t| - 1])
  {
    if s != [] && IsSpace(s[|s| - 1]) then StripRight(s[..|s| - 1]) else s
  }

  function Strip(s: string): (t: string)
  {
    StripRight(StripLeft(s))
  }

  /** The digits of a decimal literal as `int()` accepts them: ASCII digits, where a single
      underscore may stand between two digits ("1_000"). */
  predicate IsDigitRun(b: string)
  {
    |b| > 0 && IsDigit(b[0]) && IsDigit(b[|b| - 1]) &&
    (forall k :: 0 <= k < |b| ==> IsDigit(b[k]) || b[k] == '_') &&
    (forall k :: 0 < k < |b| && b[k - 1] == '_' ==> IsDigit(b[k]))
  }

  /** The value of the digits in `b`, read in base 10; underscores are skipped. */
  function DecimalValue(b: string): (n: nat)
  {
    if b == [] then 0
    else if IsDigit(b[|b| - 1]) then DecimalValue(b[..|b| - 1]) * 10 + DigitValue(b[|b| - 1])
    else DecimalValue(b[..|b| - 1])
  }

  /** `int(s)` on a `str`: `None` where Python raises `ValueError`. */
  function Int(s: string): (n: Option<int>)
  {
    var t := Strip(s);
    if t == [] then None
    else
      var digits := if t[0] == '-' || t[0] == '+' then t[1..] else t;
      var n: int := DecimalValue(digits);
      if !IsDigitRun(digits) then None
      else if t[0] == '-' then Some(-n)
      else Some(n)
  }

  /** `str(n)` for a natural number. */
  function NatStr(n: nat): (s: string)
    ensures |s| > 0 && forall k :: 0 <= k < |s| ==> IsDigit(s[k])
  {
    if n < 10 then [DigitChar(n)] else NatStr(n / 10) + [DigitChar(n % 10)]
  }

  /** `str(i)` for an integer. */
  function Str(i: int): (s: string)
  {
    if i < 0 then "-" + NatStr(-i) else NatStr(i)
  }

  lemma {:induction false} DecimalValueNatStr(n: nat)
    ensures DecimalValue(NatStr(n)) == n
  {
    if n >= 10 {
      DecimalValueNatStr(n / 10);
      var s := NatStr(n / 10) + [DigitChar(n % 10)];
      assert s[..|s| - 1] == NatStr(n / 10);
    }
  }

  lemma StripUnpadded(s: string)
    requires |s| > 0 && !IsSpace(s[0]) && !IsSpace(s[|s| - 1])
    ensures Strip(s) == s
  {
    assert StripLeft(s) == s;
  }

  lemma StrNoSpace(i: int)
    ensures ' ' !in Str(i)
  {
    var s := Str(i);
    if i < 0 {
      assert forall k :: 1 <= k < |s| ==> s[k] == NatStr(-i)[k - 1];
    }
  }

  /** After the first `c` of `s`, the rest holds every other `c` of `s`. */
  lemma {:induction false} CountAfterFirst(s: string, c: char)
    requires c in s
    ensures Count(s[IndexOf(s, c) + 1..], c) == Count(s, c) - 1
  {
    var i := IndexOf(s, c);
    assert s == s[..i] + ([s[i]] + s[i + 1..]);
    CountConcat(s[..i], [s[i]] + s[i + 1..], c);
    CountConcat([s[i]], s[i + 1..], c);
    CountAbsent(s[..i], c);
  }

  /** `int(str(i)) == i`. */
  lemma IntStr(i: int)
    ensures Int(Str(i)) == Some(i)
  {
    var s := Str(i);
    var n: nat := if i < 0 then -i else i;
    var digits := NatStr(n);
    DecimalValueNatStr(n);
    DigitsRun(digits);
    assert !IsSpace(s[0]) && !IsSpace(s[|s| - 1]);
    StripUnpadded(s);
    if i < 0 {
      assert s[1..] == digits;
    }
  }

  /** A non-empty run of plain digits is a digit run. */
  lemma DigitsRun(b: string)
    requires |b| > 0 && forall k :: 0 <= k < |b| ==> IsDigit(b[k])
    ensures IsDigitRun(b)
  {
  }


  /** A string `int()` accepts holds no character outside that alphabet, such as `.` or `:`. */
  lemma IntExcludes(s: string, c: char)
    requires Int(s).Some? && !IsIntChar(c)
    ensures c !in s
  {
    IntAlphabet(s);
  }

  /** The characters `int()` accepts: white space, signs, digits and underscores. */
  predicate IsIntChar(c: char) { IsSpace(c) || IsDigit(c) || c == '+' || c == '-' || c == '_' }

  /** Characters that `lstrip` removes are white space, so a property of every character
      that white space has carries over from the stripped string to the whole. */
  lemma {:induction false} StripLeftKeeps(s: string)
    requires forall k :: 0 <= k < |StripLeft(s)| ==> IsIntChar(StripLeft(s)[k])
    ensures forall k :: 0 <= k < |s| ==> IsIntChar(s[k])
  {
    if s != [] && IsSpace(s[0]) {
      assert StripLeft(s) == StripLeft(s[1..]);
      StripLeftKeeps(s[1..]);
      assert forall k :: 1 <= k < |s| ==> s[k] == s[1..][k - 1];
    } else {
      assert StripLeft(s) == s;
    }
  }

  lemma {:induction false} StripRightKeeps(s: string)
    requires forall k :: 0 <= k < |StripRight(s)| ==> IsIntChar(StripRight(s)[k])
    ensures forall k :: 0 <= k < |s| ==> IsIntChar(s[k])
  {
    if s != [] && IsSpace(s[|s| - 1]) {
      assert StripRight(s) == StripRight(s[..|s| - 1]);
      StripRightKeeps(s[..|s| - 1]);
      assert forall k :: 0 <= k < |s| - 1 ==> s[k] == s[..|s| - 1][k];
    } else {
      assert StripRight(s) == s;
    }
  }

  /** `int()` accepts only white space, signs, digits and underscores, and starts with one
      of the first three. */
  lemma IntAlphabet(s: string)
    requires Int(s).Some?
    ensures forall k :: 0 <= k < |s| ==> IsIntChar(s[k])
    ensures |s| > 0 && (IsSpace(s[0]) || IsDigit(s[0]) || s[0] == '+' || s[0] == '-')
  {
    var l := StripLeft(s);
    var t := StripRight(l);
    var signed := t[0] == '-' || t[0] == '+';
    var digits := if signed then t[1..] else t;
    assert IsDigitRun(digits);
    forall k | 0 <= k < |t|
      ensures IsIntChar(t[k])
    {
      if k > 0 || !signed {
        var j := if signed then k - 1 else k;
        assert digits[j] == t[k];
      }
    }
    StripRightKeeps(l);
    StripLeftKeeps(s);
    if !IsSpace(s[0]) {
      assert l == s;
      assert t[0] == s[0];
      if !signed {
        assert digits[0] == t[0];
      }
    }
  }
}
