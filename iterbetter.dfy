/** The `IterBetter` cursor of `web/test.py`: an iterator that can also be asked for its first
    element, indexed (forward only) and tested for emptiness. */
module Iterators {
  import opened Wrappers
  import PyText

  /** Python's `IndexError`, with its message. */
  datatype IndexError = IndexError(message: string)

  /** The cached `_head`, if any, as a sequence of zero or one elements. */
  function HeadSeq<T>(head: Option<T>): (s: seq<T>)
  {
    match head
    case None => []
    case Some(x) => [x]
  }

  class IterBetter<T> {
    /** Everything the wrapped iterator `i` produces, in order; `pos` of them have been taken
        by `next`. */
    const source: seq<T>
    var pos: nat
    /** The counter `c`. */
    var c: nat
    /** `_head`, set by the truthiness test. */
    var head: Option<T>

    ghost predicate Valid()
      reads this
    {
      pos <= |source|
    }

    /** What `next(self.i)` will still produce. */
    ghost function Remaining(): seq<T>
      reads this
      requires Valid()
    {
      source[pos..]
    }

    /** What a new iteration over the object yields: `_head` if set, then the rest of `i`. */
    ghost function Stream(): seq<T>
      reads this
      requires Valid()
    {
      HeadSeq(head) + Remaining()
    }

    /** `IterBetter(iterator)`. */
    constructor (source: seq<T>)
      ensures Valid()
      ensures this.source == source && pos == 0 && c == 0 && head == None
      ensures Stream() == source
    {
      this.source := source;
      pos := 0;
      c := 0;
      head := None;
    }

    /** `next(self.i)`: `None` stands for `StopIteration`. */
    method Next() returns (x: Option<T>)
      requires Valid()
      modifies this`pos
      ensures Valid()
      ensures old(pos) < |source| ==> x == Some(source[old(pos)]) && pos == old(pos) + 1
      ensures old(pos) == |source| ==> x == None && pos == old(pos)
    {
      if pos < |source| {
        x := Some(source[pos]);
        pos := pos + 1;
      } else {
        x := None;
      }
    }

    /** `first(default)`: runs a fresh iteration for one step and drops it. That step yields
        `_head` if it is set, and otherwise takes the next element of `i`; the increment of `c`
        comes after the `yield` and so never runs. */
    method First(default: T) returns (r: T)
      requires Valid()
      modifies this`pos
      ensures Valid()
      ensures head.Some? ==> r == head.value && pos == old(pos)
      ensures head.None? && old(pos) < |source| ==> r == source[old(pos)] && pos == old(pos) + 1
      ensures head.None? && old(pos) == |source| ==> r == default && pos == old(pos)
    {
      if head.Some? {
        r := head.value;
      } else {
        var x := Next();
        r := if x.Some? then x.value else default;
      }
    }

    /** A complete iteration `for x in self`: yields `_head` if it is set, then everything `i`
        still holds, counting each element of `i` in `c`. */
    method Iterate() returns (ys: seq<T>)
      requires Valid()
      modifies this`pos, this`c
      ensures Valid()
      ensures ys == old(Stream())
      ensures pos == |source| && c == old(c) + (|source| - old(pos))
    {
      ys := HeadSeq(head);
      while true
        invariant Valid() && old(pos) <= pos
        invariant ys == HeadSeq(head) + source[old(pos)..pos]
        invariant c == old(c) + (pos - old(pos))
        decreases |source| - pos
      {
        var x := Next();
        if x.None? {
          return;
        }
        ys := ys + [x.value];
        c := c + 1;
      }
    }

    /** `self[i]`: refuses an index already passed; otherwise drops elements of `i` until `c`
        reaches `i`, sets `c` to `i + 1` and returns the next element. `_head` is not looked at. */
    method GetItem(i: int) returns (r: Result<T, IndexError>)
      requires Valid()
      modifies this`pos, this`c
      ensures Valid() && old(c) <= c
      ensures i < old(c) ==>
        r == Failure(IndexError("already passed " + PyText.Str(i))) && c == old(c) && pos == old(pos)
      ensures old(c) <= i && i - old(c) < |source| - old(pos) ==>
        r == Success(source[old(pos) + (i - old(c))]) && c == i + 1 && pos == old(pos) + (i - old(c)) + 1
      ensures old(c) <= i && i - old(c) == |source| - old(pos) ==>
        r == Failure(IndexError(PyText.Str(i))) && c == i + 1 && pos == |source|
      ensures old(c) <= i && i - old(c) > |source| - old(pos) ==>
        r == Failure(IndexError(PyText.Str(i))) && c == old(c) + (|source| - old(pos)) && pos == |source|
    {
      if i < c {
        return Failure(IndexError("already passed " + PyText.Str(i)));
      }
      while i > c
        invariant Valid() && old(c) <= c <= i
        invariant pos - old(pos) == c - old(c)
        decreases i - c
      {
        var x := Next();
        if x.None? {
          return Failure(IndexError(PyText.Str(i)));
        }
        c := c + 1;
      }
      c := c + 1;
      var x := Next();
      if x.None? {
        return Failure(IndexError(PyText.Str(i)));
      }
      return Success(x.value);
    }

    /** `bool(self)`: true when `_head` is set; otherwise takes one element of `i` into `_head`,
        and is false when there is none. What a later iteration yields does not change. */
    method Bool() returns (b: bool)
      requires Valid()
      modifies this`pos, this`head
      ensures Valid()
      ensures b <==> Stream() != []
      ensures Stream() == old(Stream())
      ensures old(head).Some? ==> head == old(head) && pos == old(pos)
      ensures old(head).None? && old(pos) < |source| ==> head == Some(source[old(pos)]) && pos == old(pos) + 1
      ensures old(head).None? && old(pos) == |source| ==> head == None && pos == old(pos)
    {
      if head.Some? {
        return true;
      }
      var x := Next();
      if x.None? {
        return false;
      }
      head := x;
      assert source[old(pos)..] == [source[old(pos)]] + source[pos..];
      return true;
    }
  }

  /** The script at the end of `test.py`: over `iter(range(5))`, `first()`, `[0]`, `first()`,
      `first()`, `first()` give 0, 1, 2, 3, 4, since `first()` consumes without caching and
      `[0]` does not see what `first()` took. (The script passes no default; none is needed.) */
  method Demo() returns (outputs: seq<int>)
    ensures outputs == [0, 1, 2, 3, 4]
  {
    var it := new IterBetter([0, 1, 2, 3, 4]);
    var a := it.First(-1);
    var b := it.GetItem(0);
    var c := it.First(-1);
    var d := it.First(-1);
    var e := it.First(-1);
    outputs := [a, b.value, c, d, e];
  }

  /** After a truthiness test, `first()` gives the cached head every time, a full iteration
      still yields every element once, in order, and `[0]` skips the cached element. */
  method PeekThenIterate() returns (b: bool, firsts: seq<int>, all: seq<int>, again: seq<int>, zeroth: Result<int, IndexError>)
    ensures b && firsts == [0, 0, 0]
    ensures all == [0, 1, 2, 3, 4] && again == [0]
    ensures zeroth == Failure(IndexError("already passed " + PyText.Str(0)))
  {
    var it := new IterBetter([0, 1, 2, 3, 4]);
    b := it.Bool();
    var f1 := it.First(-1);
    var f2 := it.First(-1);
    var f3 := it.First(-1);
    firsts := [f1, f2, f3];
    all := it.Iterate();
    again := it.Iterate();
    zeroth := it.GetItem(0);
  }

  /** Indexing ignores `_head`: after a truthiness test has cached 0, `[0]` returns 1. Indexing
      goes forward only: `[1]` after `[0]` is fine, `[0]` after `[1]` is refused. */
  method PeekThenIndex() returns (first: Result<int, IndexError>, second: Result<int, IndexError>, back: Result<int, IndexError>)
    ensures first == Success(1) && second == Success(2)
    ensures back == Failure(IndexError("already passed " + PyText.Str(0)))
  {
    var it := new IterBetter([0, 1, 2, 3, 4]);
    var b := it.Bool();
    first := it.GetItem(0);
    second := it.GetItem(1);
    back := it.GetItem(0);
  }

  /** Over an empty iterator the truthiness test is false, `first(d)` gives `d`, and `[0]`
      raises `IndexError("0")` with `c` already moved to 1. */
  method EmptySource() returns (b: bool, f: int, r: Result<int, IndexError>, count: nat)
    ensures !b && f == 7
    ensures r == Failure(IndexError(PyText.Str(0))) && count == 1
  {
    var it := new IterBetter<int>([]);
    b := it.Bool();
    f := it.First(7);
    r := it.GetItem(0);
    count := it.c;
  }

  /** `first()` does not cache: three calls at the start take 0, 1 and 2 from the iterator, and
      a full iteration then yields what is left. */
  method FirstThenIterate() returns (firsts: seq<int>, rest: seq<int>)
    ensures firsts == [0, 1, 2] && rest == [3, 4]
  {
    var it := new IterBetter([0, 1, 2, 3, 4]);
    var f1 := it.First(-1);
    var f2 := it.First(-1);
    var f3 := it.First(-1);
    firsts := [f1, f2, f3];
    rest := it.Iterate();
  }
}
