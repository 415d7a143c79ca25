# web.py address parsing, HTML escaping and `IterBetter`, in Dafny

This project models two small parts of the web.py utility library and proves what they do.

The first part is the address utilities of `web/net.py`:

- `validipaddr`: is a string a dotted-quad IPv4 address?
- `validipport`: is a string a port number?
- `validip`: turns a free-form `host:port` string into an `(address, port)` pair or raises `ValueError`.
  It tries three routes in a fixed order: a bracketed `[v6]` or `[v6]:port` form, then a bare IPv6 literal, then a split at the first `:`.
- `validaddr`: a string holding `/` is a socket path; anything else goes to `validip`.
- `htmlquote` and `htmlunquote`: two fixed chains of `str.replace` rewrites.

The second part is the `IterBetter` cursor of `web/test.py`. It wraps a single-pass iterator and adds `first()`, forward-only indexing `self[i]` and a truthiness test that peeks at and caches one element in `_head`.

Files:

- `wrappers.dfy` (module `Wrappers`): `Option` and `Result`.
- `pytext.dfy` (module `PyText`): the Python string operations the address code relies on.
  It covers `str.split(sep)`, `str.split(sep, 1)`, `sep.join`, `str.replace`, `int(str)` and `str(int)`.
  Round-trip lemmas relate split and join, `split(sep, 1)` and join, and `int` and `str`. `str.replace` has step lemmas instead: `ReplaceSkip` and `ReplaceMatch`.
- `net.dfy` (module `Net`): `net.py`. This code is pure, so it is modelled with datatypes, functions and lemmas.
  - A raised `ValueError` becomes `Failure(ValueError(message))`, with the exact message.
  - `validip6addr` calls `socket.inet_pton`, so it is a parameter `isIPv6: string -> bool`.
    Lemmas that need facts about it assume `V6Sound(isIPv6)`: every accepted string has at least two colons. Every text form in section 2.2 of RFC 4291 has them.
  - The regular expression `^\[([^]]+)\](?::(\d+))?$` is written out by hand as `BracketMatch`. It includes `$` matching in front of one final newline.
- `iterbetter.dfy` (module `Iterators`): `test.py`. This code changes state, so it is a class.
  - Fields: the iterator as a finite `source` sequence with a read position `pos`, the counter `c`, and `head` for `_head`.
  - Each method has a `modifies` clause and states its new state. The loops of `__iter__` and `__getitem__` are `while` loops with invariants.
  - `Stream()` is what a new iteration would yield. The truthiness test proves that it does not change.

The docstrings of `IterBetter` (test.py:17-19 and :26) speak of "the first value" and of a boolean test that does not affect the iteration. The code does less than that wording suggests, and the model follows the code:

- `first()` does not cache the element it returns. Only the truthiness test sets `_head`. So three calls to `first()` on a fresh object return 0, 1 and 2, not 0 three times (`Iterators.FirstThenIterate`).
- `self[i]` never looks at `_head`, so after a truthiness test `[0]` returns the second element (`Iterators.PeekThenIndex`).
- `_head` is never cleared, so every later iteration yields it again (`Iterators.PeekThenIterate`).

## Model

| member | source | states |
|---|---|---|
| PyText.Split | webpy/web/net.py:48 | `s.split(sep)` has one more piece than `s` has separators, and no piece holds the separator |
| PyText.Join | webpy/web/net.py:105 | `sep.join(parts)`: the parts in order with one `sep` between each two neighbours, and `""` for no parts |
| PyText.JoinSplit | webpy/web/net.py:48 | joining the pieces of `s.split(sep)` with `sep` gives back `s` |
| PyText.SplitJoin | webpy/web/net.py:48 | splitting the join of separator-free pieces gives back exactly those pieces |
| PyText.SplitFirst | webpy/web/net.py:96 | `s.split(":", 1)` has one piece exactly when `s` holds no `:`, never more than two, and its first piece holds no `:` |
| PyText.JoinSplitFirst | webpy/web/net.py:105 | `":".join(ip.split(":", 1))` is `ip` again, so each error message quotes the original input |
| PyText.Int | webpy/web/net.py:56 | `int(s)` on ASCII text: after stripping white space, an optional sign and a run of digits with single underscores between them give that signed decimal value; any other text is `None`, where Python raises `ValueError` |
| PyText.Str | webpy/web/test.py:59 | `str(i)`: the decimal digits of `abs(i)` without leading zeros, after `-` when `i` is negative |
| PyText.IntStr | webpy/web/net.py:68 | `int(str(i)) == i` for every integer |
| PyText.IntAlphabet | webpy/web/net.py:56 | a string `int()` accepts holds only white space, signs, digits and underscores, and starts with white space, a digit or a sign |
| PyText.IntExcludes | webpy/web/net.py:56 | a string `int()` accepts holds no character outside that alphabet, such as `.` or `:` |
| Net.V6NeedsColon | webpy/web/net.py:31-40 | under the IPv6 text-form assumption, a string without `:` is not IPv6 |
| Net.AllOctets | webpy/web/net.py:52-57 | the loop over the octets: true exactly when no octet holds a space and `int()` reads every octet as a number in [0, 255] |
| Net.ValidIpAddr | webpy/web/net.py:43-60 | `validipaddr`: true exactly when the split on `.` gives four parts and `AllOctets` holds of them |
| Net.ValidIpPort | webpy/web/net.py:63-72 | `validipport`: true exactly when `int()` reads the text as a number in [0, 65535]; false where `int()` raises |
| Net.AllOctetsEach | webpy/web/net.py:52-57 | the loop over the octets accepts exactly when every octet holds no space and `int()` reads it as a number in [0, 255] |
| Net.ValidIpAddrShape | webpy/web/net.py:43-60 | an accepted address is `a.b.c.d`, where each of the four parts is an octet |
| Net.DottedQuadValid | webpy/web/net.py:43-60 | conversely, any four octets joined with dots are accepted, since the split gives back exactly those octets |
| Net.OctetNoDot | webpy/web/net.py:56 | an octet in range holds no dot |
| Net.AddrIsNotPort | webpy/web/net.py:43-72 | an IPv4 address has exactly three dots and is never a port; a port holds no dot |
| Net.PortNumber | webpy/web/net.py:63-72 | the decimal text of `n` is a port exactly when `0 <= n <= 65535`; the empty string is not a port |
| Net.SeparatorNotStripped | webpy/web/net.py:56-72 | text starting with the separator 0x1C, which `int()` does not strip, is neither a port nor an octet |
| Net.OctetNumber | webpy/web/net.py:52-57 | the decimal text of `n` is an octet exactly when `0 <= n <= 255` |
| Net.DecimalQuadValid | webpy/web/net.py:43-60 | four numbers in [0, 255] written in decimal and joined with dots form an accepted address |
| Net.OctetOutOfRangeExample | webpy/web/net.py:56-57 | "256.0.0.1" is refused |
| Net.PartCountExamples | webpy/web/net.py:48-50 | "1.2.3" and "1.2.3.4.5" are refused, since they do not have four parts |
| Net.PortSuffix | webpy/web/net.py:83 | the optional port group and `$`: what it accepts is nothing or `:` and ASCII digits, each with at most one final newline |
| Net.BracketMatch | webpy/web/net.py:83 | a match has a non-empty group 1 without `]` and an all-digit group 2 if present, and the input is `[g1]` or `[g1]:g2`, with at most one final newline |
| Net.PortSuffixComplete | webpy/web/net.py:83 | every empty or `:digits` suffix, with or without one final newline, is accepted with the same group |
| Net.BracketMatchComplete | webpy/web/net.py:83 | every well-formed `[addr]` or `[addr]:digits`, with or without one final newline, matches with exactly those groups |
| Net.BracketedNoColon | webpy/web/net.py:83-85 | a matched group 1 that holds `:` comes from an input that holds `:` |
| Net.NotValid | webpy/web/net.py:105-109 | the `ValueError` message: the original input, then " is not valid IP address/port" when it holds `:` (the two-part branch) and " is not a valid IP address/port" otherwise |
| Net.SplitAddrPort | webpy/web/net.py:96-113 | after the split: a success has the default address or an IPv4 address, and the default port or one in [0, 65535]; a failure's message is the input and the matching "is not (a) valid" phrase |
| Net.ValidIp | webpy/web/net.py:75-113 | every success has the default address, an IPv4 address or an IPv6 address, and the default port or one in [0, 65535]; every failure's message is the original input and " is not valid IP address/port" when it holds `:`, " is not a valid IP address/port" otherwise |
| Net.StartsWithBracket | webpy/web/net.py:43-72 | text starting with `[` is neither an IPv4 address nor a port |
| Net.BracketFallThroughFails | webpy/web/net.py:84-113 | input starting with `[` that the IPv6 routes do not accept always ends in `ValueError` at the split |
| Net.SingleToken | webpy/web/net.py:92-105 | input without `:` is never IPv6. `""` gives both defaults, an IPv4 address gives the default port, a port gives the default address, and anything else raises "... is not a valid IP address/port" |
| Net.TwoParts | webpy/web/net.py:92-109 | unbracketed non-IPv6 input with `:` is split at its first `:`. It succeeds exactly when the part before is IPv4 and the part after a port, and otherwise raises "... is not valid IP address/port" |
| Net.SecondColonFails | webpy/web/net.py:96-109 | such input with a second `:` (as in "a:b:c") keeps that colon in the port text and is always refused |
| Net.SecondColonNotPort | webpy/web/net.py:96-108 | with two colons, the text after the first `:` is not a port |
| Net.ColonNotPort | webpy/web/net.py:63-72 | text holding `:` is not a port |
| Net.EmptyPortFails | webpy/web/net.py:96-109 | an address followed by `:` and nothing else, such as "1.2.3.4:" or ":", is refused |
| Net.TrailingColon | webpy/web/net.py:96 | `a + ":"` with `a` colon-free has one colon and splits into `a` and the empty string |
| Net.BracketedForm | webpy/web/net.py:83-90 | `[addr]` and `[addr]:port` are accepted exactly when `addr` is IPv6 and any port is valid, with the default port or `int(port)`; otherwise they are refused |
| Net.ValidIpExamples | webpy/web/net.py:75-113 | `validip("")` is `("0.0.0.0", 8080)`, `validip("::1")` is `("::1", 8080)`, and `validip(":80")` fails |
| Net.ValidAddr | webpy/web/net.py:116-123 | a string with `/` comes back unchanged as a socket path. Any other string succeeds or fails exactly as `validip` with the default arguments, with the same values or message, and its port is in [0, 65535] |
| PyText.Replace | webpy/web/net.py:157 | `s.replace(pat, sub)`: scanning from the left, every occurrence of `pat` that does not overlap an earlier one is written as `sub`, and everything else is kept |
| Net.QuoteStep | webpy/web/net.py:157-161 | each quoting rewrite escapes one more special character, provided the entities already written do not hold it |
| Net.UnquoteStep | webpy/web/net.py:169-173 | each unquoting rewrite un-escapes one character, provided `&` is still escaped |
| Net.EntitySkip | webpy/web/net.py:169-172 | one entity passes unchanged through the rewrite of another |
| Net.HtmlQuote | webpy/web/net.py:153-162 | `htmlquote`: the five rewrites `&`, `<`, `>`, `'`, `"` to their entities, applied in that order, the `&` one first |
| Net.HtmlUnquote | webpy/web/net.py:165-174 | `htmlunquote`: the five rewrites `&quot;`, `&#39;`, `&gt;`, `&lt;`, `&amp;` back to their characters, applied in that order, the `&amp;` one last |
| Net.QuoteAmp | webpy/web/net.py:157 | the first rewrite escapes exactly the `&` characters |
| Net.QuoteLt | webpy/web/net.py:158 | the second rewrite escapes `<` as well |
| Net.QuoteGt | webpy/web/net.py:159 | the third rewrite escapes `>` as well |
| Net.QuoteApos | webpy/web/net.py:160 | the fourth rewrite escapes `'` as well |
| Net.QuoteQuot | webpy/web/net.py:161 | the fifth rewrite escapes `"` as well, so every special character is escaped |
| Net.HtmlQuoteEscapes | webpy/web/net.py:153-162 | `htmlquote` writes each of `& < > ' "` as its entity and leaves every other character alone |
| Net.UnquoteQuot | webpy/web/net.py:169 | on quoted text, the first unquoting rewrite un-escapes `"` |
| Net.UnquoteApos | webpy/web/net.py:170 | the second un-escapes `'` |
| Net.UnquoteGt | webpy/web/net.py:171 | the third un-escapes `>` |
| Net.UnquoteLt | webpy/web/net.py:172 | the fourth un-escapes `<` |
| Net.UnquoteAmp | webpy/web/net.py:173 | the last un-escapes `&`, giving back the original text |
| Net.HtmlRoundTrip | webpy/web/net.py:153-174 | `htmlunquote(htmlquote(t)) == t` for every text |
| Net.EscapedNoSpecial | webpy/web/net.py:157-161 | fully escaped text holds no raw `<`, `>`, `'` or `"` |
| Net.HtmlQuoteSafe | webpy/web/net.py:153-162 | the output of `htmlquote` holds no raw `<`, `>`, `'` or `"` |
| Net.QuoteLtExample | webpy/web/net.py:157-158 | `htmlquote("<")` is "&lt;" |
| Net.QuoteOrderMatters | webpy/web/net.py:157 | escaping `<` before `&` would turn "<" into "&amp;lt;" |
| Net.QuoteEntityExample | webpy/web/net.py:157 | quoting the text "&lt;" gives "&amp;lt;", both under the per-character escaping `Escaped` and under `htmlquote` itself |
| Net.UnquoteOrderMatters | webpy/web/net.py:172-173 | un-escaping `&amp;` first would turn the quoted "&amp;lt;" into "<" instead of "&lt;" |
| Iterators.IterBetter.constructor | webpy/web/test.py:21-22 | a new object has `c == 0` and no `_head`, and iterating it would yield exactly the wrapped sequence |
| Iterators.IterBetter.Next | webpy/web/test.py:53 | `next(self.i)` returns the next element and advances by one, or signals exhaustion and changes nothing |
| Iterators.IterBetter.First | webpy/web/test.py:24-34 | with `_head`, returns it and leaves the iterator alone. Otherwise it returns the next element, advancing the iterator, or `default` when exhausted. It never changes `c` or `_head` |
| Iterators.IterBetter.Iterate | webpy/web/test.py:36-45 | a full iteration yields `_head` if set, then all remaining elements in order. It exhausts the iterator and raises `c` by the number of elements taken from it |
| Iterators.IterBetter.GetItem | webpy/web/test.py:47-59 | `i < c` raises "already passed i" and changes nothing. Otherwise it skips `i - c` elements and returns the next one with `c == i + 1`. On exhaustion it raises `IndexError(str(i))`, with `c == i + 1` if the final pull failed and `c` raised by the number of successful skips if skipping ran out. `c` never decreases; `_head` is ignored |
| Iterators.IterBetter.Bool | webpy/web/test.py:61-74 | true exactly when an iteration would yield something, and what an iteration would yield is unchanged. With `_head` set it pulls nothing; otherwise it pulls exactly one element into `_head`, or none when exhausted. `c` is untouched |
| Iterators.Demo | webpy/web/test.py:78-84 | `first()`, `[0]`, `first()`, `first()`, `first()` over `iter(range(5))` give 0, 1, 2, 3, 4 |
| Iterators.PeekThenIterate | webpy/web/test.py:19-50 | after a truthiness test, `first()` gives the cached 0 each time. A full iteration yields 0 to 4 once each, a second yields the cached 0 again, and `[0]` is then refused |
| Iterators.PeekThenIndex | webpy/web/test.py:47-72 | after a truthiness test has cached 0, `[0]` returns 1 and `[1]` returns 2, and going back to `[0]` is refused |
| Iterators.EmptySource | webpy/web/test.py:24-72 | over an empty iterator the truthiness test is false, `first(7)` gives 7, and `[0]` raises `IndexError("0")` with `c` moved to 1 |
| Iterators.FirstThenIterate | webpy/web/test.py:24-45 | three `first()` calls on a fresh object give 0, 1, 2 (nothing is cached), and a full iteration then yields 3, 4 |

## Left out

- `validip6addr`: the behaviour of `socket.inet_pton` is platform code. It is the parameter `isIPv6`, constrained in lemmas only by `V6Sound`.
- The `isIPv6` parameter is a total mathematical predicate. A platform without `inet_pton` (the `AttributeError` branch) is the case of an `isIPv6` that is always false.
- `int()`: only ASCII white space and ASCII decimal digits are modelled. Python also accepts Unicode digits, Unicode white space and full-width forms.
  The model does include the white space `int()` strips from ASCII input (space, tab, line feed, vertical tab, form feed, carriage return), an optional sign, and single underscores between digits.
  The separators 0x1C-0x1F count as white space for `str.isspace()` but `int()` does not strip them, and neither does the model (`Net.SeparatorNotStripped`).
  So, as in Python, "1\t.2.3.4" is accepted while "1 .2.3.4" is not.
- PyText.Int: models `int()` as Python 3.6 and later define it, without the limit of 4300 digits that Python 3.11 added (and later point releases of 3.7-3.10 took over). So `"0" * 4299 + "80"` is a port here but not under that limit. Under Python 2, which net.py still allows through its import fallback at net.py:11-14, `int()` refuses underscores, which the model accepts.
- `BracketMatch`: `\d` is ASCII digits only. Python's `re` also accepts other Unicode decimal digits there.
- `Net.ValidIp`: `defaultport` is an `int`. Python accepts any object there and returns it unchanged.
- `Net.SplitAddrPort`: the `else` branch of net.py:111-112 cannot be reached, because `split(":", 1)` yields one or two parts. The model proves it dead with `assert false`.
- `urlquote`, `httpdate`, `parsehttpdate` and `websafe` are not modelled. They are thin wrappers around `urllib`, `strftime`/`strptime` and Python's type dispatch; on a string, `websafe` is just `htmlquote`.
- The `hasattr(self, "__len__")` branch of `__nonzero__` is not modelled. It is a hook for subclasses, and `IterBetter` itself never takes it.
- The wrapped iterator is a finite sequence. Infinite iterators, and generator finalisation beyond what `first()` does (an iteration stopped after one element), are not modelled.
- Iterations stopped part way other than by `first()` are not modelled. `Iterate` is a complete `for` loop.
- The script at test.py:78-84 prints its values. The model returns them. Its `first()` has default `None`; the model passes -1, which is never returned because the iterator is not exhausted.
- Iterators.IterBetter.First: the default is a value of the element type `T`, so the implicit `None` of `first()` cannot be written for `T = int`. Callers pass a default of their own; no `Option<T>` result is modelled.
