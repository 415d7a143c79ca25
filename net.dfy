/** Address-string validation and parsing, and HTML escaping, as in `web/net.py`. */
module Net {
  import opened Wrappers
  import opened PyText

  /** Python's `ValueError`, with its message. */
  datatype ValueError = ValueError(message: string)

  /** What `validaddr` returns: a socket path or an `(address, port)` pair. */
  datatype Address = SocketPath(path: string) | HostPort(host: string, port: int)

  /** The default arguments of `validip`. */
  const DefaultAddr: string := "0.0.0.0"
  const DefaultPort: int := 8080

  // ---------------------------------------------------------------------------
  // validip6addr: the platform's IPv6 parser, kept abstract
  // ---------------------------------------------------------------------------

  /** `validip6addr` asks `socket.inet_pton(AF_INET6, ...)`, which this model does not have;
      it takes the answer as a parameter `isIPv6`. The one fact the proofs assume of it holds
      of every IPv6 text form (section 2.2 of RFC 4291): it holds at least two colons, as eight
      groups have seven separators and the short form has "::". */
  ghost predicate V6Sound(isIPv6: string -> bool)
  {
    forall s :: isIPv6(s) ==> Count(s, ':') >= 2
  }

  lemma V6NeedsColon(isIPv6: string -> bool, s: string)
    requires V6Sound(isIPv6) && ':' !in s
    ensures !isIPv6(s)
  {
    CountAbsent(s, ':');
  }

  // ---------------------------------------------------------------------------
  // validipaddr, validipport
  // ---------------------------------------------------------------------------

  /** `0 <= int(x) <= 255`, false where `int(x)` raises. */
  predicate OctetInRange(x: string)
  {
    var n := Int(x); n.Some? && 0 <= n.value <= 255
  }

  /** The loop over the octets: no octet holds a space and each is a number in [0, 255]. */
  predicate AllOctets(octets: seq<string>)
  {
    octets == [] || (' ' !in octets[0] && OctetInRange(octets[0]) && AllOctets(octets[1..]))
  }

  /** `validipaddr`: a dotted quad. */
  predicate ValidIpAddr(address: string)
  {
    var octets := Split(address, '.');
    |octets| == 4 && AllOctets(octets)
  }

  /** `validipport`: a number in [0, 65535]. */
  predicate ValidIpPort(port: string)
  {
    var n := Int(port); n.Some? && 0 <= n.value <= 65535
  }

  /** One octet as `validipaddr` accepts it. */
  predicate IsOctet(x: string) { ' ' !in x && OctetInRange(x) }

  lemma {:induction false} AllOctetsEach(octets: seq<string>)
    ensures AllOctets(octets) <==> forall k :: 0 <= k < |octets| ==> IsOctet(octets[k])
  {
    if octets != [] {
      AllOctetsEach(octets[1..]);
      assert forall k :: 1 <= k < |octets| ==> octets[k] == octets[1..][k - 1];
    }
  }

  /** `validipaddr(s)` holds exactly of the strings `a.b.c.d` whose four parts are octets. */
  lemma ValidIpAddrShape(s: string)
    ensures ValidIpAddr(s) ==>
      var o := Split(s, '.');
      s == o[0] + "." + o[1] + "." + o[2] + "." + o[3] &&
      IsOctet(o[0]) && IsOctet(o[1]) && IsOctet(o[2]) && IsOctet(o[3])
  {
    if ValidIpAddr(s) {
      var o := Split(s, '.');
      JoinSplit(s, '.');
      AllOctetsEach(o);
      JoinFour(o);
    }
  }

  lemma JoinFour(o: seq<string>)
    requires |o| == 4
    ensures Join(o, '.') == o[0] + "." + o[1] + "." + o[2] + "." + o[3]
  {
    assert o[1..][1..] == o[2..];
    assert o[2..][1..] == o[3..];
    assert Join(o[2..], '.') == o[2] + "." + o[3];
    DotsAssoc(o[0], o[1], o[2], o[3]);
  }

  lemma DotsAssoc(a: string, b: string, c: string, d: string)
    ensures a + "." + (b + "." + (c + "." + d)) == a + "." + b + "." + c + "." + d
  {
  }

  /** Four octets joined with dots: the split gives back exactly those octets, so the
      address is accepted. */
  lemma DottedQuadValid(o: seq<string>)
    requires |o| == 4 && forall k :: 0 <= k < 4 ==> IsOctet(o[k])
    ensures ValidIpAddr(o[0] + "." + o[1] + "." + o[2] + "." + o[3])
  {
    forall k | 0 <= k < 4 ensures '.' !in o[k] {
      OctetNoDot(o[k]);
    }
    SplitJoin(o, '.');
    AllOctetsEach(o);
    JoinFour(o);
  }

  /** Four facts about the four parts, gathered into one statement about every part. */
  lemma FourEach<T>(o: seq<T>, p: T -> bool)
    requires |o| == 4 && p(o[0]) && p(o[1]) && p(o[2]) && p(o[3])
    ensures forall k :: 0 <= k < 4 ==> p(o[k])
  {
  }

  lemma OctetNoDot(x: string)
    requires OctetInRange(x)
    ensures '.' !in x
  {
    IntExcludes(x, '.');
  }

  /** A dotted quad is never read as a port: a lone token that passes `validipaddr` is an
      address, and one that passes `validipport` holds no dot. */
  lemma AddrIsNotPort(s: string)
    ensures ValidIpAddr(s) ==> Count(s, '.') == 3 && !ValidIpPort(s)
    ensures ValidIpPort(s) ==> '.' !in s
  {
    if ValidIpPort(s) {
      IntExcludes(s, '.');
      CountAbsent(s, '.');
    }
  }

  /** The decimal text of a number is a port exactly when the number is in [0, 65535]; the
      empty string is not a port. */
  lemma PortNumber(n: int)
    ensures ValidIpPort(Str(n)) <==> 0 <= n <= 65535
    ensures !ValidIpPort("")
  {
    IntStr(n);
  }

  /** The decimal text of a number is an octet exactly when the number is in [0, 255]. */
  lemma OctetNumber(n: int)
    ensures IsOctet(Str(n)) <==> 0 <= n <= 255
  {
    IntStr(n);
    StrNoSpace(n);
  }

  /** Four numbers in [0, 255] written in decimal and joined with dots form an IPv4 address. */
  lemma DecimalQuadValid(a: int, b: int, c: int, d: int)
    requires 0 <= a <= 255 && 0 <= b <= 255 && 0 <= c <= 255 && 0 <= d <= 255
    ensures ValidIpAddr(Str(a) + "." + Str(b) + "." + Str(c) + "." + Str(d))
  {
    OctetNumber(a);
    OctetNumber(b);
    OctetNumber(c);
    OctetNumber(d);
    var o := [Str(a), Str(b), Str(c), Str(d)];
    assert o[0] == Str(a) && o[1] == Str(b) && o[2] == Str(c) && o[3] == Str(d);
    FourEach(o, IsOctet);
    DottedQuadValid(o);
  }

  /** `int()` does not strip the separator 0x1C: text that starts with it, such as
      "\U{1C}80", is neither a port nor an octet. */
  lemma SeparatorNotStripped(rest: string)
    ensures !ValidIpPort("\U{1C}" + rest) && !OctetInRange("\U{1C}" + rest)
  {
    var s := "\U{1C}" + rest;
    assert s[0] == '\U{1C}';
    if Int(s).Some? {
      IntAlphabet(s);
    }
  }

  /** "256.0.0.1" has an octet out of range. */
  lemma OctetOutOfRangeExample(s: string)
    requires s == "256.0.0.1"
    ensures !ValidIpAddr(s)
  {
    var o := ["256", "0", "0", "1"];
    assert forall k :: 0 <= k < 4 ==> '.' !in o[k];
    SplitJoin(o, '.');
    JoinFour(o);
    assert s == o[0] + "." + o[1] + "." + o[2] + "." + o[3];
    assert Int("256") == Some(256) by {
      assert Str(256) == "256";
      IntStr(256);
    }
  }

  /** "1.2.3" and "1.2.3.4.5" do not have four parts. */
  lemma PartCountExamples()
    ensures !ValidIpAddr("1.2.3") && !ValidIpAddr("1.2.3.4.5")
  {
    assert Count("1.2.3", '.') == 2;
    assert Count("1.2.3.4.5", '.') == 4;
  }

  // ---------------------------------------------------------------------------
  // The pattern ^\[([^]]+)\](?::(\d+))?$
  // ---------------------------------------------------------------------------

  /** The two groups of a match: the text between the brackets and the optional port digits. */
  datatype Bracketed = Bracketed(addr: string, port: Option<string>)

  predicate IsDigits(d: string) { |d| > 0 && forall k :: 0 <= k < |d| ==> IsDigit(d[k]) }

  predicate WellFormed(m: Bracketed)
  {
    |m.addr| > 0 && ']' !in m.addr && (m.port.Some? ==> IsDigits(m.port.value))
  }

  /** The text a match covers. */
  function Render(m: Bracketed): (s: string)
  {
    "[" + m.addr + "]" + PortText(m.port)
  }

  function PortText(port: Option<string>): (s: string)
  {
    match port
    case None => ""
    case Some(d) => ":" + d
  }

  /** What `(?::(\d+))?$` does with the text after `]`: nothing, or `:` and digits, where `$`
      also matches in front of one final newline. */
  function PortSuffix(rest: string): (r: Option<Option<string>>)
    ensures r.Some? ==> (r.value.Some? ==> IsDigits(r.value.value))
    ensures r.Some? ==> rest == PortText(r.value) || rest == PortText(r.value) + "\n"
  {
    var body := if |rest| > 0 && rest[|rest| - 1] == '\n' then rest[..|rest| - 1] else rest;
    if body == [] then Some(None)
    else if body[0] == ':' && IsDigits(body[1..]) then Some(Some(body[1..]))
    else None
  }

  /** `re.search(r"^\[([^]]+)\](?::(\d+))?$", ip)`. */
  function BracketMatch(ip: string): (m: Option<Bracketed>)
    ensures m.Some? ==> WellFormed(m.value) && (ip == Render(m.value) || ip == Render(m.value) + "\n")
  {
    if |ip| == 0 || ip[0] != '[' || ']' !in ip[1..] then None
    else
      var inner := ip[1..];
      var j := IndexOf(inner, ']');
      if j == 0 then None
      else
        var rest := inner[j + 1..];
        match PortSuffix(rest)
        case None => None
        case Some(port) =>
          var m := Bracketed(inner[..j], port);
          Unbracket(ip, j);
          RenderParts(ip, m.addr, rest, port);
          Some(m)
  }

  /** `ip` taken apart at its leading `[` and at the `]` at offset `j` after it. */
  lemma Unbracket(ip: string, j: nat)
    requires |ip| > 0 && ip[0] == '[' && j < |ip| - 1 && ip[1..][j] == ']'
    ensures ip == "[" + ip[1..][..j] + "]" + ip[1..][j + 1..]
  {
    var inner := ip[1..];
    assert inner == inner[..j] + "]" + inner[j + 1..];
    assert ip == "[" + inner;
  }

  lemma RenderParts(ip: string, addr: string, rest: string, port: Option<string>)
    requires ip == "[" + addr + "]" + rest
    requires rest == PortText(port) || rest == PortText(port) + "\n"
    ensures ip == Render(Bracketed(addr, port)) || ip == Render(Bracketed(addr, port)) + "\n"
  {
    var head := "[" + addr + "]";
    if rest != PortText(port) {
      assert ip == head + PortText(port) + "\n";
    }
  }

  lemma PortSuffixComplete(port: Option<string>, newline: string)
    requires port.Some? ==> IsDigits(port.value)
    requires newline == "" || newline == "\n"
    ensures PortSuffix(PortText(port) + newline) == Some(port)
  {
    var p := PortText(port);
    var rest := p + newline;
    if newline == "" {
      assert rest == p;
      if port.Some? {
        assert p[|p| - 1] == port.value[|port.value| - 1];
      }
    } else {
      assert rest[..|rest| - 1] == p;
    }
    if port.Some? {
      assert p[1..] == port.value;
    }
  }

  /** Every well-formed `[addr]` or `[addr]:digits`, with or without a final newline, matches,
      with exactly these groups. */
  lemma BracketMatchComplete(m: Bracketed, newline: string)
    requires WellFormed(m)
    requires newline == "" || newline == "\n"
    ensures BracketMatch(Render(m) + newline) == Some(m)
  {
    var suffix := PortText(m.port) + newline;
    assert Render(m) + newline == "[" + m.addr + "]" + suffix;
    RenderPieces(m.addr, suffix);
    PortSuffixComplete(m.port, newline);
  }

  /** Inside `[addr]suffix`, the first `]` is the one after `addr`. */
  lemma RenderPieces(addr: string, suffix: string)
    requires ']' !in addr
    ensures var inner := ("[" + addr + "]" + suffix)[1..];
      ']' in inner && IndexOf(inner, ']') == |addr| && inner[..|addr|] == addr && inner[|addr| + 1..] == suffix
  {
    var inner := ("[" + addr + "]" + suffix)[1..];
    assert inner == addr + "]" + suffix;
    IndexOfAfter(addr, ']', suffix);
  }

  lemma BracketedNoColon(ip: string)
    requires BracketMatch(ip).Some?
    ensures ':' in BracketMatch(ip).value.addr ==> ':' in ip
  {
    var m := BracketMatch(ip).value;
    if ':' in m.addr {
      var k :| 0 <= k < |m.addr| && m.addr[k] == ':';
      assert ip[k + 1] == m.addr[k];
    }
  }

  // ---------------------------------------------------------------------------
  // validip
  // ---------------------------------------------------------------------------

  /** The message `validip` raises with, for a single token or for two parts. */
  function NotValid(ip: string): (message: string)
  {
    if ':' in ip then ip + " is not valid IP address/port" else ip + " is not a valid IP address/port"
  }

  /** The second half of `validip`: split once at `:` and check one token or an address and a port. */
  function SplitAddrPort(ip: string, defaultAddr: string, defaultPort: int): (r: Result<(string, int), ValueError>)
    ensures r.Success? ==> r.value.0 == defaultAddr || ValidIpAddr(r.value.0)
    ensures r.Success? ==> r.value.1 == defaultPort || 0 <= r.value.1 <= 65535
    ensures r.Failure? ==> r.error.message == NotValid(ip)
  {
    JoinSplitFirst(ip, ':');
    var parts := SplitFirst(ip, ':');
    if |parts| == 1 then
      if parts[0] == "" then Success((defaultAddr, defaultPort))
      else if ValidIpAddr(parts[0]) then Success((parts[0], defaultPort))
      else if ValidIpPort(parts[0]) then Success((defaultAddr, Int(parts[0]).value))
      else Failure(ValueError(Join(parts, ':') + " is not a valid IP address/port"))
    else if |parts| == 2 then
      var addr, port := parts[0], parts[1];
      if !ValidIpAddr(addr) || !ValidIpPort(port) then
        Failure(ValueError(Join(parts, ':') + " is not valid IP address/port"))
      else Success((addr, Int(port).value))
    else
      // split(":", 1) never yields more than two parts
      assert false; Failure(ValueError(Join(parts, ':') + " is not a valid IP address/port"))
  }

  /** `validip(ip, defaultaddr, defaultport)`, with `validip6addr` given as `isIPv6`. */
  function ValidIp(ip: string, defaultAddr: string, defaultPort: int, isIPv6: string -> bool)
    : (r: Result<(string, int), ValueError>)
    ensures r.Success? ==> r.value.0 == defaultAddr || ValidIpAddr(r.value.0) || isIPv6(r.value.0)
    ensures r.Success? ==> r.value.1 == defaultPort || 0 <= r.value.1 <= 65535
    ensures r.Failure? ==> r.error.message == NotValid(ip)
  {
    match BracketMatch(ip)
    case Some(Bracketed(addr, port)) =>
      if isIPv6(addr) then
        match port
        case Some(p) => if ValidIpPort(p) then Success((addr, Int(p).value)) else SplitAddrPort(ip, defaultAddr, defaultPort)
        case None => Success((addr, defaultPort))
      else SplitAddrPort(ip, defaultAddr, defaultPort)
    case None =>
      if isIPv6(ip) then Success((ip, defaultPort)) else SplitAddrPort(ip, defaultAddr, defaultPort)
  }

  lemma StartsWithBracket(s: string)
    requires |s| > 0 && s[0] == '['
    ensures !ValidIpAddr(s) && !ValidIpPort(s)
  {
    if ValidIpPort(s) {
      IntAlphabet(s);
    }
    if ValidIpAddr(s) {
      var o := Split(s, '.');
      assert o[0] == [s[0]] + Split(s[1..], '.')[0];
      IntAlphabet(o[0]);
    }
  }

  /** Input that starts with `[` but is not accepted as a bracketed IPv6 address falls through
      to the split, and the split then always fails. */
  lemma BracketFallThroughFails(ip: string, defaultAddr: string, defaultPort: int)
    requires |ip| > 0 && ip[0] == '['
    ensures SplitAddrPort(ip, defaultAddr, defaultPort).Failure?
  {
    var parts := SplitFirst(ip, ':');
    StartsWithBracket(parts[0]);
  }

  /** A token without `:` is never IPv6, so neither IPv6 route intercepts it: the empty string
      gives both defaults, an IPv4 address gives the default port, a port gives the default
      address, and anything else is refused. */
  lemma SingleToken(ip: string, defaultAddr: string, defaultPort: int, isIPv6: string -> bool)
    requires V6Sound(isIPv6) && ':' !in ip
    ensures var r := ValidIp(ip, defaultAddr, defaultPort, isIPv6);
      && (ip == "" ==> r == Success((defaultAddr, defaultPort)))
      && (ValidIpAddr(ip) ==> r == Success((ip, defaultPort)))
      && (ValidIpPort(ip) ==> r == Success((defaultAddr, Int(ip).value)))
      && (ip != "" && !ValidIpAddr(ip) && !ValidIpPort(ip) ==>
            r == Failure(ValueError(ip + " is not a valid IP address/port")))
  {
    V6NeedsColon(isIPv6, ip);
    AddrIsNotPort(ip);
    match BracketMatch(ip) {
      case None =>
      case Some(m) =>
        BracketedNoColon(ip);
        V6NeedsColon(isIPv6, m.addr);
    }
  }

  /** Input with a `:` that is neither bracketed nor IPv6 is split at its FIRST colon, and
      succeeds exactly when the part before is an IPv4 address and the part after a port. */
  lemma TwoParts(ip: string, defaultAddr: string, defaultPort: int, isIPv6: string -> bool)
    requires ':' in ip && ip[0] != '[' && !isIPv6(ip)
    ensures var i := IndexOf(ip, ':');
      ValidIp(ip, defaultAddr, defaultPort, isIPv6) ==
        if ValidIpAddr(ip[..i]) && ValidIpPort(ip[i + 1..]) then Success((ip[..i], Int(ip[i + 1..]).value))
        else Failure(ValueError(ip + " is not valid IP address/port"))
  {
    assert BracketMatch(ip).None?;
    JoinSplitFirst(ip, ':');
    var i := IndexOf(ip, ':');
    assert SplitFirst(ip, ':') == [ip[..i], ip[i + 1..]];
  }

  /** Since only the first `:` splits, unbracketed non-IPv6 input with a second `:` leaves that
      colon in the port text, which is then no number: such input is always refused. */
  lemma SecondColonFails(ip: string, defaultAddr: string, defaultPort: int, isIPv6: string -> bool)
    requires Count(ip, ':') >= 2 && ip[0] != '[' && !isIPv6(ip)
    ensures ValidIp(ip, defaultAddr, defaultPort, isIPv6) == Failure(ValueError(ip + " is not valid IP address/port"))
  {
    CountAbsent(ip, ':');
    SecondColonNotPort(ip);
    TwoParts(ip, defaultAddr, defaultPort, isIPv6);
  }

  lemma SecondColonNotPort(ip: string)
    requires Count(ip, ':') >= 2
    ensures ':' in ip && !ValidIpPort(ip[IndexOf(ip, ':') + 1..])
  {
    CountAbsent(ip, ':');
    var tail := ip[IndexOf(ip, ':') + 1..];
    CountAfterFirst(ip, ':');
    CountAbsent(tail, ':');
    ColonNotPort(tail);
  }

  /** Port text holding `:` is no number. */
  lemma ColonNotPort(x: string)
    requires ':' in x
    ensures !ValidIpPort(x)
  {
    if ValidIpPort(x) {
      IntExcludes(x, ':');
    }
  }

  /** An address followed by `:` and no port is refused: the empty port text is no number. */
  lemma EmptyPortFails(a: string, defaultAddr: string, defaultPort: int, isIPv6: string -> bool)
    requires V6Sound(isIPv6) && ':' !in a && (a == [] || a[0] != '[')
    ensures ValidIp(a + ":", defaultAddr, defaultPort, isIPv6) == Failure(ValueError(a + ":" + " is not valid IP address/port"))
  {
    var ip := a + ":";
    TrailingColon(a);
    assert !isIPv6(ip);
    assert !ValidIpPort(ip[IndexOf(ip, ':') + 1..]);
    TwoParts(ip, defaultAddr, defaultPort, isIPv6);
  }

  lemma TrailingColon(a: string)
    requires ':' !in a
    ensures Count(a + ":", ':') == 1
    ensures IndexOf(a + ":", ':') == |a| && (a + ":")[..|a|] == a && (a + ":")[|a| + 1..] == ""
  {
    CountConcat(a, ":", ':');
    CountAbsent(a, ':');
    IndexOfAfter(a, ':', "");
    assert a + [':'] + "" == a + ":";
  }

  /** `[addr]` and `[addr]:port` are accepted exactly when `addr` is IPv6 and the port, if
      given, is valid; otherwise the input is refused. */
  lemma BracketedForm(m: Bracketed, defaultAddr: string, defaultPort: int, isIPv6: string -> bool)
    requires WellFormed(m)
    ensures var r := ValidIp(Render(m), defaultAddr, defaultPort, isIPv6);
      && (r.Success? <==> isIPv6(m.addr) && (m.port.None? || ValidIpPort(m.port.value)))
      && (r.Success? && m.port.None? ==> r.value == (m.addr, defaultPort))
      && (r.Success? && m.port.Some? ==> r.value == (m.addr, Int(m.port.value).value))
  {
    BracketMatchComplete(m, "");
    assert Render(m) + "" == Render(m);
    BracketFallThroughFails(Render(m), defaultAddr, defaultPort);
  }

  /** The empty string gives both defaults, a bare IPv6 literal the default port, and ":80"
      (no address before the colon) is refused. */
  lemma ValidIpExamples(isIPv6: string -> bool)
    requires V6Sound(isIPv6) && isIPv6("::1")
    ensures ValidIp("", DefaultAddr, DefaultPort, isIPv6) == Success(("0.0.0.0", 8080))
    ensures ValidIp("::1", DefaultAddr, DefaultPort, isIPv6) == Success(("::1", 8080))
    ensures ValidIp(":80", DefaultAddr, DefaultPort, isIPv6).Failure?
  {
    SingleToken("", DefaultAddr, DefaultPort, isIPv6);
    CountAbsent(":80"[1..], ':');
    TwoParts(":80", DefaultAddr, DefaultPort, isIPv6);
  }

  // ---------------------------------------------------------------------------
  // validaddr
  // ---------------------------------------------------------------------------

  /** `validaddr`: a string holding `/` is a socket path, passed through untouched; anything
      else is parsed by `validip` with its default address and port. */
  function ValidAddr(s: string, isIPv6: string -> bool): (r: Result<Address, ValueError>)
    ensures '/' in s ==> r == Success(SocketPath(s))
    ensures '/' !in s ==> r.Success? == ValidIp(s, DefaultAddr, DefaultPort, isIPv6).Success?
    ensures '/' !in s && r.Success? ==>
      r.value == HostPort(ValidIp(s, DefaultAddr, DefaultPort, isIPv6).value.0, ValidIp(s, DefaultAddr, DefaultPort, isIPv6).value.1)
    ensures '/' !in s && r.Failure? ==> r.error.message == NotValid(s)
    ensures r.Success? && r.value.HostPort? ==>
      0 <= r.value.port <= 65535 &&
      (r.value.host == DefaultAddr || ValidIpAddr(r.value.host) || isIPv6(r.value.host))
  {
    if '/' in s then Success(SocketPath(s))
    else
      match ValidIp(s, DefaultAddr, DefaultPort, isIPv6)
      case Success((host, port)) => Success(HostPort(host, port))
      case Failure(e) => Failure(e)
  }

  // ---------------------------------------------------------------------------
  // htmlquote, htmlunquote
  // ---------------------------------------------------------------------------

  /** `htmlquote`: five rewrites, `&` first so that the entities added later are not escaped again. */
  function HtmlQuote(text: string): (quoted: string)
  {
    var t1 := Replace(text, "&", "&amp;");
    var t2 := Replace(t1, "<", "&lt;");
    var t3 := Replace(t2, ">", "&gt;");
    var t4 := Replace(t3, "'", "&#39;");
    Replace(t4, "\"", "&quot;")
  }

  /** `htmlunquote`: the same rewrites backwards, `&amp;` last so that it does not create new entities. */
  function HtmlUnquote(text: string): (plain: string)
  {
    var t1 := Replace(text, "&quot;", "\"");
    var t2 := Replace(t1, "&#39;", "'");
    var t3 := Replace(t2, "&gt;", ">");
    var t4 := Replace(t3, "&lt;", "<");
    Replace(t4, "&amp;", "&")
  }

  /** The characters `htmlquote` escapes. */
  const Special: set<char> := {'&', '<', '>', '\'', '"'}

  /** The entity `htmlquote` writes for a special character. */
  function Entity(c: char): (e: string)
  {
    match c
    case '&' => "&amp;"
    case '<' => "&lt;"
    case '>' => "&gt;"
    case '\'' => "&#39;"
    case '"' => "&quot;"
    case _ => [c]
  }

  /** `t` with the characters in `escaped` written as entities and the rest as they are: the
      text after some prefix of the rewrite chain. */
  function Escaped(t: string, escaped: set<char>): (e: string)
  {
    if t == [] then []
    else (if t[0] in escaped then Entity(t[0]) else [t[0]]) + Escaped(t[1..], escaped)
  }

  lemma {:induction false} EscapedNothing(t: string)
    ensures Escaped(t, {}) == t
  {
    if t != [] {
      EscapedNothing(t[1..]);
      assert [t[0]] + t[1..] == t;
    }
  }

  /** An entity holds no special character but `&`. */
  lemma EntityAlphabet(d: char, c: char)
    requires d in Special && c in Special && c != '&'
    ensures c !in Entity(d)
  {
  }

  /** One step of `htmlquote`: replacing `c` by its entity escapes one more character, provided
      that the entities written so far do not hold `c`, which is so unless `c` is `&`. */
  lemma {:induction false} QuoteStep(t: string, escaped: set<char>, c: char)
    requires escaped <= Special && c in Special && c !in escaped
    requires c == '&' ==> escaped == {}
    ensures Replace(Escaped(t, escaped), [c], Entity(c)) == Escaped(t, escaped + {c})
  {
    if t != [] {
      var rest := Escaped(t[1..], escaped);
      QuoteStep(t[1..], escaped, c);
      if t[0] == c {
        ReplaceMatch(rest, [c], Entity(c));
      } else {
        var piece := if t[0] in escaped then Entity(t[0]) else [t[0]];
        if t[0] in escaped {
          EntityAlphabet(t[0], c);
        }
        ReplaceSkip(piece, rest, [c], Entity(c));
      }
    }
  }

  /** Every entity starts with `&`, holds no other `&`, and is told apart by its second
      character. */
  lemma EntityShape(d: char)
    requires d in Special
    ensures |Entity(d)| >= 3 && Entity(d)[0] == '&' && '&' !in Entity(d)[1..]
    ensures Entity(d)[1] == if d == '&' then 'a' else if d == '<' then 'l' else if d == '>' then 'g'
      else if d == '\'' then '#' else 'q'
  {
    if d == '&' {
      assert Entity(d) == "&amp;";
    } else if d == '<' {
      assert Entity(d) == "&lt;";
    } else if d == '>' {
      assert Entity(d) == "&gt;";
    } else if d == '\'' {
      assert Entity(d) == "&#39;";
    } else {
      assert Entity(d) == "&quot;";
    }
  }

  /** An entity other than the one being replaced passes through `replace` unchanged: all the
      entities start with `&` and differ in their second character. */
  lemma EntitySkip(d: char, c: char, rest: string)
    requires d in Special && c in Special && d != c
    ensures Replace(Entity(d) + rest, Entity(c), [c]) == Entity(d) + Replace(rest, Entity(c), [c])
  {
    var e, p := Entity(d), Entity(c);
    EntityShape(d);
    EntityShape(c);
    assert (e + rest)[1] == e[1] != p[1];
    assert !(p <= e + rest);
    assert (e + rest)[1..] == e[1..] + rest;
    ReplaceSkip(e[1..], rest, p, [c]);
    assert e == [e[0]] + e[1..];
  }

  /** One step of `htmlunquote`: replacing the entity of `c` by `c` un-escapes that one
      character, provided that `&` itself is still escaped. */
  lemma {:induction false} UnquoteStep(t: string, escaped: set<char>, c: char)
    requires escaped <= Special && c in escaped && '&' in escaped
    ensures Replace(Escaped(t, escaped), Entity(c), [c]) == Escaped(t, escaped - {c})
  {
    if t != [] {
      var rest := Escaped(t[1..], escaped);
      UnquoteStep(t[1..], escaped, c);
      if t[0] == c {
        ReplaceMatch(rest, Entity(c), [c]);
      } else if t[0] in escaped {
        EntitySkip(t[0], c, rest);
      } else {
        ReplaceSkip([t[0]], rest, Entity(c), [c]);
      }
    }
  }

  // The five steps of `htmlquote`, each escaping one more character.

  lemma QuoteAmp(text: string)
    ensures Replace(text, "&", "&amp;") == Escaped(text, {'&'})
  {
    EscapedNothing(text);
    QuoteStep(text, {}, '&');
    assert {} + {'&'} == {'&'};
  }

  lemma QuoteLt(text: string)
    ensures Replace(Escaped(text, {'&'}), "<", "&lt;") == Escaped(text, {'&', '<'})
  {
    QuoteStep(text, {'&'}, '<');
    assert {'&'} + {'<'} == {'&', '<'};
  }

  lemma QuoteGt(text: string)
    ensures Replace(Escaped(text, {'&', '<'}), ">", "&gt;") == Escaped(text, {'&', '<', '>'})
  {
    QuoteStep(text, {'&', '<'}, '>');
    assert {'&', '<'} + {'>'} == {'&', '<', '>'};
  }

  lemma QuoteApos(text: string)
    ensures Replace(Escaped(text, {'&', '<', '>'}), "'", "&#39;") == Escaped(text, {'&', '<', '>', '\''})
  {
    QuoteStep(text, {'&', '<', '>'}, '\'');
    assert {'&', '<', '>'} + {'\''} == {'&', '<', '>', '\''};
  }

  lemma QuoteQuot(text: string)
    ensures Replace(Escaped(text, {'&', '<', '>', '\''}), "\"", "&quot;") == Escaped(text, Special)
  {
    QuoteStep(text, {'&', '<', '>', '\''}, '"');
    assert {'&', '<', '>', '\''} + {'"'} == Special;
  }

  /** `htmlquote` writes each special character as its entity and leaves every other one alone. */
  lemma HtmlQuoteEscapes(text: string)
    ensures HtmlQuote(text) == Escaped(text, Special)
  {
    QuoteAmp(text);
    QuoteLt(text);
    QuoteGt(text);
    QuoteApos(text);
    QuoteQuot(text);
  }

  // The five steps of `htmlunquote`, each un-escaping one character.

  lemma UnquoteQuot(text: string)
    ensures Replace(Escaped(text, Special), "&quot;", "\"") == Escaped(text, {'&', '<', '>', '\''})
  {
    UnquoteStep(text, Special, '"');
    assert Special - {'"'} == {'&', '<', '>', '\''};
  }

  lemma UnquoteApos(text: string)
    ensures Replace(Escaped(text, {'&', '<', '>', '\''}), "&#39;", "'") == Escaped(text, {'&', '<', '>'})
  {
    UnquoteStep(text, {'&', '<', '>', '\''}, '\'');
    assert {'&', '<', '>', '\''} - {'\''} == {'&', '<', '>'};
  }

  lemma UnquoteGt(text: string)
    ensures Replace(Escaped(text, {'&', '<', '>'}), "&gt;", ">") == Escaped(text, {'&', '<'})
  {
    UnquoteStep(text, {'&', '<', '>'}, '>');
    assert {'&', '<', '>'} - {'>'} == {'&', '<'};
  }

  lemma UnquoteLt(text: string)
    ensures Replace(Escaped(text, {'&', '<'}), "&lt;", "<") == Escaped(text, {'&'})
  {
    UnquoteStep(text, {'&', '<'}, '<');
    assert {'&', '<'} - {'<'} == {'&'};
  }

  lemma UnquoteAmp(text: string)
    ensures Replace(Escaped(text, {'&'}), "&amp;", "&") == text
  {
    UnquoteStep(text, {'&'}, '&');
    assert {'&'} - {'&'} == {};
    EscapedNothing(text);
  }

  /** `htmlunquote` undoes `htmlquote`. */
  lemma HtmlRoundTrip(text: string)
    ensures HtmlUnquote(HtmlQuote(text)) == text
  {
    HtmlQuoteEscapes(text);
    UnquoteQuot(text);
    UnquoteApos(text);
    UnquoteGt(text);
    UnquoteLt(text);
    UnquoteAmp(text);
  }

  lemma {:induction false} EscapedNoSpecial(t: string)
    ensures '<' !in Escaped(t, Special) && '>' !in Escaped(t, Special)
    ensures '\'' !in Escaped(t, Special) && '"' !in Escaped(t, Special)
  {
    if t != [] {
      EscapedNoSpecial(t[1..]);
    }
  }

  /** The output of `htmlquote` holds no raw `<`, `>`, `'` or `"`. */
  lemma HtmlQuoteSafe(text: string)
    ensures var q := HtmlQuote(text); '<' !in q && '>' !in q && '\'' !in q && '"' !in q
  {
    HtmlQuoteEscapes(text);
    EscapedNoSpecial(text);
  }

  /** `htmlquote("<")` is "&lt;". */
  lemma QuoteLtExample()
    ensures HtmlQuote("<") == "&lt;"
  {
    HtmlQuoteEscapes("<");
    assert Escaped("<", Special) == Entity('<') + Escaped("", Special);
  }

  /** Why `&` goes first: escaping `<` before `&` would escape the `&` of "&lt;" again. */
  lemma QuoteOrderMatters()
    ensures Replace(Replace("<", "<", "&lt;"), "&", "&amp;") == "&amp;lt;"
  {
    ReplaceMatch("", "<", "&lt;");
    assert "<" + "" == "<";
    assert Replace("<", "<", "&lt;") == "&lt;";
    assert "&lt;" == "&" + "lt;";
    ReplaceMatch("lt;", "&", "&amp;");
    ReplaceSkip("lt;", "", "&", "&amp;");
    assert "lt;" + "" == "lt;";
    assert "&amp;" + "lt;" == "&amp;lt;";
  }

  /** Quoting the text "&lt;" escapes its `&`: both the per-character escaping and
      `htmlquote` itself turn it into "&amp;lt;". */
  lemma QuoteEntityExample()
    ensures Escaped("&lt;", Special) == "&amp;lt;"
    ensures HtmlQuote("&lt;") == "&amp;lt;"
  {
    var t := "&lt;";
    EscapedPlain(t[1..]);
    HtmlQuoteEscapes(t);
  }

  /** Why `&amp;` goes last: un-escaping it first would turn the quoted text "&lt;" into `<`. */
  lemma UnquoteOrderMatters()
    ensures Replace(Replace("&amp;lt;", "&amp;", "&"), "&lt;", "<") == "<"
  {
    assert "&amp;lt;" == "&amp;" + "lt;";
    ReplaceMatch("lt;", "&amp;", "&");
    ReplaceSkip("lt;", "", "&amp;", "&");
    assert "&" + "lt;" == "&lt;" + "";
    ReplaceMatch("", "&lt;", "<");
  }

  lemma {:induction false} EscapedPlain(t: string)
    requires forall k :: 0 <= k < |t| ==> t[k] !in Special
    ensures Escaped(t, Special) == t
  {
    if t != [] {
      EscapedPlain(t[1..]);
      assert [t[0]] + t[1..] == t;
    }
  }
}
