/** The pattern of StringUtils.parseIpAndPortString: what it finds, and where. */
module IpPort {
  import opened Common
  import opened Regex

  const PORT := Mark(Plus(Digit, Mark(Done(false))))
  const COLON_PORT := Mark(One(':', PORT))
  const DOT_4 := One('.', Plus(Digit, COLON_PORT))
  const DOT_3 := One('.', Plus(Digit, DOT_4))
  const DOT_2 := One('.', Plus(Digit, DOT_3))
  const IP := Mark(Plus(Digit, DOT_2))
  const SCHEME := Mark(One(':', One('/', One('/', IP))))
  const PROTOCOL := Mark(Star(Any, SCHEME))

  /** `.*\/(.*):\/\/(\d+\.\d+\.\d+\.\d+):(\d+)` */
  const IP_PORT_PATTERN := Star(Any, One('/', PROTOCOL))

  datatype Endpoint = Endpoint(protocol: string, ip: string, port: string) {

    /** What the pattern takes for an address. */
    ghost predicate Proper()
    {
      OneLine(protocol) && IsDotted(ip) && Number(port)
    }

    function Text(): string
    {
      ['/'] + (protocol + ("://" + (ip + ([':'] + port))))
    }
  }

  /** The groups of the first match. */
  function FirstEndpoint(s: string): Option<Endpoint>
  {
    match Find(IP_PORT_PATTERN, s, 0)
    case None => None
    case Some(m) =>
      FoundInOrder(IP_PORT_PATTERN, s, 0);
      SixMarks();
      Some(Endpoint(s[m[0]..m[1]], s[m[2]..m[3]], s[m[4]..m[5]]))
  }

  lemma SixMarks()
    ensures Marks(IP_PORT_PATTERN) == 6
  {
    assert Marks(DOT_2) == 3;
    assert Marks(SCHEME) == 5;
  }

  // ----- Texts that look like an address -----

  predicate IsDigit(c: char)
  {
    '0' <= c <= '9'
  }

  predicate Number(s: string)
  {
    s != "" && forall i :: 0 <= i < |s| ==> IsDigit(s[i])
  }

  /** Four runs of digits. */
  datatype Ip = Ip(a: string, b: string, c: string, d: string) {

    predicate Valid()
    {
      Number(a) && Number(b) && Number(c) && Number(d)
    }

    function Dotted(): string
    {
      a + (['.'] + (b + (['.'] + (c + (['.'] + d)))))
    }
  }

  ghost predicate IsDotted(text: string)
  {
    exists ip: Ip :: ip.Valid() && ip.Dotted() == text
  }

  lemma DottedPlain(ip: Ip)
    requires ip.Valid()
    ensures forall i :: 0 <= i < |ip.Dotted()| ==> IsDigit(ip.Dotted()[i]) || ip.Dotted()[i] == '.'
    ensures ip.Dotted() != "" && IsDigit(ip.Dotted()[0])
  {
  }

  /** A separator of protocol and address: "://" and a digit. */
  predicate SchemeAt(s: string, k: int)
  {
    0 <= k && k + 3 < |s| && s[k] == ':' && s[k + 1] == '/' && s[k + 2] == '/' && IsDigit(s[k + 3])
  }

  predicate NoAddress(s: string)
  {
    forall k :: 0 <= k < |s| ==> !SchemeAt(s, k)
  }

  lemma NoAddressAt(s: string, k: int)
    requires NoAddress(s)
    ensures !SchemeAt(s, k)
  {
  }

  lemma AtSplits(a: string, b: string, k: int)
    requires SchemeAt(a + b, k)
    requires ':' !in a || (b != "" && b[0] != '/' && !IsDigit(b[0])) || (|b| == 1 && b[0] == '/')
    ensures SchemeAt(a, k) || (k >= |a| && SchemeAt(b, k - |a|))
  {
    var s := a + b;
    assert forall i :: 0 <= i < |a| ==> s[i] == a[i];
    assert forall i :: |a| <= i < |s| ==> s[i] == b[i - |a|];
  }

  lemma NoneInConcat(a: string, b: string)
    requires NoAddress(a) && NoAddress(b)
    requires ':' !in a || (b != "" && b[0] != '/' && !IsDigit(b[0])) || (|b| == 1 && b[0] == '/')
    ensures NoAddress(a + b)
  {
    forall k | 0 <= k < |a + b|
      ensures !SchemeAt(a + b, k)
    {
      if SchemeAt(a + b, k) {
        AtSplits(a, b, k);
        NoAddressAt(a, k);
        NoAddressAt(b, k - |a|);
      }
    }
  }

  // ----- What the address pattern matches -----

  predicate DigitsAt(s: string, i: nat, end: nat)
  {
    && i < end <= |s|
    && (forall j :: i <= j < end ==> IsDigit(s[j]))
    && (end == |s| || !IsDigit(s[end]))
  }

  /** Digits and then a character that is not one: the run is taken whole. */
  lemma NumberMatches(c: char, next: Pattern, s: string, i: nat, end: nat)
    requires !IsDigit(c) && DigitsAt(s, i, end)
    ensures Match(Plus(Digit, One(c, next)), s, i) == if end < |s| && s[end] == c then Match(next, s, end + 1) else None
  {
    hide Match;
    forall k | i + 1 <= k <= end
      ensures k < end ==> Match(One(c, next), s, k).None?
    {
      OneMatches(c, next, s, k);
    }
    AllOfRun(Plus(Digit, One(c, next)), s, i, end);
    OneMatches(c, next, s, end);
  }

  /** The same for the last number of the ip, before the mark and the colon. */
  lemma LastNumberMatches(s: string, i: nat, end: nat)
    requires DigitsAt(s, i, end)
    ensures Match(Plus(Digit, COLON_PORT), s, i) == Match(COLON_PORT, s, end)
  {
    hide Match;
    forall k | i + 1 <= k < end
      ensures Match(COLON_PORT, s, k).None?
    {
      MarkMatches(COLON_PORT, s, k);
      OneMatches(':', PORT, s, k);
    }
    AllOfRun(Plus(Digit, COLON_PORT), s, i, end);
  }

  /** Where the digits from i on end. */
  function NumberEnd(s: string, i: nat): nat
    requires i <= |s|
  {
    Reach(Digit, None, s, i)
  }

  lemma NumberEndIs(s: string, i: nat, end: nat)
    requires DigitsAt(s, i, end)
    ensures NumberEnd(s, i) == end
  {
    ReachesFar(Digit, None, s, i, end);
  }

  lemma PortMatches(s: string, i: nat)
    requires i <= |s|
    ensures Match(PORT, s, i) == if i < |s| && IsDigit(s[i]) then Some([i, NumberEnd(s, i)]) else None
  {
    hide Match;
    MarkMatches(PORT, s, i);
    var end := NumberEnd(s, i);
    forall k | i <= k <= |s|
      ensures Match(PORT.next.next, s, k) == Some([k])
    {
      LastMarkMatches(PORT.next.next, s, k);
    }
    if i < end {
      GreedyTakes(PORT.next, s, i, end);
      assert [i] + [end] == [i, end];
    } else {
      NeverMatches(PORT.next, s, i);
    }
  }

  lemma ColonPortMatches(s: string, i: nat)
    requires i < |s| && s[i] == ':'
    ensures Match(COLON_PORT, s, i) ==
            if i + 1 < |s| && IsDigit(s[i + 1]) then Some([i, i + 1, NumberEnd(s, i + 1)]) else None
  {
    hide Match;
    MarkMatches(COLON_PORT, s, i);
    OneMatches(':', PORT, s, i);
    PortMatches(s, i + 1);
    assert [i] + [i + 1, NumberEnd(s, i + 1)] == [i, i + 1, NumberEnd(s, i + 1)];
  }

  /** Where the four numbers of an ip, and the colon after them, are. */
  predicate IpAt(s: string, i: nat, e1: nat, e2: nat, e3: nat, e4: nat)
  {
    && DigitsAt(s, i, e1) && DigitsAt(s, e1 + 1, e2) && DigitsAt(s, e2 + 1, e3) && DigitsAt(s, e3 + 1, e4)
    && s[e1] == '.' && s[e2] == '.' && s[e3] == '.' && e4 < |s| && s[e4] == ':'
  }

  lemma IpMatches(s: string, i: nat, e1: nat, e2: nat, e3: nat, e4: nat)
    requires IpAt(s, i, e1, e2, e3, e4)
    ensures Match(IP, s, i) ==
            if e4 + 1 < |s| && IsDigit(s[e4 + 1]) then Some([i, e4, e4 + 1, NumberEnd(s, e4 + 1)]) else None
  {
    hide Match;
    MarkMatches(IP, s, i);
    NumberMatches('.', Plus(Digit, DOT_3), s, i, e1);
    NumberMatches('.', Plus(Digit, DOT_4), s, e1 + 1, e2);
    NumberMatches('.', Plus(Digit, COLON_PORT), s, e2 + 1, e3);
    LastNumberMatches(s, e3 + 1, e4);
    ColonPortMatches(s, e4);
    assert [i] + [e4, e4 + 1, NumberEnd(s, e4 + 1)] == [i, e4, e4 + 1, NumberEnd(s, e4 + 1)];
  }

  /** The scheme part of the pattern only matches at an address. */
  lemma SchemeNeedsAddress(s: string, k: nat)
    requires k <= |s|
    ensures Match(SCHEME, s, k).Some? ==> SchemeAt(s, k)
    ensures SchemeAt(s, k) ==> Match(SCHEME, s, k).Some? == Match(IP, s, k + 3).Some?
    ensures SchemeAt(s, k) && Match(IP, s, k + 3).Some? ==>
              Match(SCHEME, s, k).value == [k] + Match(IP, s, k + 3).value
  {
    hide Match;
    MarkMatches(SCHEME, s, k);
    OneMatches(':', One('/', One('/', IP)), s, k);
    if k + 1 <= |s| {
      OneMatches('/', One('/', IP), s, k + 1);
    }
    if k + 2 <= |s| {
      OneMatches('/', IP, s, k + 2);
    }
    if k + 3 <= |s| && Match(IP, s, k + 3).Some? {
      MarkMatches(IP, s, k + 3);
      var end := Splits(IP.next, s, k + 3);
    }
  }

  /** With one address, at q: what the scheme part matches anywhere. */
  ghost predicate OneAddress(s: string, q: nat)
  {
    forall k: nat :: SchemeAt(s, k) ==> k == q
  }

  /** The protocol group takes characters greedily up to the one address of its line. */
  lemma ProtocolMatches(s: string, i: nat, q: nat)
    requires i <= |s| && q <= |s| && OneAddress(s, q)
    ensures (forall j :: i <= j < q ==> !LineBreak(s[j])) ==>
              Match(PROTOCOL, s, i) ==
              if i <= q && Match(SCHEME, s, q).Some? then Some([i] + Match(SCHEME, s, q).value) else None
    ensures (exists j :: i <= j < q && LineBreak(s[j])) ==> Match(PROTOCOL, s, i).None?
  {
    hide Match;
    MarkMatches(PROTOCOL, s, i);
    forall k | i <= k <= |s|
      ensures Match(SCHEME, s, k).Some? ==> k == q
    {
      SchemeNeedsAddress(s, k);
    }
    if (forall j :: i <= j < q ==> !LineBreak(s[j])) && i <= q && Match(SCHEME, s, q).Some? {
      ReachesFar(Any, None, s, i, q);
      GreedyTakes(PROTOCOL.next, s, i, q);
    } else {
      NeverMatches(PROTOCOL.next, s, i);
    }
  }

  /** The start of the line that position p is on. */
  predicate LineStart(s: string, b: nat, p: nat)
  {
    b <= p <= |s| && (b == 0 || LineBreak(s[b - 1])) && forall j :: b <= j < p ==> !LineBreak(s[j])
  }

  lemma {:induction false} LineStartExists(s: string, p: nat) returns (b: nat)
    requires p <= |s|
    ensures LineStart(s, b, p)
  {
    b := p;
    if p > 0 && !LineBreak(s[p - 1]) {
      b := LineStartExists(s, p - 1);
    }
  }

  lemma SlashMatches(s: string, b: nat, k: nat, q: nat)
    requires LineStart(s, b, q) && k <= |s| && OneAddress(s, q)
    ensures Match(One('/', PROTOCOL), s, k) ==
            if b <= k < q && s[k] == '/' && Match(SCHEME, s, q).Some?
            then Some([k + 1] + Match(SCHEME, s, q).value) else None
  {
    hide Match;
    OneMatches('/', PROTOCOL, s, k);
    if k < |s| {
      ProtocolMatches(s, k + 1, q);
      if k < b {
        assert s[k] == '/' ==> k + 1 <= b - 1 < q && LineBreak(s[b - 1]);
      }
    }
  }

  /** The whole pattern finds the one address, with the protocol from the last slash before it, or nothing. */
  lemma PatternFinds(s: string, b: nat, p: nat, q: nat)
    requires LineStart(s, b, q) && b <= p < q && OneAddress(s, q) && s[p] == '/'
    requires forall j :: p < j < q ==> s[j] != '/'
    ensures Find(IP_PORT_PATTERN, s, 0) ==
            if Match(SCHEME, s, q).Some? then Some([p + 1] + Match(SCHEME, s, q).value) else None
  {
    hide Match;
    forall k | 0 <= k <= |s|
      ensures Match(One('/', PROTOCOL), s, k) ==
              if b <= k < q && s[k] == '/' && Match(SCHEME, s, q).Some?
              then Some([k + 1] + Match(SCHEME, s, q).value) else None
    {
      SlashMatches(s, b, k, q);
    }
    if Match(SCHEME, s, q).Some? {
      ReachesFar(Any, None, s, b, p);
      GreedyTakes(IP_PORT_PATTERN, s, b, p);
      forall i | 0 <= i < b
        ensures Match(IP_PORT_PATTERN, s, i).None?
      {
        ReachStops(s, i, b - 1);
        NeverMatches(IP_PORT_PATTERN, s, i);
      }
      FindPassesOver(IP_PORT_PATTERN, s, 0, b);
    } else {
      forall k | 0 <= k <= |s|
        ensures Match(SCHEME, s, k).None?
      {
        SchemeNeedsAddress(s, k);
      }
      NoSchemeNotFound(s);
    }
  }

  lemma ReachStops(s: string, i: nat, k: nat)
    requires i <= k < |s| && LineBreak(s[k])
    ensures Reach(Any, None, s, i) <= k
  {
  }

  /** Without a place where the scheme part matches, nothing is found. */
  lemma NoSchemeNotFound(s: string)
    requires forall k :: 0 <= k <= |s| ==> Match(SCHEME, s, k).None?
    ensures Find(IP_PORT_PATTERN, s, 0).None?
  {
    hide Match;
    forall i | 0 <= i <= |s|
      ensures Match(PROTOCOL, s, i).None?
    {
      MarkMatches(PROTOCOL, s, i);
      NeverMatches(PROTOCOL.next, s, i);
    }
    forall i | 0 <= i <= |s|
      ensures Match(One('/', PROTOCOL), s, i).None?
    {
      OneMatches('/', PROTOCOL, s, i);
    }
    forall i | 0 <= i <= |s|
      ensures Match(IP_PORT_PATTERN, s, i).None?
    {
      NeverMatches(IP_PORT_PATTERN, s, i);
    }
    NeverFound(IP_PORT_PATTERN, s, 0);
  }

  // ----- Where the parts of a printed path are -----

  lemma NumberAt(before: string, number: string, rest: string)
    requires Number(number) && (rest == "" || !IsDigit(rest[0]))
    ensures DigitsAt(before + (number + rest), |before|, |before| + |number|)
  {
    var s := before + (number + rest);
    assert forall j :: |before| <= j < |before| + |number| ==> s[j] == number[j - |before|];
    assert rest != "" ==> s[|before| + |number|] == rest[0];
  }

  lemma NumberThen(before: string, number: string, c: char, rest: string)
    requires Number(number) && !IsDigit(c)
    ensures var s := before + (number + ([c] + rest));
            && DigitsAt(s, |before|, |before| + |number|)
            && s[|before| + |number|] == c
            && s == (before + (number + [c])) + rest
  {
    NumberAt(before, number, [c] + rest);
  }

  lemma DottedAt(before: string, ip: Ip, rest: string)
    requires ip.Valid()
    ensures var s := before + (ip.Dotted() + ([':'] + rest));
            var e1 := |before| + |ip.a|;
            var e2 := e1 + 1 + |ip.b|;
            var e3 := e2 + 1 + |ip.c|;
            IpAt(s, |before|, e1, e2, e3, e3 + 1 + |ip.d|) && e3 + 1 + |ip.d| == |before| + |ip.Dotted()|
  {
    var s := before + (ip.Dotted() + ([':'] + rest));
    var tail4 := [':'] + rest;
    var tail3 := ip.d + tail4;
    var tail2 := ip.c + (['.'] + tail3);
    var tail1 := ip.b + (['.'] + tail2);
    var b1 := before + (ip.a + ['.']);
    var b2 := b1 + (ip.b + ['.']);
    var b3 := b2 + (ip.c + ['.']);
    DottedThen(ip, tail4);
    NumberThen(before, ip.a, '.', tail1);
    NumberThen(b1, ip.b, '.', tail2);
    NumberThen(b2, ip.c, '.', tail3);
    NumberThen(b3, ip.d, ':', rest);
  }

  lemma DottedThen(ip: Ip, rest: string)
    ensures ip.Dotted() + rest == ip.a + (['.'] + (ip.b + (['.'] + (ip.c + (['.'] + (ip.d + rest))))))
  {
    assert ip.d + rest == ip.d + rest;
    DotThen(ip.c, ip.d, rest);
    DotThen(ip.b, ip.c + (['.'] + ip.d), rest);
    DotThen(ip.a, ip.b + (['.'] + (ip.c + (['.'] + ip.d))), rest);
  }

  lemma DotThen(a: string, b: string, rest: string)
    ensures (a + (['.'] + b)) + rest == a + (['.'] + (b + rest))
  {
  }

  /** What the ip part of the pattern matches where an authority is printed. */
  lemma AuthorityMatches(before: string, ip: Ip, port: string, trail: string)
    requires ip.Valid() && port != "" && (IsDigit(port[0]) ==> Number(port)) && trail != "" && trail[0] == '/'
    ensures var s, i := before + (ip.Dotted() + ([':'] + (port + trail))), |before|;
            var e := i + |ip.Dotted()|;
            && s[i..e] == ip.Dotted() && s[e + 1..e + 1 + |port|] == port
            && Match(IP, s, i) == if IsDigit(port[0]) then Some([i, e, e + 1, e + 1 + |port|]) else None
  {
    hide Match, IpAt, DigitsAt, Ip.Dotted;
    var s, i := before + (ip.Dotted() + ([':'] + (port + trail))), |before|;
    var e := i + |ip.Dotted()|;
    DottedAt(before, ip, port + trail);
    IpMatches(s, i, i + |ip.a|, i + |ip.a| + 1 + |ip.b|, i + |ip.a| + 1 + |ip.b| + 1 + |ip.c|, e);
    var upTo := before + ip.Dotted() + [':'];
    assert s == upTo + (port + trail);
    assert s[e + 1] == port[0];
    if IsDigit(port[0]) {
      NumberAt(upTo, port, trail);
      NumberEndIs(s, e + 1, e + 1 + |port|);
    }
  }

  // ----- What is found, and that nothing is missed -----

  predicate OccursAt(s: string, i: int, text: string)
  {
    0 <= i && i + |text| <= |s| && s[i..i + |text|] == text
  }

  lemma NumberSplits(c: char, next: Pattern, s: string, i: nat) returns (e: nat)
    requires i <= |s| && Match(Plus(Digit, One(c, next)), s, i).Some?
    ensures i < e < |s| && Number(s[i..e]) && s[e] == c
    ensures Match(Plus(Digit, One(c, next)), s, i) == Match(next, s, e + 1)
  {
    hide Match;
    e := Splits(Plus(Digit, One(c, next)), s, i);
    OneMatches(c, next, s, e);
  }

  lemma PortSplits(s: string, i: nat) returns (f: nat)
    requires i <= |s| && Match(COLON_PORT, s, i).Some?
    ensures i + 1 < f <= |s| && s[i] == ':' && Number(s[i + 1..f])
    ensures Match(COLON_PORT, s, i) == Some([i, i + 1, f])
  {
    hide Match;
    MarkMatches(COLON_PORT, s, i);
    OneMatches(':', PORT, s, i);
    ColonPortMatches(s, i);
    f := NumberEnd(s, i + 1);
  }

  lemma IpSplits(s: string, i: nat) returns (e: nat, f: nat)
    requires i <= |s| && Match(IP, s, i).Some?
    ensures i < e && e + 1 < f <= |s| && IsDotted(s[i..e]) && s[e] == ':' && Number(s[e + 1..f])
    ensures Match(IP, s, i) == Some([i, e, e + 1, f])
  {
    hide Match;
    MarkMatches(IP, s, i);
    var e1 := NumberSplits('.', Plus(Digit, DOT_3), s, i);
    var e2 := NumberSplits('.', Plus(Digit, DOT_4), s, e1 + 1);
    var e3 := NumberSplits('.', Plus(Digit, COLON_PORT), s, e2 + 1);
    e := Splits(Plus(Digit, COLON_PORT), s, e3 + 1);
    f := PortSplits(s, e);
    assert [i] + [e, e + 1, f] == [i, e, e + 1, f];
    DottedSlice(s, i, e1, e2, e3, e);
  }

  lemma DottedSlice(s: string, i: nat, e1: nat, e2: nat, e3: nat, e: nat)
    requires i < e1 < e2 < e3 < e <= |s| && s[e1] == '.' && s[e2] == '.' && s[e3] == '.'
    requires e1 + 1 < e2 && e2 + 1 < e3 && e3 + 1 < e
    requires Number(s[i..e1]) && Number(s[e1 + 1..e2]) && Number(s[e2 + 1..e3]) && Number(s[e3 + 1..e])
    ensures IsDotted(s[i..e])
  {
    var ip := Ip(s[i..e1], s[e1 + 1..e2], s[e2 + 1..e3], s[e3 + 1..e]);
    assert s[e2 + 1..e] == ip.c + (['.'] + ip.d);
    assert s[e1 + 1..e] == ip.b + (['.'] + s[e2 + 1..e]);
    assert s[i..e] == ip.a + (['.'] + s[e1 + 1..e]);
    assert ip.Valid() && ip.Dotted() == s[i..e];
  }

  lemma ProtocolSplits(s: string, i: nat) returns (q: nat)
    requires i <= |s| && Match(PROTOCOL, s, i).Some?
    ensures i <= q <= |s| && OneLine(s[i..q]) && SchemeAt(s, q) && Match(IP, s, q + 3).Some?
    ensures Match(PROTOCOL, s, i) == Some([i] + ([q] + Match(IP, s, q + 3).value))
  {
    hide Match;
    MarkMatches(PROTOCOL, s, i);
    q := Splits(PROTOCOL.next, s, i);
    SchemeNeedsAddress(s, q);
  }

  lemma ProtocolSuffices(s: string, i: nat, q: nat)
    requires i <= q <= |s| && OneLine(s[i..q]) && SchemeAt(s, q) && Match(IP, s, q + 3).Some?
    ensures Match(PROTOCOL, s, i).Some?
  {
    hide Match;
    assert forall j :: i <= j < q ==> s[j] == s[i..q][j - i];
    ReachesFar(Any, None, s, i, q);
    SchemeNeedsAddress(s, q);
    SomeRunMatches(PROTOCOL.next, s, i, q);
    MarkMatches(PROTOCOL, s, i);
  }

  /** The pattern starts at the last slash that can start it, so a protocol group has no slash. */
  lemma LastSlash(s: string, start: nat, n: nat, q: nat)
    requires start <= n < q <= |s| && SchemeAt(s, q) && Match(IP, s, q + 3).Some?
    requires OneLine(s[n + 1..q]) && s[n] == '/' && n <= Reach(Any, None, s, start)
    requires forall k :: n < k <= Reach(Any, None, s, start) ==> Match(One('/', PROTOCOL), s, k).None?
    ensures '/' !in s[n + 1..q]
  {
    hide Match;
    var protocol := s[n + 1..q];
    if '/' in protocol {
      var j :| 0 <= j < |protocol| && protocol[j] == '/';
      var k := n + 1 + j;
      assert forall i :: n < i < q ==> s[i] == protocol[i - n - 1];
      ReachesFar(Any, None, s, start, k);
      assert s[k + 1..q] == protocol[j + 1..];
      ProtocolSuffices(s, k + 1, q);
      OneMatches('/', PROTOCOL, s, k);
    }
  }

  lemma EndpointSlice(s: string, n: nat, q: nat, e: nat, f: nat)
    requires n < q && q + 3 < e && e + 1 < f <= |s| && s[n] == '/' && SchemeAt(s, q) && s[e] == ':'
    ensures OccursAt(s, n, Endpoint(s[n + 1..q], s[q + 3..e], s[e + 1..f]).Text())
  {
    assert s[e..f] == [':'] + s[e + 1..f];
    assert s[q + 3..f] == s[q + 3..e] + s[e..f];
    assert s[q..f] == "://" + s[q + 3..f];
    assert s[n + 1..f] == s[n + 1..q] + s[q..f];
    assert s[n..f] == ['/'] + s[n + 1..f];
  }

  /** What is found is an address that occurs in the text, with a protocol free of slashes. */
  lemma FoundIsProper(s: string) returns (n: nat)
    requires FirstEndpoint(s).Some?
    ensures var x := FirstEndpoint(s).value;
            x.Proper() && '/' !in x.protocol && OccursAt(s, n, x.Text())
  {
    hide Match, Find, IsDotted;
    var start := FoundSomewhere(IP_PORT_PATTERN, s, 0);
    n := Splits(IP_PORT_PATTERN, s, start);
    OneMatches('/', PROTOCOL, s, n);
    var q := ProtocolSplits(s, n + 1);
    var e, f := IpSplits(s, q + 3);
    assert [n + 1] + ([q] + [q + 3, e, e + 1, f]) == [n + 1, q, q + 3, e, e + 1, f];
    LastSlash(s, start, n, q);
    EndpointSlice(s, n, q, e, f);
  }

  /** Where an address occurs, something is found. */
  lemma NothingMissed(s: string, x: Endpoint, i: int)
    requires x.Proper() && OccursAt(s, i, x.Text())
    ensures FirstEndpoint(s).Some?
  {
    hide Match, Find, Endpoint.Text;
    var before, after := s[..i], s[i + |x.Text()|..];
    assert s == before + (x.Text() + after);
    var ip: Ip :| ip.Valid() && ip.Dotted() == x.ip;
    AddressAt(before, x, ip, after);
    ProtocolSuffices(s, i + 1, i + 1 + |x.protocol|);
    OneMatches('/', PROTOCOL, s, i);
    SomeRunMatches(IP_PORT_PATTERN, s, i, i);
    MatchIsFound(IP_PORT_PATTERN, s, 0, i);
  }

  lemma TextSplits(before: string, x: Endpoint, after: string)
    ensures before + (x.Text() + after) ==
            (before + ['/'] + x.protocol + "://") + (x.ip + ([':'] + (x.port + after)))
  {
    assert ([':'] + x.port) + after == [':'] + (x.port + after);
    assert (x.ip + ([':'] + x.port)) + after == x.ip + ([':'] + (x.port + after));
    var rest := x.ip + ([':'] + (x.port + after));
    assert ("://" + (x.ip + ([':'] + x.port))) + after == "://" + rest;
    assert (x.protocol + ("://" + (x.ip + ([':'] + x.port)))) + after == x.protocol + ("://" + rest);
    assert x.Text() + after == ['/'] + (x.protocol + ("://" + rest));
  }

  lemma AddressAt(before: string, x: Endpoint, ip: Ip, after: string)
    requires x.Proper() && ip.Valid() && ip.Dotted() == x.ip
    ensures var s, i := before + (x.Text() + after), |before|;
            var q := i + 1 + |x.protocol|;
            q + 3 < |s| && s[i] == '/' && s[i + 1..q] == x.protocol && SchemeAt(s, q) && Match(IP, s, q + 3).Some?
  {
    hide Match, Endpoint.Text, Ip.Dotted, IsDotted;
    var s, head := before + (x.Text() + after), before + ['/'] + x.protocol + "://";
    var q := |before| + 1 + |x.protocol|;
    TextSplits(before, x, after);
    IpPrinted(head, ip, x.port, after);
    HeadParts(before, x.protocol, s);
    DottedPlain(ip);
    assert s[q + 3] == x.ip[0];
  }

  lemma IpPrinted(before: string, ip: Ip, port: string, after: string)
    requires ip.Valid() && Number(port)
    ensures Match(IP, before + (ip.Dotted() + ([':'] + (port + after))), |before|).Some?
  {
    hide Match, Ip.Dotted, IpAt;
    var s, i := before + (ip.Dotted() + ([':'] + (port + after))), |before|;
    var e1 := i + |ip.a|;
    var e2 := e1 + 1 + |ip.b|;
    var e3 := e2 + 1 + |ip.c|;
    DottedAt(before, ip, port + after);
    IpMatches(s, i, e1, e2, e3, i + |ip.Dotted()|);
    assert s[i + |ip.Dotted()| + 1] == port[0];
  }

  lemma HeadParts(before: string, protocol: string, s: string)
    requires before + ['/'] + protocol + "://" <= s
    ensures var i, q := |before|, |before| + 1 + |protocol|;
            && s[i] == '/' && s[i + 1..q] == protocol
            && s[q] == ':' && s[q + 1] == '/' && s[q + 2] == '/'
  {
    var head := before + ['/'] + protocol + "://";
    assert forall j :: 0 <= j < |head| ==> s[j] == head[j];
  }
}
