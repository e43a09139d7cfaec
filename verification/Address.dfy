/** Utils.formatAddress, getHost and getPort. */
module Address {
  import opened Common
  import opened Regex
  import opened Text

  // ----- The patterns -----

  const PORT := Mark(Plus(Digit, Mark(Done(true))))
  const CLOSE := Rep(Only(']'), 0, Some(1), true, One(':', PORT))
  const HOST := Mark(Star(Host, Mark(CLOSE)))
  const OPEN := Rep(Only('['), 0, Some(1), true, HOST)

  /** `.*?\[?([0-9a-zA-Z\-%._:]*)\]?:([0-9]+)` against the whole address. */
  const HOST_PORT_PATTERN := Rep(Any, 0, None, false, OPEN)

  const VALID_HOST_CHARACTERS := Mark(Star(Host, Mark(Done(true))))

  // ----- The functions -----

  predicate ValidHostPattern(address: string)
  {
    Match(VALID_HOST_CHARACTERS, address, 0).Some?
  }

  predicate ValidHost(host: string)
  {
    forall i :: 0 <= i < |host| ==> Host.Has(host[i])
  }

  predicate AllDigits(s: string)
  {
    forall i :: 0 <= i < |s| ==> '0' <= s[i] <= '9'
  }

  function PortText(port: Option<int32>): string
  {
    if port.Some? then Decimal(port.value as int) else "null"
  }

  function FormatAddress(host: string, port: Option<int32>): string
  {
    if ':' in host then "[" + host + "]" + [':'] + PortText(port) else host + [':'] + PortText(port)
  }

  function GetHost(address: string): Option<string>
  {
    match Match(HOST_PORT_PATTERN, address, 0)
    case Some(m) => (GroupsInOrder(address, m); Some(address[m[0]..m[1]]))
    case None => None
  }

  datatype NumberFormat = NumberFormat(text: string)

  /** Integer.parseInt on digits. */
  function ParseInt(digits: string): Result<int32, NumberFormat>
    requires AllDigits(digits)
  {
    var n := ParseDigits(digits);
    if n < 0x8000_0000 then Ok(n as int32) else Err(NumberFormat(digits))
  }

  function GetPort(address: string): Result<Option<int32>, NumberFormat>
  {
    match Match(HOST_PORT_PATTERN, address, 0)
    case Some(m) =>
      GroupsInOrder(address, m);
      (match ParseInt(address[m[2]..m[3]]) case Ok(n) => Ok(Some(n)) case Err(e) => Err(e))
    case None => Ok(None)
  }

  /** A host with a colon is put in brackets, any other is not; a missing port is printed as Java prints null. */
  lemma FormatIs(host: string, port: int32)
    ensures (exists i :: 0 <= i < |host| && host[i] == ':') ==>
              FormatAddress(host, Some(port)) == "[" + host + "]:" + Decimal(port as int)
              && FormatAddress(host, None) == "[" + host + "]:null"
    ensures (forall i :: 0 <= i < |host| ==> host[i] != ':') ==>
              FormatAddress(host, Some(port)) == host + ":" + Decimal(port as int)
              && FormatAddress(host, None) == host + ":null"
  {
    hide Decimal;
    assert ':' in host <==> exists i :: 0 <= i < |host| && host[i] == ':';
    assert "[" + host + "]" + [':'] == "[" + host + "]:";
    assert "[" + host + "]" + [':'] + Decimal(port as int) == "[" + host + "]:" + Decimal(port as int);
    assert "[" + host + "]" + [':'] + "null" == "[" + host + "]:null";
  }

  // ----- What the pattern matches -----

  /** Where the colon is if an optional bracket, a colon, and digits to the end follow. */
  function CloseAt(s: string, i: nat): Option<nat>
    requires i <= |s|
  {
    var j := if i < |s| && s[i] == ']' then i + 1 else i;
    if j + 1 < |s| && s[j] == ':' && AllDigits(s[j + 1..]) then Some(j) else None
  }

  lemma PortMatches(s: string, i: nat)
    requires i <= |s|
    ensures Match(PORT, s, i) == if i < |s| && AllDigits(s[i..]) then Some([i, |s|]) else None
  {
    hide Match;
    MarkMatches(PORT, s, i);
    forall k | i <= k <= |s|
      ensures Match(PORT.next.next, s, k) == if k < |s| then None else Some([k])
    {
      LastMarkMatches(PORT.next.next, s, k);
    }
    if i < |s| && Reach(Digit, None, s, i) == |s| {
      assert AllDigits(s[i..]);
    }
    if i < |s| && AllDigits(s[i..]) {
      forall j | i <= j < |s|
        ensures Digit.Has(s[j])
      {
        assert s[j] == s[i..][j - i];
      }
      ReachesFar(Digit, None, s, i, |s|);
      GreedyTakes(PORT.next, s, i, |s|);
      assert [i] + [|s|] == [i, |s|];
    } else {
      NeverMatches(PORT.next, s, i);
    }
  }

  lemma ColonMatches(s: string, i: nat)
    requires i <= |s|
    ensures Match(CLOSE.next, s, i) ==
            if i + 1 < |s| && s[i] == ':' && AllDigits(s[i + 1..]) then Some([i + 1, |s|]) else None
  {
    OneMatches(':', PORT, s, i);
    if i < |s| {
      PortMatches(s, i + 1);
    }
  }

  lemma CloseMatches(s: string, i: nat)
    requires i <= |s|
    ensures Match(CLOSE, s, i) == if CloseAt(s, i).Some? then Some([CloseAt(s, i).value + 1, |s|]) else None
  {
    hide Match;
    var end := Reach(Only(']'), Some(1), s, i);
    forall k | i <= k <= end
      ensures Match(CLOSE.next, s, k) ==
              if k + 1 < |s| && s[k] == ':' && AllDigits(s[k + 1..]) then Some([k + 1, |s|]) else None
    {
      ColonMatches(s, k);
    }
    if CloseAt(s, i).Some? {
      GreedyTakes(CLOSE, s, i, end);
    } else {
      NeverMatches(CLOSE, s, i);
    }
  }

  /** What a match of the host group and of what follows it looks like. */
  lemma HostSplits(s: string, i: nat) returns (end: nat)
    requires i <= |s| && Match(HOST, s, i).Some?
    ensures i <= end <= |s| && ValidHost(s[i..end])
    ensures CloseAt(s, end).Some?
    ensures Match(HOST, s, i) == Some([i, end, CloseAt(s, end).value + 1, |s|])
  {
    hide Match;
    MarkMatches(HOST, s, i);
    end := Splits(HOST.next, s, i);
    MarkMatches(HOST.next.next, s, end);
    CloseMatches(s, end);
    Positions(i, end, CloseAt(s, end).value + 1, |s|);
  }

  lemma Positions(a: nat, b: nat, c: nat, d: nat)
    ensures [a] + ([b] + [c, d]) == [a, b, c, d]
  {
  }

  /** Whatever matches, the groups are a host of valid characters and a port of digits. */
  lemma GroupsInOrder(address: string, m: seq<nat>)
    requires Match(HOST_PORT_PATTERN, address, 0) == Some(m)
    ensures |m| == 4 && m[0] <= m[1] <= m[2] < m[3] == |address|
    ensures ValidHost(address[m[0]..m[1]]) && AllDigits(address[m[2]..m[3]])
    ensures CloseAt(address, m[1]).Some? && m[2] == CloseAt(address, m[1]).value + 1
  {
    hide Match;
    var i := Splits(HOST_PORT_PATTERN, address, 0);
    var j := Splits(OPEN, address, i);
    var end := HostSplits(address, j);
  }

  /** The host group takes valid characters greedily, so it ends at the last place where the rest still matches. */
  lemma HostMatches(s: string, i: nat, end: nat)
    requires i <= end <= |s| && ValidHost(s[i..end]) && CloseAt(s, end).Some?
    requires forall k :: end < k <= |s| && ValidHost(s[i..k]) ==> CloseAt(s, k).None?
    ensures Match(HOST, s, i) == Some([i, end, CloseAt(s, end).value + 1, |s|])
  {
    hide Match;
    forall j | i <= j < end
      ensures Host.Has(s[j])
    {
      assert s[j] == s[i..end][j - i];
    }
    ReachesFar(Host, None, s, i, end);
    forall k | end <= k <= Reach(Host, None, s, i)
      ensures Match(HOST.next.next, s, k).Some? <==> k == end
    {
      MarkMatches(HOST.next.next, s, k);
      CloseMatches(s, k);
      assert ValidHost(s[i..k]);
    }
    MarkMatches(HOST.next.next, s, end);
    CloseMatches(s, end);
    GreedyTakes(HOST.next, s, i, end);
    MarkMatches(HOST, s, i);
    Positions(i, end, CloseAt(s, end).value + 1, |s|);
  }

  // ----- What is printed is read back -----

  lemma DigitsOfPort(port: int32)
    requires port >= 0
    ensures AllDigits(PortText(Some(port))) && ParseInt(PortText(Some(port))) == Ok(port)
  {
    ParseDigitsInverts(port as nat);
  }

  lemma PortTextPlain(port: Option<int32>)
    ensures PortText(port) != "" && ':' !in PortText(port)
    ensures AllDigits(PortText(port)) <==> port.Some? && port.value >= 0
  {
    if port.None? {
      assert PortText(port)[0] == 'n';
    } else if port.value < 0 {
      assert PortText(port)[0] == '-';
    }
  }

  /** The only colon followed by digits to the end is the one before the port, if the port is digits at all. */
  lemma CloseAtPort(pre: string, port: string, k: nat)
    requires ':' !in port && port != "" && k <= |pre + [':'] + port|
    ensures var s := pre + [':'] + port;
            CloseAt(s, k) ==
            if AllDigits(port) && (k == |pre| || (k + 1 == |pre| && s[k] == ']')) then Some(|pre|) else None
  {
    var s := pre + [':'] + port;
    var j := if k < |s| && s[k] == ']' then k + 1 else k;
    assert s[|pre|] == ':';
    assert s[|pre| + 1..] == port;
    if j < |pre| {
      assert s[j + 1..][|pre| - j - 1] == ':';
    } else if |pre| < j < |s| {
      assert s[j] == port[j - |pre| - 1];
    }
  }

  /** An address whose last part is not a port is not matched, whatever comes before. */
  lemma NoPortNoMatch(pre: string, port: string)
    requires ':' !in port && port != "" && !AllDigits(port)
    ensures Match(HOST_PORT_PATTERN, pre + [':'] + port, 0).None?
  {
    var s := pre + [':'] + port;
    if m :| Match(HOST_PORT_PATTERN, s, 0) == Some(m) {
      GroupsInOrder(s, m);
      CloseAtPort(pre, port, m[1]);
    }
  }

  /** No start is skipped if the host group matches at the first character, after an opening bracket if there is one. */
  lemma FirstStart(s: string)
    requires var open := if s != "" && s[0] == '[' then 1 else 0;
             Match(HOST, s, open).Some?
    ensures Match(HOST_PORT_PATTERN, s, 0) == Match(HOST, s, if s != "" && s[0] == '[' then 1 else 0)
  {
    hide Match;
    var open := if s != "" && s[0] == '[' then 1 else 0;
    assert Reach(Only('['), Some(1), s, 0) == open;
    GreedyTakes(OPEN, s, 0, open);
    LazyTakesLeast(HOST_PORT_PATTERN, s, 0);
  }

  lemma PlainCloses(host: string, port: string, k: nat)
    requires ValidHost(host) && ':' !in host && AllDigits(port) && ':' !in port && port != ""
    requires k <= |host + [':'] + port|
    ensures CloseAt(host + [':'] + port, k) == if k == |host| then Some(|host|) else None
  {
    hide CloseAt;
    var s := host + [':'] + port;
    CloseAtPort(host, port, k);
    assert k < |host| ==> s[k] == host[k];
  }

  /** Without brackets, the group is the whole host although it could take the port as well. */
  lemma PlainMatches(host: string, port: string)
    requires ValidHost(host) && ':' !in host && AllDigits(port) && ':' !in port && port != ""
    ensures Match(HOST_PORT_PATTERN, host + [':'] + port, 0) == Some([0, |host|, |host| + 1, |host| + 1 + |port|])
  {
    hide Match, CloseAt, AllDigits;
    var s := host + [':'] + port;
    assert s[0..|host|] == host;
    assert s[0] != '[' by {
      assert host != "" ==> s[0] == host[0] && Host.Has(host[0]);
    }
    hide ValidHost;
    forall k | 0 <= k <= |s|
      ensures CloseAt(s, k) == if k == |host| then Some(|host|) else None
    {
      PlainCloses(host, port, k);
    }
    HostMatches(s, 0, |host|);
    FirstStart(s);
  }

  /** With brackets, the group ends at the closing one. */
  lemma BracketedMatches(s: string, host: string, port: string)
    requires ValidHost(host) && AllDigits(port) && ':' !in port && port != ""
    requires s == "[" + host + "]" + [':'] + port
    ensures Match(HOST_PORT_PATTERN, s, 0) == Some([1, |host| + 1, |host| + 3, |s|])
  {
    hide Match, CloseAt, AllDigits, ValidHost;
    BracketedText(s, host, port);
    BracketedHost(s, host);
  }

  lemma BracketedText(s: string, host: string, port: string)
    requires AllDigits(port) && ':' !in port && port != "" && s == "[" + host + "]" + [':'] + port
    ensures |s| == |host| + 3 + |port| && s[0] == '[' && s[|host| + 1] == ']' && s[1..|host| + 1] == host
    ensures CloseAt(s, |host| + 1) == Some(|host| + 2)
  {
    hide CloseAt, AllDigits;
    CloseAtPort("[" + host + "]", port, |host| + 1);
  }

  lemma BracketedHost(s: string, host: string)
    requires ValidHost(host) && |host| + 2 < |s|
    requires s[0] == '[' && s[|host| + 1] == ']' && s[1..|host| + 1] == host
    requires CloseAt(s, |host| + 1) == Some(|host| + 2)
    ensures Match(HOST_PORT_PATTERN, s, 0) == Some([1, |host| + 1, |host| + 3, |s|])
  {
    hide Match, CloseAt, ValidHost;
    BracketEndsHost(s, 1, |host| + 1);
    HostMatches(s, 1, |host| + 1);
    FirstStart(s);
  }

  lemma BracketEndsHost(s: string, i: nat, end: nat)
    requires i <= end < |s| && s[end] == ']'
    ensures forall k :: end < k <= |s| ==> !ValidHost(s[i..k])
  {
    forall k | end < k <= |s|
      ensures !ValidHost(s[i..k])
    {
      assert s[i..k][end - i] == ']';
    }
  }

  /** The characters validHostPattern accepts. */
  lemma ValidHostPatternIs(address: string)
    ensures ValidHostPattern(address) <==> ValidHost(address)
  {
    hide Match;
    MarkMatches(VALID_HOST_CHARACTERS, address, 0);
    var p := VALID_HOST_CHARACTERS.next;
    forall k | 0 <= k <= |address|
      ensures Match(p.next, address, k).Some? <==> k == |address|
    {
      LastMarkMatches(p.next, address, k);
    }
    if ValidHost(address) {
      ReachesFar(Host, None, address, 0, |address|);
      GreedyTakes(p, address, 0, |address|);
    } else {
      NeverMatches(p, address, 0);
    }
  }

  lemma FormattedMatches(host: string, port: Option<int32>)
    requires ValidHost(host) && port.Some? && port.value >= 0
    ensures var open := if ':' in host then 1 else 0;
            Match(HOST_PORT_PATTERN, FormatAddress(host, port), 0) ==
            Some([open, open + |host|, |host| + 1 + 2 * open, |FormatAddress(host, port)|])
  {
    hide Match, ValidHost, PortText;
    PortTextPlain(port);
    if ':' in host {
      BracketedMatches(FormatAddress(host, port), host, PortText(port));
    } else {
      PlainMatches(host, PortText(port));
    }
  }

  /**
   * The host comes back exactly when it is of valid characters, IPv6 and empty included, and the port is a
   * non-negative int.
   */
  lemma HostRoundTrip(host: string, port: Option<int32>)
    ensures GetHost(FormatAddress(host, port)) == Some(host) <==>
            ValidHostPattern(host) && port.Some? && port.value >= 0
  {
    hide Match, PortText;
    ValidHostPatternIs(host);
    PortTextPlain(port);
    var s := FormatAddress(host, port);
    if port.None? || port.value < 0 {
      NoPortNoMatch(if ':' in host then "[" + host + "]" else host, PortText(port));
    } else if ValidHost(host) {
      FormattedMatches(host, port);
      assert s[if ':' in host then 1 else 0..(if ':' in host then 1 else 0) + |host|] == host;
    } else if m :| Match(HOST_PORT_PATTERN, s, 0) == Some(m) {
      GroupsInOrder(s, m);
    }
  }

  lemma AfterColon(pre: string, port: string)
    ensures var s := pre + [':'] + port; s[|pre| + 1..|s|] == port
  {
  }

  /** For a host of valid characters the port comes back, or nothing if it is negative or missing. */
  lemma PortRoundTrip(host: string, port: Option<int32>)
    requires ValidHostPattern(host)
    ensures GetPort(FormatAddress(host, port)) ==
            Ok(if port.Some? && port.value >= 0 then port else None)
  {
    hide Match, PortText;
    ValidHostPatternIs(host);
    PortTextPlain(port);
    var s := FormatAddress(host, port);
    if port.None? || port.value < 0 {
      NoPortNoMatch(if ':' in host then "[" + host + "]" else host, PortText(port));
    } else {
      FormattedMatches(host, port);
      DigitsOfPort(port.value);
      AfterColon(if ':' in host then "[" + host + "]" else host, PortText(port));
    }
  }
}
