/** StringUtils: Dubbo provider paths printed from metadata, and parsed back. */
module DubboUrl {
  import opened Common
  import opened IpPort
  import opened KeyValues
  import opened Regex
  import opened Text
  import opened UrlCode

  /** Metadata in the order its map iterates. */
  type Metadata = m: seq<Entry> | DistinctKeys(m)

  predicate DistinctKeys(entries: seq<Entry>)
  {
    forall i, j :: 0 <= i < j < |entries| ==> entries[i].key != entries[j].key
  }

  const PROTOCOL_KEY := "protocol"
  const INTERFACE_KEY := "interface"

  // ----- Printing -----

  /** Map.get, as String.format prints it. */
  function Get(entries: seq<Entry>, key: string): string
  {
    if entries == [] then "null" else if entries[0].key == key then entries[0].value else Get(entries[1..], key)
  }

  function UrlParam(entries: seq<Entry>): string
  {
    if entries == [] then ""
    else if |entries| == 1 then EntryText(entries[0])
    else EntryText(entries[0]) + ['&'] + UrlParam(entries[1..])
  }

  function ProvidersPath(interfaceName: string): string
  {
    "/dubbo/" + interfaceName + "/providers"
  }

  /** What follows the separator before the protocol: `protocol://ip:port/interface?params` */
  function InstanceUrl(metaData: Metadata, ip: string, port: int32): string
  {
    Get(metaData, PROTOCOL_KEY) + [':'] + Authority(ip, port, Trail(metaData))
  }

  function Authority(ip: string, port: int32, trail: string): string
  {
    "//" + ip + [':'] + (Decimal(port as int) + trail)
  }

  function Trail(metaData: Metadata): string
  {
    "/" + Get(metaData, INTERFACE_KEY) + ['?'] + UrlParam(metaData)
  }

  function FullPath(metaData: Metadata, providersPath: string, ip: string, port: int32): string
  {
    providersPath + ['/'] + Encode(InstanceUrl(metaData, ip, port))
  }

  // ----- What is printed -----

  /** The value of the first entry with the key, or the text of a missing one. */
  lemma {:induction false} GetIs(entries: seq<Entry>, key: string)
    ensures (forall i :: 0 <= i < |entries| ==> entries[i].key != key) ==> Get(entries, key) == "null"
    ensures forall i :: 0 <= i < |entries| && entries[i].key == key && (forall j :: 0 <= j < i ==> entries[j].key != key) ==>
              Get(entries, key) == entries[i].value
  {
    if entries != [] && entries[0].key != key {
      GetIs(entries[1..], key);
      assert forall i :: 0 < i < |entries| ==> entries[1..][i - 1] == entries[i];
    }
  }

  /** The parameters are the keys and values in order, with an ampersand between two. */
  lemma {:induction false} UrlParamIs(entries: seq<Entry>, more: seq<Entry>, e: Entry)
    requires entries != [] && more != []
    ensures UrlParam([]) == "" && UrlParam([e]) == e.key + "=" + e.value
    ensures UrlParam(entries + more) == UrlParam(entries) + "&" + UrlParam(more)
  {
    hide EntryText;
    if |entries| == 1 {
      assert (entries + more)[1..] == more;
    } else {
      UrlParamIs(entries[1..], more, e);
      assert (entries + more)[1..] == entries[1..] + more;
      assert EntryText(entries[0]) + ['&'] + (UrlParam(entries[1..]) + "&" + UrlParam(more)) ==
             (EntryText(entries[0]) + ['&'] + UrlParam(entries[1..])) + "&" + UrlParam(more);
    }
    assert UrlParam([e]) == e.key + "=" + e.value by { ParamOfOne(e); }
  }

  lemma ParamOfOne(e: Entry)
    ensures UrlParam([e]) == e.key + "=" + e.value
  {
  }

  /** A full path is one segment below the providers' path: the URL of the instance, encoded. */
  lemma FullPathIs(metaData: Metadata, providersPath: string, ip: string, port: int32) returns (segment: string)
    ensures FullPath(metaData, providersPath, ip, port) == providersPath + "/" + segment && '/' !in segment
    ensures Decode(segment) == Ok(Get(metaData, "protocol") + "://" + ip + ":" + Decimal(port as int)
                                  + "/" + Get(metaData, "interface") + "?" + UrlParam(metaData))
  {
    hide Decode, Encode, UrlParam, Get, Decimal;
    segment := Encode(InstanceUrl(metaData, ip, port));
    EncodeIsPlain(InstanceUrl(metaData, ip, port));
    assert Decode("") == Ok("") by { DecodeEmpty(); }
    DecodeInverts(InstanceUrl(metaData, ip, port), "");
    assert segment + "" == segment && InstanceUrl(metaData, ip, port) + "" == InstanceUrl(metaData, ip, port);
    UrlText(Get(metaData, "protocol"), ip, Decimal(port as int), Get(metaData, "interface"), UrlParam(metaData));
  }

  lemma UrlText(protocol: string, ip: string, port: string, name: string, params: string)
    ensures protocol + [':'] + ("//" + ip + [':'] + (port + ("/" + name + ['?'] + params))) ==
            protocol + "://" + ip + ":" + port + "/" + name + "?" + params
  {
    var tail := port + ("/" + name + ['?'] + params);
    assert tail == port + "/" + name + "?" + params;
    assert protocol + [':'] + ("//" + ip + [':'] + tail) == protocol + "://" + ip + ":" + tail;
  }

  // ----- Parsing -----

  function EndpointOf(path: string): Result<Option<Endpoint>, Malformed>
  {
    match Decode(path)
    case Err(e) => Err(e)
    case Ok(decoded) => Ok(FirstEndpoint(decoded))
  }

  /**
   * `while (matcher.find())` leaves its body with a break, so it is taken at most once. An answer is an address that
   * occurs in the decoded path, with a protocol free of slashes; there is none only if no address occurs there.
   */
  method ParseIpAndPortString(path: string) returns (r: Result<Option<Endpoint>, Malformed>)
    ensures r == EndpointOf(path)
    ensures Decode(path).Err? ==> r == Err(Decode(path).error)
    ensures Decode(path).Ok? ==> r.Ok?
    ensures r.Ok? && r.value.Some? ==>
              && r.value.value.Proper() && '/' !in r.value.value.protocol
              && exists i :: OccursAt(Decode(path).value, i, r.value.value.Text())
    ensures r.Ok? && r.value.None? ==>
              forall x: Endpoint, i :: x.Proper() ==> !OccursAt(Decode(path).value, i, x.Text())
  {
    var decodePath := Decode(path);
    if decodePath.Err? {
      return Err(decodePath.error);
    }
    var decoded := decodePath.value;
    var matcher := Find(IP_PORT_PATTERN, decoded, 0);
    if matcher.None? {
      forall x: Endpoint, i | x.Proper()
        ensures !OccursAt(decoded, i, x.Text())
      {
        if OccursAt(decoded, i, x.Text()) {
          NothingMissed(decoded, x, i);
        }
      }
      return Ok(None);
    }
    var m := matcher.value;
    FoundInOrder(IP_PORT_PATTERN, decoded, 0);
    SixMarks();
    var n := FoundIsProper(decoded);
    return Ok(Some(Endpoint(decoded[m[0]..m[1]], decoded[m[2]..m[3]], decoded[m[4]..m[5]])));
  }

  function QueryOf(qs: string): Result<map<string, string>, Malformed>
  {
    match Decode(qs)
    case Err(e) => Err(e)
    case Ok(decoded) => Ok(if qs == "" then map[] else MapOf(Split(decoded, '&')))
  }

  /** A key gets the value of the last item of the decoded text that is a well-formed entry with that key. */
  method ParseQueryString(qs: string) returns (r: Result<map<string, string>, Malformed>)
    ensures r == QueryOf(qs)
    ensures Decode(qs).Err? ==> r == Err(Decode(qs).error)
    ensures Decode(qs).Ok? ==> r.Ok?
    ensures r.Ok? && qs == "" ==> r.value == map[]
    ensures r.Ok? && qs != "" ==> LastWins(r.value, Split(Decode(qs).value, '&'))
  {
    var decodePath := Decode(qs);
    if decodePath.Err? {
      return Err(decodePath.error);
    }
    if qs == "" {
      return Ok(map[]);
    }
    var pairs := ParseKeyValuePair(decodePath.value, '&');
    return Ok(pairs);
  }

  // ----- Metadata that does not look like an address -----

  /** Neither keys nor values look like an address. */
  predicate NoAddresses(entries: seq<Entry>)
  {
    forall i :: 0 <= i < |entries| ==> NoAddress(entries[i].key) && NoAddress(entries[i].value)
  }

  lemma {:induction false} GetNoAddress(entries: seq<Entry>, key: string)
    requires NoAddresses(entries)
    ensures NoAddress(Get(entries, key))
  {
    if entries != [] {
      GetNoAddress(entries[1..], key);
    }
  }

  lemma EntryTextNoAddress(e: Entry)
    requires NoAddress(e.key) && NoAddress(e.value)
    ensures NoAddress(EntryText(e))
  {
    NoneInConcat(['='], e.value);
    assert EntryText(e) == e.key + (['='] + e.value);
    NoneInConcat(e.key, ['='] + e.value);
  }

  lemma {:induction false} UrlParamNoAddress(entries: seq<Entry>)
    requires NoAddresses(entries)
    ensures NoAddress(UrlParam(entries))
  {
    if entries != [] {
      EntryTextNoAddress(entries[0]);
      if |entries| > 1 {
        UrlParamNoAddress(entries[1..]);
        NoneInConcat(['&'], UrlParam(entries[1..]));
        assert UrlParam(entries) == EntryText(entries[0]) + (['&'] + UrlParam(entries[1..]));
        NoneInConcat(EntryText(entries[0]), ['&'] + UrlParam(entries[1..]));
      }
    }
  }

  lemma TrailNoAddress(metaData: Metadata)
    requires NoAddresses(metaData)
    ensures NoAddress(Trail(metaData)) && Trail(metaData) != "" && Trail(metaData)[0] == '/'
  {
    var name, params := Get(metaData, INTERFACE_KEY), UrlParam(metaData);
    GetNoAddress(metaData, INTERFACE_KEY);
    UrlParamNoAddress(metaData);
    NoneInConcat("/", name);
    NoneInConcat(['?'], params);
    assert Trail(metaData) == ("/" + name) + (['?'] + params);
    NoneInConcat("/" + name, ['?'] + params);
  }

  // ----- The one address of a printed path -----

  /** Printed after a protocol, an address is where its colon is, and nowhere else. */
  lemma OnlyAddress(protocol: string, ip: Ip, port: string, trail: string, k: int)
    requires NoAddress(protocol) && ip.Valid()
    requires port != "" && '/' !in port && ':' !in port
    requires NoAddress(trail) && trail != "" && trail[0] == '/'
    ensures SchemeAt(protocol + ([':'] + ("//" + ip.Dotted() + [':'] + (port + trail))), k) <==> k == |protocol|
  {
    var after := "//" + ip.Dotted();
    var rest := port + trail;
    var s := protocol + ([':'] + (after + [':'] + rest));
    DottedPlain(ip);
    assert after + [':'] + rest == after + ([':'] + rest);
    assert forall i :: 0 <= i < |protocol| ==> s[i] == protocol[i];
    assert s[|protocol|] == ':' && s[|protocol| + 3] == ip.Dotted()[0];
    if k < |protocol| {
      NoAddressAt(protocol, k);
    } else if k > |protocol| {
      assert s == protocol + [':'] + (after + ([':'] + rest));
      NotInAuthority(protocol + [':'], after, port, trail, k);
    }
  }

  lemma NotInAuthority(before: string, after: string, port: string, trail: string, k: int)
    requires ':' !in after && port != "" && '/' !in port && ':' !in port
    requires NoAddress(trail) && trail != "" && trail[0] == '/'
    requires k >= |before|
    ensures !SchemeAt(before + (after + ([':'] + (port + trail))), k)
  {
    var rest := [':'] + (port + trail);
    if SchemeAt(before + (after + rest), k) {
      assert SchemeAt(after + rest, k - |before|);
      AtSplits(after, rest, k - |before|);
      var j := k - |before| - |after|;
      assert SchemeAt(rest, j);
      assert rest[1] == port[0];
      assert SchemeAt(port + trail, j - 1);
      AtSplits(port, trail, j - 1);
      NoAddressAt(trail, j - 1 - |port|);
    }
  }

  lemma ProvidersPathPlain(name: string)
    requires NoAddress(name)
    ensures NoAddress("/dubbo/" + name + "/provider")
  {
    NoneInConcat("/dubbo/", name);
    NoneInConcat("/dubbo/" + name, "/");
    NoneInConcat("/dubbo/" + name + "/", "provider");
    assert "/dubbo/" + name + "/provider" == "/dubbo/" + name + "/" + "provider";
  }

  /** A prefix without an address moves the address and adds none. */
  lemma AddressBehind(name: string, url: string, k: int)
    requires NoAddress(name)
    ensures var before := ProvidersPath(name) + ['/'];
            SchemeAt(before + url, k) <==> SchemeAt(url, k - |before|)
  {
    var first, before := "/dubbo/" + name + "/provider", ProvidersPath(name) + ['/'];
    var s := before + url;
    assert forall i :: |before| <= i < |s| ==> s[i] == url[i - |before|];
    if SchemeAt(s, k) {
      ProvidersPathPlain(name);
      assert s == first + ("s/" + url);
      AtSplits(first, "s/" + url, k);
      NoAddressAt(first, k);
      AtSplits("s/", url, k - |first|);
    }
  }

  // ----- The address comes back -----

  /** A printed path, decoded. */
  function Printed(name: string, protocol: string, ip: Ip, port: string, trail: string): string
  {
    ProvidersPath(name) + ['/'] + Url(protocol, ip, port, trail)
  }

  function Url(protocol: string, ip: Ip, port: string, trail: string): string
  {
    protocol + ([':'] + ("//" + ip.Dotted() + [':'] + (port + trail)))
  }

  predicate Prints(name: string, protocol: string, ip: Ip, port: string, trail: string)
  {
    && NoAddress(name) && NoAddress(protocol) && ip.Valid()
    && port != "" && '/' !in port && ':' !in port && (IsDigit(port[0]) ==> Number(port))
    && NoAddress(trail) && trail != "" && trail[0] == '/'
  }

  lemma PrintedHasOneAddress(name: string, protocol: string, ip: Ip, port: string, trail: string)
    requires Prints(name, protocol, ip, port, trail)
    ensures var s, q := Printed(name, protocol, ip, port, trail), |ProvidersPath(name)| + 1 + |protocol|;
            q + 3 < |s| && SchemeAt(s, q) && OneAddress(s, q)
  {
    hide SchemeAt;
    var before, url := ProvidersPath(name) + ['/'], Url(protocol, ip, port, trail);
    forall k: nat
      ensures SchemeAt(before + url, k) <==> k == |before| + |protocol|
    {
      AddressBehind(name, url, k);
      OnlyAddress(protocol, ip, port, trail, k - |before|);
    }
  }

  lemma PrintedBefore(name: string, protocol: string, ip: Ip, port: string, trail: string)
    ensures var s, p := Printed(name, protocol, ip, port, trail), |ProvidersPath(name)|;
            p + 1 + |protocol| <= |s| && s[p] == '/' && s[p + 1..p + 1 + |protocol|] == protocol
  {
    var s, p := Printed(name, protocol, ip, port, trail), |ProvidersPath(name)|;
    assert forall j :: p < j < p + 1 + |protocol| ==> s[j] == protocol[j - p - 1];
  }

  lemma PrintedAfter(name: string, protocol: string, ip: Ip, port: string, trail: string)
    requires Prints(name, protocol, ip, port, trail)
    ensures var s, i := Printed(name, protocol, ip, port, trail), |ProvidersPath(name)| + 4 + |protocol|;
            var e := i + |ip.Dotted()|;
            && e + 1 + |port| <= |s|
            && s[i..e] == ip.Dotted() && s[e + 1..e + 1 + |port|] == port
            && Match(IP, s, i) == if IsDigit(port[0]) then Some([i, e, e + 1, e + 1 + |port|]) else None
  {
    hide Match, Ip.Dotted;
    var before := ProvidersPath(name) + ['/'] + protocol + "://";
    var rest := ip.Dotted() + ([':'] + (port + trail));
    assert "//" + ip.Dotted() + [':'] + (port + trail) == "//" + rest;
    assert [':'] + ("//" + rest) == "://" + rest;
    assert ProvidersPath(name) + ['/'] + (protocol + ("://" + rest)) == before + rest;
    AuthorityMatches(before, ip, port, trail);
  }

  /** A protocol on one line and without slashes is found, with ip and port, if the port is a number. */
  lemma PrintedFound(name: string, protocol: string, ip: Ip, port: string, trail: string)
    requires Prints(name, protocol, ip, port, trail)
    ensures IsDigit(port[0]) && OneLine(protocol) && '/' !in protocol ==>
              FirstEndpoint(Printed(name, protocol, ip, port, trail)) == Some(Endpoint(protocol, ip.Dotted(), port))
    ensures !IsDigit(port[0]) ==> FirstEndpoint(Printed(name, protocol, ip, port, trail)).None?
  {
    hide Match, Find, Printed, OneAddress, SchemeAt, Ip.Dotted, ProvidersPath;
    var s, p := Printed(name, protocol, ip, port, trail), |ProvidersPath(name)|;
    var q := p + 1 + |protocol|;
    var e := q + 3 + |ip.Dotted()|;
    PrintedHasOneAddress(name, protocol, ip, port, trail);
    PrintedBefore(name, protocol, ip, port, trail);
    PrintedAfter(name, protocol, ip, port, trail);
    SchemeNeedsAddress(s, q);
    if !IsDigit(port[0]) {
      forall k | 0 <= k <= |s|
        ensures Match(SCHEME, s, k).None?
      {
        SchemeNeedsAddress(s, k);
        assert OneAddress(s, q);
        OneAddressAt(s, q, k);
      }
      NoSchemeNotFound(s);
    } else if OneLine(protocol) && '/' !in protocol {
      var b := LineStartExists(s, p);
      ProtocolOnLine(s, b, p, protocol);
      PatternFinds(s, b, p, q);
      assert [p + 1] + ([q] + [q + 3, e, e + 1, e + 1 + |port|]) == [p + 1, q, q + 3, e, e + 1, e + 1 + |port|];
    }
  }

  lemma OneAddressAt(s: string, q: nat, k: nat)
    requires OneAddress(s, q)
    ensures SchemeAt(s, k) ==> k == q
  {
  }

  lemma ProtocolOnLine(s: string, b: nat, p: nat, protocol: string)
    requires p + 1 + |protocol| <= |s| && s[p] == '/' && s[p + 1..p + 1 + |protocol|] == protocol
    requires LineStart(s, b, p) && OneLine(protocol) && '/' !in protocol
    ensures LineStart(s, b, p + 1 + |protocol|)
    ensures forall j :: p < j < p + 1 + |protocol| ==> s[j] != '/'
  {
    assert forall j :: p < j < p + 1 + |protocol| ==> s[j] == protocol[j - p - 1];
  }

  lemma DecimalPlain(port: int32)
    ensures var text := Decimal(port as int);
            && text != "" && '/' !in text && ':' !in text && '&' !in text
            && (IsDigit(text[0]) <==> port >= 0) && (port >= 0 ==> Number(text))
  {
  }

  lemma DecodedPath(metaData: Metadata, name: string, ip: string, port: int32)
    requires '%' !in name
    ensures Decode(FullPath(metaData, ProvidersPath(name), ip, port)) ==
            Ok(ProvidersPath(PlusToSpace(name)) + ['/'] + InstanceUrl(metaData, ip, port))
  {
    hide Decode, Encode, InstanceUrl;
    var before, url := ProvidersPath(name) + ['/'], InstanceUrl(metaData, ip, port);
    assert Decode("") == Ok("") by { DecodeEmpty(); }
    DecodeInverts(url, "");
    assert Encode(url) + "" == Encode(url) && url + "" == url;
    DecodePlain(before, Encode(url));
    SpacesInPath(name);
  }

  lemma DecodeEmpty()
    ensures Decode("") == Ok("")
  {
  }

  lemma SpacesInPath(name: string)
    ensures PlusToSpace(ProvidersPath(name) + ['/']) == ProvidersPath(PlusToSpace(name)) + ['/']
  {
    var before, after := ProvidersPath(name) + ['/'], ProvidersPath(PlusToSpace(name)) + ['/'];
    assert |before| == |after|;
    assert forall i :: 7 <= i < 7 + |name| ==> before[i] == name[i - 7] && after[i] == PlusToSpace(name)[i - 7];
    assert forall i :: 0 <= i < |before| && !(7 <= i < 7 + |name|) ==> before[i] == after[i] && before[i] != '+';
  }

  lemma SpacesNoAddress(name: string)
    requires NoAddress(name)
    ensures NoAddress(PlusToSpace(name))
  {
    forall k | 0 <= k < |name|
      ensures !SchemeAt(PlusToSpace(name), k)
    {
      NoAddressAt(name, k);
    }
  }

  /**
   * From the path printed for an instance, with nothing else in it that looks like an address, the protocol, the dotted
   * ip and the port come back if and only if the protocol is on one line and has no slash and the port is not negative;
   * for a negative port nothing comes back.
   */
  lemma EndpointRoundTrip(metaData: Metadata, name: string, ip: Ip, port: int32)
    requires '%' !in name && NoAddress(name) && NoAddresses(metaData) && ip.Valid()
    ensures var protocol := Get(metaData, PROTOCOL_KEY);
            EndpointOf(FullPath(metaData, ProvidersPath(name), ip.Dotted(), port)) ==
            Ok(Some(Endpoint(protocol, ip.Dotted(), Decimal(port as int)))) <==>
            port >= 0 && OneLine(protocol) && '/' !in protocol
    ensures port < 0 ==> EndpointOf(FullPath(metaData, ProvidersPath(name), ip.Dotted(), port)) == Ok(None)
  {
    hide Decode, FirstEndpoint, FullPath, PlusToSpace, Get, Decimal, Trail, InstanceUrl, Url, ProvidersPath, Ip.Dotted,
      IsDotted;
    var protocol, text, trail := Get(metaData, PROTOCOL_KEY), Decimal(port as int), Trail(metaData);
    DecodedPath(metaData, name, ip.Dotted(), port);
    SpacesNoAddress(name);
    GetNoAddress(metaData, PROTOCOL_KEY);
    DecimalPlain(port);
    TrailNoAddress(metaData);
    UrlIs(metaData, ip, port);
    PrintedFound(PlusToSpace(name), protocol, ip, text, trail);
    var decoded := Printed(PlusToSpace(name), protocol, ip, text, trail);
    if FirstEndpoint(decoded).Some? {
      var n := FoundIsProper(decoded);
    }
  }

  lemma UrlIs(metaData: Metadata, ip: Ip, port: int32)
    ensures InstanceUrl(metaData, ip.Dotted(), port) ==
            Url(Get(metaData, PROTOCOL_KEY), ip, Decimal(port as int), Trail(metaData))
  {
    var authority := Authority(ip.Dotted(), port, Trail(metaData));
    assert Get(metaData, PROTOCOL_KEY) + [':'] + authority == Get(metaData, PROTOCOL_KEY) + ([':'] + authority);
  }

  // ----- The metadata comes back -----

  lemma NoKeyValue(item: string)
    requires item != "" && item[0] == '/'
    ensures KeyValue(item).None?
  {
    hide KeyValue;
    if KeyValue(item).Some? {
      KeyValueParts(item);
      StartsWithKey(KeyValue(item).value);
    }
  }

  lemma StartsWithKey(e: Entry)
    requires Readable(e)
    ensures EntryText(e)[0] != '/'
  {
  }

  function Texts(entries: seq<Entry>): (texts: seq<string>)
    ensures |texts| == |entries|
    ensures forall i :: 0 <= i < |entries| ==> texts[i] == EntryText(entries[i])
  {
    if entries == [] then [] else [EntryText(entries[0])] + Texts(entries[1..])
  }

  /** No entry is split in two by the separator. */
  predicate Unsplit(entries: seq<Entry>)
  {
    forall e :: e in entries ==> '&' !in EntryText(e)
  }

  lemma {:induction false} PiecesOfParams(entries: seq<Entry>)
    requires entries != [] && Unsplit(entries)
    ensures Pieces(UrlParam(entries), '&') == Texts(entries)
  {
    assert entries[0] in entries;
    if |entries| == 1 {
      PiecesOfJoin(EntryText(entries[0]), "", '&');
    } else {
      PiecesOfJoin(EntryText(entries[0]), UrlParam(entries[1..]), '&');
      PiecesOfParams(entries[1..]);
    }
  }

  /** The items of a decoded path: what comes before the second entry, glued, and then one item an entry. */
  lemma ItemsOfPath(head: string, entries: seq<Entry>)
    requires head != "" && '&' !in head && Unsplit(entries)
    ensures Split(if entries == [] then head else head + ['&'] + UrlParam(entries), '&') == [head] + Texts(entries)
  {
    PiecesOfJoin(head, UrlParam(entries), '&');
    if entries != [] {
      PiecesOfParams(entries);
      var r := [head] + Texts(entries);
      assert r[|r| - 1] == EntryText(entries[|entries| - 1]);
      assert (head + ['&'] + UrlParam(entries))[|head|] == '&';
    }
  }

  /** The map holds the entries and nothing else. */
  predicate Holds(m: map<string, string>, entries: seq<Entry>)
  {
    && (forall e :: e in entries ==> e.key in m && m[e.key] == e.value)
    && (forall k :: k in m ==> exists e :: e in entries && e.key == k)
  }

  /** The entries that come back: readable, and not split. */
  predicate Recoverable(e: Entry)
  {
    Readable(e) && '&' !in e.value
  }

  lemma RecoverableUnsplit(e: Entry)
    requires Recoverable(e)
    ensures '&' !in EntryText(e)
  {
  }

  lemma {:induction false} ItemsMap(head: string, entries: seq<Entry>)
    requires head != "" && head[0] == '/' && DistinctKeys(entries)
    requires forall i :: 0 <= i < |entries| ==> Readable(entries[i])
    ensures Holds(MapOf([head] + Texts(entries)), entries)
  {
    hide KeyValue, EntryText, MapOf, Holds, Readable, Texts;
    if entries == [] {
      NoKeyValue(head);
      MapOfOne(head);
      NothingHeld();
    } else {
      var n := |entries| - 1;
      PrefixDistinct(entries);
      hide DistinctKeys;
      ItemsMap(head, entries[..n]);
      KeyValueOf(entries[n]);
      assert [head] + Texts(entries) == ([head] + Texts(entries[..n])) + [EntryText(entries[n])];
      MapOfMore([head] + Texts(entries[..n]), EntryText(entries[n]));
      OneMore(MapOf([head] + Texts(entries[..n])), entries);
    }
  }

  lemma PrefixDistinct(entries: seq<Entry>)
    requires entries != [] && DistinctKeys(entries)
    ensures DistinctKeys(entries[..|entries| - 1])
  {
  }

  lemma NothingHeld()
    ensures Holds(map[], [])
  {
  }

  lemma MapOfOne(item: string)
    requires KeyValue(item).None?
    ensures forall texts: seq<string> :: |texts| == 0 ==> MapOf([item] + texts) == map[]
  {
    forall texts: seq<string> | |texts| == 0
      ensures MapOf([item] + texts) == map[]
    {
      assert [item] + texts == [item] && [item][..0] == [];
    }
  }

  lemma MapOfMore(items: seq<string>, item: string)
    requires KeyValue(item).Some?
    ensures MapOf(items + [item]) == MapOf(items)[KeyValue(item).value.key := KeyValue(item).value.value]
  {
    assert (items + [item])[..|items|] == items;
  }

  lemma OneMore(m: map<string, string>, entries: seq<Entry>)
    requires entries != [] && DistinctKeys(entries) && Holds(m, entries[..|entries| - 1])
    ensures var last := entries[|entries| - 1]; Holds(m[last.key := last.value], entries)
  {
    var last, rest := entries[|entries| - 1], entries[..|entries| - 1];
    assert entries == rest + [last];
    forall e | e in rest
      ensures e.key != last.key
    {
      var i :| 0 <= i < |rest| && rest[i] == e;
    }
  }

  /** What is printed before the second entry. */
  function Glued(name: string, metaData: Metadata, ip: string, port: int32): string
  {
    ProvidersPath(name) + ['/'] + (Get(metaData, PROTOCOL_KEY) + [':']
    + ("//" + ip + [':'] + (Decimal(port as int) + ("/" + Get(metaData, INTERFACE_KEY) + ['?']
                                                    + (if metaData == [] then "" else EntryText(metaData[0]))))))
  }

  lemma PathIsGlued(name: string, metaData: Metadata, ip: string, port: int32)
    ensures ProvidersPath(name) + ['/'] + InstanceUrl(metaData, ip, port) ==
            if |metaData| <= 1 then Glued(name, metaData, ip, port)
            else Glued(name, metaData, ip, port) + ['&'] + UrlParam(metaData[1..])
  {
    if |metaData| > 1 {
      var protocol, authority := Get(metaData, PROTOCOL_KEY) + [':'], "//" + ip + [':'];
      var port, trail := Decimal(port as int), "/" + Get(metaData, INTERFACE_KEY) + ['?'];
      var first, more := EntryText(metaData[0]), UrlParam(metaData[1..]);
      var before := ProvidersPath(name) + ['/'];
      assert UrlParam(metaData) == first + ['&'] + more;
      assert Trail(metaData) == trail + (first + ['&'] + more);
      Regroup(before, protocol, authority, port, trail, first, more);
    }
  }

  lemma Regroup(before: string, protocol: string, authority: string, port: string, trail: string,
                first: string, more: string)
    ensures before + (protocol + (authority + (port + (trail + (first + ['&'] + more))))) ==
            before + (protocol + (authority + (port + (trail + first)))) + ['&'] + more
  {
    var rest := ['&'] + more;
    assert trail + (first + ['&'] + more) == (trail + first) + rest;
    var end := trail + first;
    assert port + (end + rest) == (port + end) + rest;
    assert authority + ((port + end) + rest) == (authority + (port + end)) + rest;
    assert protocol + ((authority + (port + end)) + rest) == (protocol + (authority + (port + end))) + rest;
  }

  /** Nothing that is printed before the second entry contains the separator. */
  predicate UnsplitHead(name: string, metaData: Metadata)
  {
    && '&' !in name && '&' !in Get(metaData, PROTOCOL_KEY) && '&' !in Get(metaData, INTERFACE_KEY)
    && (metaData != [] ==> '&' !in EntryText(metaData[0]))
  }

  lemma GluedPlain(name: string, metaData: Metadata, ip: Ip, port: int32)
    requires UnsplitHead(name, metaData) && ip.Valid()
    ensures var head := Glued(name, metaData, ip.Dotted(), port);
            head != "" && head[0] == '/' && '&' !in head
  {
    DecimalPlain(port);
    ProvidersPathShape(name);
    NoAmpersand(ip);
    hide Decimal, Get, ProvidersPath, Ip.Dotted, Ip.Valid, EntryText;
  }

  lemma NoAmpersand(ip: Ip)
    requires ip.Valid()
    ensures '&' !in ip.Dotted()
  {
    DottedPlain(ip);
  }

  lemma ProvidersPathShape(name: string)
    requires '&' !in name
    ensures ProvidersPath(name) != "" && ProvidersPath(name)[0] == '/' && '&' !in ProvidersPath(name)
  {
  }

  /** An entry that came back was an item by itself. */
  lemma HeldIsRecoverable(s: string, e: Entry)
    requires e.key in MapOf(Split(s, '&')) && MapOf(Split(s, '&'))[e.key] == e.value
    ensures Recoverable(e)
  {
    hide Readable, MapOf, Split;
    MapOfHolds(Split(s, '&'), e);
    var i :| LastGiven(Split(s, '&'), i, e);
    SplitHasNoSeparator(s, '&', i);
    assert e.value == EntryText(e)[|e.key| + 1..];
  }

  /**
   * From the path printed for an instance, the metadata entries come back, all except the one printed first, which
   * stays glued to the path, if and only if each has a well-formed key and a value on one line without a separator.
   */
  lemma QueryRoundTrip(metaData: Metadata, name: string, ip: Ip, port: int32)
    requires '%' !in name && UnsplitHead(name, metaData) && ip.Valid()
    ensures var r := QueryOf(FullPath(metaData, ProvidersPath(name), ip.Dotted(), port));
            var rest := if metaData == [] then [] else metaData[1..];
            && r.Ok?
            && (Holds(r.value, rest) <==> forall e :: e in rest ==> Recoverable(e))
            && (Holds(r.value, rest) && metaData != [] ==> metaData[0].key !in r.value)
  {
    hide Decode, InstanceUrl, Glued, MapOf, Split, UrlParam, Recoverable, EntryText, KeyValue, Get;
    var rest := if metaData == [] then [] else metaData[1..];
    var decoded := ProvidersPath(PlusToSpace(name)) + ['/'] + InstanceUrl(metaData, ip.Dotted(), port);
    DecodedPath(metaData, name, ip.Dotted(), port);
    assert FullPath(metaData, ProvidersPath(name), ip.Dotted(), port) != "";
    if forall e :: e in rest ==> Recoverable(e) {
      RecoverableHeld(metaData, PlusToSpace(name), ip, port);
    }
    if Holds(MapOf(Split(decoded, '&')), rest) {
      FirstIsNotHeld(MapOf(Split(decoded, '&')), metaData);
      forall e | e in rest
        ensures Recoverable(e)
      {
        HeldIsRecoverable(decoded, e);
      }
    }
  }

  lemma FirstIsNotHeld(m: map<string, string>, metaData: Metadata)
    requires metaData != [] ==> Holds(m, metaData[1..])
    ensures metaData != [] ==> metaData[0].key !in m
  {
  }

  lemma RecoverableHeld(metaData: Metadata, name: string, ip: Ip, port: int32)
    requires UnsplitHead(name, metaData) && ip.Valid()
    requires forall e :: e in (if metaData == [] then [] else metaData[1..]) ==> Recoverable(e)
    ensures Holds(MapOf(Split(ProvidersPath(name) + ['/'] + InstanceUrl(metaData, ip.Dotted(), port), '&')),
                  if metaData == [] then [] else metaData[1..])
  {
    hide InstanceUrl, Glued, MapOf, Split, UrlParam, EntryText, KeyValue, Get, Holds;
    var rest := if metaData == [] then [] else metaData[1..];
    var head := Glued(name, metaData, ip.Dotted(), port);
    PathIsGlued(name, metaData, ip.Dotted(), port);
    GluedPlain(name, metaData, ip, port);
    forall e | e in rest
      ensures Readable(e) && '&' !in EntryText(e)
    {
      assert Recoverable(e);
      RecoverableUnsplit(e);
    }
    ItemsOfPath(head, rest);
    ItemsMap(head, rest);
  }
}
