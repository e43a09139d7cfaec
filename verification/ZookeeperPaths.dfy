/** NacosSyncToZookeeperServiceImpl with the printer of StringUtils: the paths a pass leaves can be read back. */
module ZookeeperPaths {
  import opened Common
  import opened Tasks
  import opened Registry
  import opened IpPort
  import opened KeyValues
  import opened DubboUrl
  import opened UrlCode
  import opened NacosToZookeeper
  import opened Text
  import Regex

  const SOURCE_CLUSTERID_KEY := "sourceClusterId"
  const DEST_CLUSTERID_KEY := "destClusterId"
  const SYNC_SOURCE_KEY := "syncSource"

  /** Some order in which the metadata map iterates. */
  type Order = Registry.Metadata -> DubboUrl.Metadata

  /** A key of the map with its value: one of the three provenance keys, or any other. */
  predicate HasEntry(m: Registry.Metadata, e: Entry)
  {
    if e.key == SOURCE_CLUSTERID_KEY then m.sourceClusterId == Some(e.value)
    else if e.key == DEST_CLUSTERID_KEY then m.destClusterId == Some(e.value)
    else if e.key == SYNC_SOURCE_KEY then m.syncSource == Some(e.value)
    else e.key in m.other && m.other[e.key] == e.value
  }

  ghost predicate Iterates(order: Order)
  {
    forall m, e: Entry :: e in order(m) <==> HasEntry(m, e)
  }

  /** The entries of some keys, in ascending order of the keys. */
  function EntriesOf(m: map<string, string>, keys: seq<string>): seq<Entry>
    requires forall k :: k in keys ==> k in m
  {
    seq(|keys|, i requires 0 <= i < |keys| => Entry(keys[i], m[keys[i]]))
  }

  function AllEntries(m: Registry.Metadata): map<string, string>
  {
    var other := m.other - {SOURCE_CLUSTERID_KEY, DEST_CLUSTERID_KEY, SYNC_SOURCE_KEY};
    var source := if m.sourceClusterId.Some? then other[SOURCE_CLUSTERID_KEY := m.sourceClusterId.value] else other;
    var dest := if m.destClusterId.Some? then source[DEST_CLUSTERID_KEY := m.destClusterId.value] else source;
    if m.syncSource.Some? then dest[SYNC_SOURCE_KEY := m.syncSource.value] else dest
  }

  lemma AllEntriesAre(m: Registry.Metadata, e: Entry)
    ensures e.key in AllEntries(m) && AllEntries(m)[e.key] == e.value <==> HasEntry(m, e)
  {
    assert SOURCE_CLUSTERID_KEY[0] == 's' && DEST_CLUSTERID_KEY[0] == 'd' && |SYNC_SOURCE_KEY| != |SOURCE_CLUSTERID_KEY|;
  }

  /** One of the orders: by ascending keys. */
  function InKeyOrder(m: Registry.Metadata): DubboUrl.Metadata
  {
    var all := AllEntries(m);
    AscendingMembers(all.Keys);
    KeyOrderDistinct(all);
    EntriesOf(all, Ascending(all.Keys))
  }

  lemma KeyOrderDistinct(m: map<string, string>)
    requires forall k :: k in Ascending(m.Keys) ==> k in m
    ensures DistinctKeys(EntriesOf(m, Ascending(m.Keys)))
  {
    var keys := Ascending(m.Keys);
    forall i, j | 0 <= i < j < |keys|
      ensures keys[i] != keys[j]
    {
      AscendingSorted(m.Keys, i, j);
      BeforeIrreflexive(keys[i]);
    }
  }

  /** There is an order that iterates over every metadata map, so the results below are about something. */
  lemma OrderExists()
    ensures Iterates(InKeyOrder)
  {
    forall m, e: Entry
      ensures e in InKeyOrder(m) <==> HasEntry(m, e)
    {
      var all := AllEntries(m);
      AllEntriesAre(m, e);
      AscendingMembers(all.Keys);
      hide AllEntries, HasEntry, Ascending;
      var keys := Ascending(all.Keys);
      if e.key in all && all[e.key] == e.value {
        var i :| 0 <= i < |keys| && keys[i] == e.key;
        assert EntriesOf(all, keys)[i] == e;
      }
    }
  }

  /** What is printed for an instance: its metadata with the tags of the task. */
  function Printed(order: Order, i: Instance, task: Task, sourceType: string): DubboUrl.Metadata
  {
    order(Tagged(i.metadata, task, sourceType))
  }

  /** convertDubboProvidersPath and convertDubboFullPathForZk, as buildSyncInstance calls them. */
  function DubboPrinter(order: Order, sourceType: string): Printer
  {
    Printer((i: Instance) => ProvidersPath(Get(order(i.metadata), INTERFACE_KEY)),
            (path, i: Instance, task) => FullPath(Printed(order, i, task, sourceType), path, i.ip, i.port))
  }

  // ----- Metadata lookups do not depend on the order -----

  function ValueOr(m: map<string, string>, key: string): string
  {
    if key in m then m[key] else "null"
  }

  lemma {:induction false} GetEntry(entries: seq<Entry>, e: Entry)
    requires DistinctKeys(entries) && e in entries
    ensures Get(entries, e.key) == e.value
  {
    if entries[0] != e {
      assert e in entries[1..];
      GetEntry(entries[1..], e);
    }
  }

  lemma {:induction false} GetMissing(entries: seq<Entry>, key: string)
    requires forall e :: e in entries ==> e.key != key
    ensures Get(entries, key) == "null"
  {
    if entries != [] {
      GetMissing(entries[1..], key);
    }
  }

  lemma GetFromMap(order: Order, m: Registry.Metadata, key: string)
    requires Iterates(order)
    requires key != SOURCE_CLUSTERID_KEY && key != DEST_CLUSTERID_KEY && key != SYNC_SOURCE_KEY
    ensures Get(order(m), key) == ValueOr(m.other, key)
  {
    if key in m.other {
      assert HasEntry(m, Entry(key, m.other[key]));
      GetEntry(order(m), Entry(key, m.other[key]));
    } else {
      forall e | e in order(m)
        ensures e.key != key
      {
        assert HasEntry(m, e);
      }
      GetMissing(order(m), key);
    }
  }

  lemma KeysDiffer()
    ensures PROTOCOL_KEY !in {SOURCE_CLUSTERID_KEY, DEST_CLUSTERID_KEY, SYNC_SOURCE_KEY}
    ensures INTERFACE_KEY !in {SOURCE_CLUSTERID_KEY, DEST_CLUSTERID_KEY, SYNC_SOURCE_KEY}
  {
    assert PROTOCOL_KEY[0] == 'p' && INTERFACE_KEY[0] == 'i';
    assert SOURCE_CLUSTERID_KEY[0] == 's' && DEST_CLUSTERID_KEY[0] == 'd' && SYNC_SOURCE_KEY[0] == 's';
  }

  // ----- What is printed for an instance -----

  /** The entries printed are the instance's own, but for the three provenance keys, which the task gives. */
  lemma PrintedIs(order: Order, i: Instance, task: Task, sourceType: string, e: Entry)
    requires Iterates(order)
    ensures e in Printed(order, i, task, sourceType) <==>
            || e == Entry("sourceClusterId", task.sourceClusterId) || e == Entry("destClusterId", task.destClusterId)
            || e == Entry("syncSource", sourceType)
            || (e.key != "sourceClusterId" && e.key != "destClusterId" && e.key != "syncSource"
                && e.key in i.metadata.other && i.metadata.other[e.key] == e.value)
  {
    assert SOURCE_CLUSTERID_KEY[0] == 's' && DEST_CLUSTERID_KEY[0] == 'd' && |SYNC_SOURCE_KEY| != |SOURCE_CLUSTERID_KEY|;
    assert HasEntry(Tagged(i.metadata, task, sourceType), e) <==> e in order(Tagged(i.metadata, task, sourceType));
  }

  /** The interface that the metadata names. */
  function InterfaceOf(i: Instance): string
  {
    ValueOr(i.metadata.other, INTERFACE_KEY)
  }

  /** A service path is below the root of Dubbo and names the interface of the instance it was made from. */
  lemma ServicePathText(order: Order, sourceType: string, i: Instance)
    requires Iterates(order)
    ensures DubboPrinter(order, sourceType).servicePath(i) == ProvidersPath(InterfaceOf(i))
    ensures ProvidersPath(InterfaceOf(i)) == "/dubbo/" + InterfaceOf(i) + "/providers"
    ensures InterfaceOf(i) == if "interface" in i.metadata.other then i.metadata.other["interface"] else "null"
  {
    KeysDiffer();
    GetFromMap(order, i.metadata, INTERFACE_KEY);
  }

  /** The node of an instance is one segment below the service path; decoded, it is the URL of that instance. */
  lemma NodeText(order: Order, i: Instance, task: Task, sourceType: string, path: string) returns (segment: string)
    requires Iterates(order)
    ensures DubboPrinter(order, sourceType).fullPath(path, i, task) == path + "/" + segment && '/' !in segment
    ensures var other := i.metadata.other;
            var protocol := if "protocol" in other then other["protocol"] else "null";
            var name := if "interface" in other then other["interface"] else "null";
            Decode(segment) == Ok(protocol + "://" + i.ip + ":" + Decimal(i.port as int) + "/" + name + "?"
                                  + UrlParam(Printed(order, i, task, sourceType)))
  {
    hide FullPath, Decode, UrlParam, Get, Decimal;
    KeysDiffer();
    var tagged := Tagged(i.metadata, task, sourceType);
    GetFromMap(order, tagged, INTERFACE_KEY);
    GetFromMap(order, tagged, PROTOCOL_KEY);
    segment := FullPathIs(Printed(order, i, task, sourceType), path, i.ip, i.port);
  }

  // ----- Result -----

  /** What a reader gets back from the path of an instance. */
  ghost predicate ReadsBack(q: string, printed: DubboUrl.Metadata, protocol: string, i: Instance)
  {
    && EndpointOf(q) == Ok(Some(Endpoint(protocol, i.ip, Decimal(i.port as int))))
    && QueryOf(q).Ok? && Holds(QueryOf(q).value, if printed == [] then [] else printed[1..])
  }

  /**
   * After any run of passes, a pass leaves for every untagged instance a node that is one segment below the service path,
   * which names the interface of the first untagged instance the task has seen; the segment encodes the instance's URL.
   */
  lemma PathsPlaced(order: Order, sourceType: string, run: seq<Action>, list: seq<Instance>, task: Task, i: Instance)
    returns (q: string, n: nat, j: nat, segment: string)
    requires Iterates(order) && i in list && NeedSync(i.metadata)
    ensures FirstSeen(run + [RunPass(task, list)], task.taskId, n, j)
    ensures var p, first := DubboPrinter(order, sourceType), (run + [RunPass(task, list)])[n].list[j];
            var s := Pass(p, After(p, INITIAL, run), list, task);
            && task.taskId in s.backup && q in s.backup[task.taskId] && q in s.nodes
            && task.taskId in s.monitor && s.monitor[task.taskId] == "/dubbo/" + InterfaceOf(first) + "/providers"
            && q == p.fullPath(s.monitor[task.taskId], i, task)
            && q == s.monitor[task.taskId] + "/" + segment && '/' !in segment
    ensures var other := i.metadata.other;
            var protocol := if "protocol" in other then other["protocol"] else "null";
            var name := if "interface" in other then other["interface"] else "null";
            Decode(segment) == Ok(protocol + "://" + i.ip + ":" + Decimal(i.port as int) + "/" + name + "?"
                                  + UrlParam(Printed(order, i, task, sourceType)))
  {
    hide NeedSync, DubboPrinter, Printed, FullPath, ProvidersPath, InterfaceOf, Decode, UrlParam, Decimal;
    var p, full := DubboPrinter(order, sourceType), run + [RunPass(task, list)];
    var before := After(p, INITIAL, run);
    AfterLast(p, INITIAL, run, RunPass(task, list));
    n, j := ServicePathOverRuns(p, full, task.taskId);
    assert Sees(full[|run|], task.taskId);
    ServicePathText(order, sourceType, full[n].list[j]);
    NacosToZookeeper.PassMirrorsSource(p, run, list, task);
    NewUrlsArePrinted(p, before, list, task, i);
    var k :| 0 <= k < |list| && list[k] == i;
    var path := Pass(p, before, list, task).monitor[task.taskId];
    q := p.fullPath(path, i, task);
    segment := NodeText(order, i, task, sourceType, path);
  }

  /**
   * The path of an instance with a dotted ip gives back its protocol, ip and port, and all of its tagged metadata but the
   * entry printed first, if and only if the protocol is on one line without a slash, the port is not negative, and those
   * entries have well-formed keys and values on one line without a separator. This is for names and metadata that look
   * like no address and do not split what is printed first.
   */
  lemma PathsReadBack(order: Order, sourceType: string, run: seq<Action>, list: seq<Instance>, task: Task,
                      i: Instance, ip: Ip) returns (q: string, n: nat, j: nat)
    requires Iterates(order) && i in list && NeedSync(i.metadata) && ip.Valid() && i.ip == ip.Dotted()
    ensures FirstSeen(run + [RunPass(task, list)], task.taskId, n, j)
    ensures var p, name := DubboPrinter(order, sourceType), InterfaceOf((run + [RunPass(task, list)])[n].list[j]);
            var s := Pass(p, After(p, INITIAL, run), list, task);
            && task.taskId in s.backup && q in s.backup[task.taskId] && q in s.nodes
            && task.taskId in s.monitor && s.monitor[task.taskId] == ProvidersPath(name)
            && q == FullPath(Printed(order, i, task, sourceType), ProvidersPath(name), i.ip, i.port)
    ensures var name := InterfaceOf((run + [RunPass(task, list)])[n].list[j]);
            var printed, protocol := Printed(order, i, task, sourceType), ValueOr(i.metadata.other, PROTOCOL_KEY);
            '%' !in name && NoAddress(name) && NoAddresses(printed) && UnsplitHead(name, printed) ==>
              (ReadsBack(q, printed, protocol, i) <==>
               && i.port >= 0 && Regex.OneLine(protocol) && '/' !in protocol
               && forall e :: e in (if printed == [] then [] else printed[1..]) ==> Recoverable(e))
  {
    hide NeedSync, Printed, FullPath, ProvidersPath, InterfaceOf, ReadsBack, NoAddress, NoAddresses, UnsplitHead,
      Recoverable, Pass, Decode;
    var segment;
    q, n, j, segment := PathsPlaced(order, sourceType, run, list, task, i);
    ServicePathText(order, sourceType, (run + [RunPass(task, list)])[n].list[j]);
    PathReadsBack(order, sourceType, task, i, ip, InterfaceOf((run + [RunPass(task, list)])[n].list[j]));
  }

  lemma PathReadsBack(order: Order, sourceType: string, task: Task, i: Instance, ip: Ip, name: string)
    requires Iterates(order) && ip.Valid() && i.ip == ip.Dotted()
    ensures var printed, protocol := Printed(order, i, task, sourceType), ValueOr(i.metadata.other, PROTOCOL_KEY);
            var q := FullPath(printed, ProvidersPath(name), i.ip, i.port);
            '%' !in name && NoAddress(name) && NoAddresses(printed) && UnsplitHead(name, printed) ==>
              (ReadsBack(q, printed, protocol, i) <==>
               && i.port >= 0 && Regex.OneLine(protocol) && '/' !in protocol
               && forall e :: e in (if printed == [] then [] else printed[1..]) ==> Recoverable(e))
  {
    hide EndpointOf, QueryOf, Holds, FullPath, Get, Recoverable, UnsplitHead, Ip.Dotted, ProvidersPath;
    var printed := Printed(order, i, task, sourceType);
    KeysDiffer();
    GetFromMap(order, Tagged(i.metadata, task, sourceType), PROTOCOL_KEY);
    if '%' !in name && NoAddress(name) && NoAddresses(printed) && UnsplitHead(name, printed) {
      EndpointRoundTrip(printed, name, ip, i.port);
      QueryRoundTrip(printed, name, ip, i.port);
    }
  }
}
