/** Service instances, the provenance tags the workers put on their copies, and the registries that hold them. */
module Registry {
  import opened Common
  import opened Text
  import opened Tasks

  datatype Address = Address(ip: string, port: int32)

  /** An instance's metadata map: the three keys the workers write, and every other entry. */
  datatype Metadata = Metadata(sourceClusterId: Option<string>, destClusterId: Option<string>,
                               syncSource: Option<string>, other: map<string, string>)

  /** A Nacos instance. */
  datatype Instance = Instance(ip: string, port: int32, clusterName: string, serviceName: string,
                               enabled: bool, healthy: bool, weight: real, metadata: Metadata)
  {
    function At(): Address
    {
      Address(ip, port)
    }
  }

  datatype InstanceStatus = UP | DOWN | STARTING | OUT_OF_SERVICE | UNKNOWN

  /** A Eureka instance. */
  datatype InstanceInfo = InstanceInfo(id: string, appName: string, ip: string, port: int32,
                                       instanceStatus: InstanceStatus, metadata: Metadata)
  {
    function At(): Address
    {
      Address(ip, port)
    }
  }

  // ----- Keys -----

  function ComposeInstanceKey(a: Address): string
  {
    a.ip + ":" + Decimal(a.port as int)
  }

  lemma LastColonFirst(s: string, t: string, p: string, q: string)
    requires ':' !in p && s + ":" + p == t + ":" + q
    ensures |t| <= |s|
  {
    var key := s + ":" + p;
    assert key[|t|] == ':';
    assert p == key[|s| + 1..];
  }

  /** What follows the last colon of a key is its port. */
  lemma PortSplitsOff(s: string, t: string, p: string, q: string)
    requires ':' !in p && ':' !in q && s + ":" + p == t + ":" + q
    ensures s == t && p == q
  {
    LastColonFirst(s, t, p, q);
    LastColonFirst(t, s, q, p);
    var key := s + ":" + p;
    assert s == key[..|s|] && t == key[..|t|];
    assert p == key[|s| + 1..] && q == key[|t| + 1..];
  }

  lemma ComposeInstanceKeyInjective(a: Address, b: Address)
    requires ComposeInstanceKey(a) == ComposeInstanceKey(b)
    ensures a == b
  {
    PortSplitsOff(a.ip, b.ip, Decimal(a.port as int), Decimal(b.port as int));
    DecimalInjective(a.port as int, b.port as int);
  }

  // ----- Provenance (SyncService) -----

  /** Character.isWhitespace */
  predicate IsWhitespace(c: char)
  {
    || '\t' <= c <= '\r' || '\U{1C}' <= c <= ' ' || c == '\U{1680}'
    || ('\U{2000}' <= c <= '\U{200A}' && c != '\U{2007}')
    || c == '\U{2028}' || c == '\U{2029}' || c == '\U{205F}' || c == '\U{3000}'
  }

  predicate IsBlank(s: string)
  {
    forall c :: c in s ==> IsWhitespace(c)
  }

  /** The instance does not come from another cluster. */
  predicate NeedSync(metadata: Metadata)
  {
    metadata.sourceClusterId.None? || IsBlank(metadata.sourceClusterId.value)
  }

  /** The instance was copied from the task's source cluster. */
  predicate NeedDelete(metadata: Metadata, task: Task)
  {
    metadata.sourceClusterId == Some(task.sourceClusterId)
  }

  /**
   * The white space of Character.isWhitespace, by code points: the separators of Unicode without the three that do not
   * break a line, and nine control characters. An instance without a source id, or with one of nothing else, is copied.
   */
  lemma ProvenanceIs(metadata: Metadata, task: Task, c: char)
    ensures IsWhitespace(c) <==>
            c as int in {9, 10, 11, 12, 13, 28, 29, 30, 31, 32, 0x1680, 0x2000, 0x2001, 0x2002, 0x2003, 0x2004, 0x2005,
                         0x2006, 0x2008, 0x2009, 0x200A, 0x2028, 0x2029, 0x205F, 0x3000}
    ensures NeedSync(metadata) <==>
            (metadata.sourceClusterId.Some? ==>
               forall i :: 0 <= i < |metadata.sourceClusterId.value| ==> IsWhitespace(metadata.sourceClusterId.value[i]))
    ensures NeedDelete(metadata, task) <==>
            metadata.sourceClusterId.Some? && metadata.sourceClusterId.value == task.sourceClusterId
  {
  }

  function Tagged(metadata: Metadata, task: Task, sourceType: string): (m: Metadata)
    ensures m.sourceClusterId == Some(task.sourceClusterId) && m.destClusterId == Some(task.destClusterId)
    ensures m.syncSource == Some(sourceType) && m.other == metadata.other
    ensures NeedDelete(m, task) && (NeedSync(m) <==> IsBlank(task.sourceClusterId))
  {
    metadata.(destClusterId := Some(task.destClusterId), syncSource := Some(sourceType),
              sourceClusterId := Some(task.sourceClusterId))
  }

  /** Metadata of a copy: the original's, with the three provenance tags of the task. */
  ghost predicate Marked(copy: Metadata, original: Metadata, task: Task, sourceType: string)
  {
    && copy.sourceClusterId == Some(task.sourceClusterId) && copy.destClusterId == Some(task.destClusterId)
    && copy.syncSource == Some(sourceType) && copy.other == original.other
  }

  // ----- The registries -----

  type Instances = map<Address, Instance>

  type Infos = map<string, InstanceInfo>

  lemma MergeInsert<K, V>(m: map<K, V>, n: map<K, V>, k: K, v: V)
    ensures (m + n)[k := v] == m + n[k := v]
  {
  }

  predicate Keyed(m: Instances)
  {
    forall a :: a in m ==> m[a].At() == a
  }

  predicate KeyedById(m: Infos)
  {
    forall id :: id in m ==> m[id].id == id
  }

  /** The composed keys of some addresses. */
  function KeysOf(addresses: set<Address>): set<string>
  {
    set a | a in addresses :: ComposeInstanceKey(a)
  }

  lemma KeysOfMember(addresses: set<Address>, a: Address)
    ensures ComposeInstanceKey(a) in KeysOf(addresses) <==> a in addresses
  {
    if ComposeInstanceKey(a) in KeysOf(addresses) {
      var b :| b in addresses && ComposeInstanceKey(b) == ComposeInstanceKey(a);
      ComposeInstanceKeyInjective(a, b);
    }
  }

  lemma KeysOfInsert(addresses: set<Address>, a: Address)
    ensures KeysOf(addresses + {a}) == KeysOf(addresses) + {ComposeInstanceKey(a)}
  {
  }

  /** NamingService: the instances of one service in one Nacos cluster, with every content it has had. */
  class NamingService {
    var instances: Instances
    ghost var history: seq<Instances>

    ghost predicate Valid()
      reads this
    {
      Keyed(instances)
    }

    constructor ()
      ensures Valid() && instances == map[] && history == []
    {
      instances := map[];
      history := [];
    }

    method GetAllInstances() returns (list: seq<Instance>)
      requires Valid()
      ensures forall i :: i in list <==> i.At() in instances && instances[i.At()] == i
    {
      list := [];
      var keys := instances.Keys;
      while keys != {}
        invariant keys <= instances.Keys
        invariant forall i :: i in list <==> i.At() in instances.Keys - keys && instances[i.At()] == i
        decreases keys
      {
        var a :| a in keys;
        keys := keys - {a};
        list := list + [instances[a]];
      }
    }

    method RegisterInstance(instance: Instance)
      requires Valid()
      modifies this
      ensures Valid()
      ensures instances == old(instances)[instance.At() := instance]
      ensures history == old(history) + [instances]
    {
      instances := instances[instance.At() := instance];
      history := history + [instances];
    }

    method DeregisterInstance(ip: string, port: int32)
      requires Valid()
      modifies this
      ensures Valid()
      ensures instances == old(instances) - {Address(ip, port)}
      ensures history == old(history) + [instances]
    {
      instances := instances - {Address(ip, port)};
      history := history + [instances];
    }
  }

  /** EurekaNamingService: the instances of one application, with every content it has had. */
  class EurekaNamingService {
    var instances: Infos
    ghost var history: seq<Infos>

    ghost predicate Valid()
      reads this
    {
      KeyedById(instances)
    }

    constructor ()
      ensures Valid() && instances == map[] && history == []
    {
      instances := map[];
      history := [];
    }

    /** Nothing when the response is not successful. */
    method GetApplications(responds: bool) returns (list: Option<seq<InstanceInfo>>)
      requires Valid()
      ensures list.Some? <==> responds
      ensures list.Some? ==> forall i :: i in list.value <==> i.id in instances && instances[i.id] == i
    {
      if !responds {
        return None;
      }
      var infos: seq<InstanceInfo> := [];
      var keys := instances.Keys;
      while keys != {}
        invariant keys <= instances.Keys
        invariant forall i :: i in infos <==> i.id in instances.Keys - keys && instances[i.id] == i
        decreases keys
      {
        var id :| id in keys;
        keys := keys - {id};
        infos := infos + [instances[id]];
      }
      return Some(infos);
    }

    method RegisterInstance(instance: InstanceInfo)
      requires Valid()
      modifies this
      ensures Valid()
      ensures instances == old(instances)[instance.id := instance]
      ensures history == old(history) + [instances]
    {
      instances := instances[instance.id := instance];
      history := history + [instances];
    }

    method DeregisterInstance(instance: InstanceInfo)
      requires Valid()
      modifies this
      ensures Valid()
      ensures instances == old(instances) - {instance.id}
      ensures history == old(history) + [instances]
    {
      instances := instances - {instance.id};
      history := history + [instances];
    }
  }
}
