/** NacosSyncToEurekaServiceImpl: one pass of a task; only healthy instances are copied, and Eureka keys them by id. */
module NacosToEureka {
  import opened Common
  import opened Text
  import opened Tasks
  import opened Registry

  predicate Eligible(instance: Instance)
  {
    NeedSync(instance.metadata) && instance.healthy
  }

  function InstanceId(a: Address, serviceName: string): string
  {
    a.ip + ":" + serviceName + ":" + Decimal(a.port as int)
  }

  lemma InstanceIdInjective(a: Address, b: Address, serviceName: string)
    requires InstanceId(a, serviceName) == InstanceId(b, serviceName)
    ensures a == b
  {
    PortSplitsOff(a.ip + ":" + serviceName, b.ip + ":" + serviceName, Decimal(a.port as int), Decimal(b.port as int));
    DecimalInjective(a.port as int, b.port as int);
    assert |a.ip| == |b.ip|;
    assert a.ip == (a.ip + ":" + serviceName)[..|a.ip|] && b.ip == (b.ip + ":" + serviceName)[..|b.ip|];
  }

  function BuildSyncInstance(instance: Instance, task: Task, sourceType: string): (copy: InstanceInfo)
    ensures copy.At() == instance.At() && NeedDelete(copy.metadata, task)
    ensures copy.id == InstanceId(instance.At(), task.serviceName) && copy.instanceStatus == UP
  {
    InstanceInfo(instance.ip + ":" + task.serviceName + ":" + Decimal(instance.port as int), task.serviceName,
                 instance.ip, instance.port, UP, Tagged(instance.metadata, task, sourceType))
  }

  // ----- What a pass is for -----

  function EligibleIn(source: Instances): set<Address>
  {
    set a | a in source && Eligible(source[a])
  }

  /** Copies of some source instances, under their Eureka ids. */
  function Copies(addresses: set<Address>, source: Instances, task: Task, sourceType: string): Infos
    requires addresses <= source.Keys
  {
    assert forall a, b :: InstanceId(a, task.serviceName) == InstanceId(b, task.serviceName) ==> a == b by {
      forall a, b | InstanceId(a, task.serviceName) == InstanceId(b, task.serviceName) ensures a == b {
        InstanceIdInjective(a, b, task.serviceName);
      }
    }
    map a | a in addresses :: InstanceId(a, task.serviceName) := BuildSyncInstance(source[a], task, sourceType)
  }

  /** The task's copies whose address is no longer eligible. */
  function Orphans(eligible: set<Address>, dest: Infos, task: Task): set<string>
  {
    set id | id in dest && NeedDelete(dest[id].metadata, task) && dest[id].At() !in eligible
  }

  /** When the application list cannot be read after registering, nothing is deregistered. */
  function Pass(source: Instances, dest: Infos, task: Task, sourceType: string, responds: bool): Infos
  {
    var registered := dest + Copies(EligibleIn(source), source, task, sourceType);
    if responds then registered - Orphans(EligibleIn(source), registered, task) else registered
  }

  function Delete(dest: Infos, task: Task, responds: bool): Infos
  {
    map id | id in dest && !(responds && NeedDelete(dest[id].metadata, task)) :: dest[id]
  }

  /** The addresses the task accounts for in the destination. */
  function TaggedIn(dest: Infos, task: Task): set<Address>
  {
    set id | id in dest && NeedDelete(dest[id].metadata, task) :: dest[id].At()
  }

  lemma CopyAt(source: Instances, task: Task, sourceType: string, a: Address)
    requires a in source && Keyed(source)
    ensures Eligible(source[a]) ==>
              var id, copies := InstanceId(a, task.serviceName), Copies(EligibleIn(source), source, task, sourceType);
              id in copies && copies[id] == BuildSyncInstance(source[a], task, sourceType) && copies[id].At() == a
  {
    forall b | InstanceId(b, task.serviceName) == InstanceId(a, task.serviceName) ensures a == b {
      InstanceIdInjective(a, b, task.serviceName);
    }
  }

  /**
   * After a pass the addresses of the task's copies are exactly those of the untagged healthy source instances. Each has
   * its copy, under its ip, the service's name and its port, up and with its metadata but for the three provenance tags.
   */
  lemma PassMirrorsSource(source: Instances, dest: Infos, task: Task, sourceType: string)
    requires Keyed(source)
    ensures TaggedIn(Pass(source, dest, task, sourceType, true), task) == EligibleIn(source)
    ensures forall a :: a in EligibleIn(source) <==>
              a in source && source[a].healthy
              && (source[a].metadata.sourceClusterId.None? || IsBlank(source[a].metadata.sourceClusterId.value))
    ensures forall a :: a in EligibleIn(source) ==>
              var id, after := a.ip + ":" + task.serviceName + ":" + Decimal(a.port as int),
                               Pass(source, dest, task, sourceType, true);
              && id in after && after[id].id == id && after[id].appName == task.serviceName
              && after[id].ip == a.ip && after[id].port == a.port && after[id].instanceStatus == UP
              && Marked(after[id].metadata, source[a].metadata, task, sourceType)
  {
    hide IsBlank, Decimal;
    var after := Pass(source, dest, task, sourceType, true);
    forall a | a in EligibleIn(source)
      ensures InstanceId(a, task.serviceName) in after
      ensures after[InstanceId(a, task.serviceName)] == BuildSyncInstance(source[a], task, sourceType)
      ensures a in TaggedIn(after, task)
    {
      CopyAt(source, task, sourceType, a);
      assert after[InstanceId(a, task.serviceName)].At() == a;
    }
  }

  /** Without a response from Eureka a pass only adds: what was there stays, or is written over by a copy. */
  lemma PassWithoutResponse(source: Instances, dest: Infos, task: Task, sourceType: string)
    requires Keyed(source)
    ensures var after := Pass(source, dest, task, sourceType, false);
            && (forall a :: a in EligibleIn(source) ==>
                  var id := InstanceId(a, task.serviceName);
                  id in after && after[id] == BuildSyncInstance(source[a], task, sourceType))
            && (forall id :: id in dest ==> id in after)
            && (forall id :: id in after && (id in dest ==> after[id] != dest[id]) ==>
                  exists a :: a in EligibleIn(source) && id == InstanceId(a, task.serviceName))
    ensures Delete(dest, task, false) == dest
  {
    forall a | a in EligibleIn(source)
      ensures var id, after := InstanceId(a, task.serviceName), Pass(source, dest, task, sourceType, false);
              id in after && after[id] == BuildSyncInstance(source[a], task, sourceType)
    {
      CopyAt(source, task, sourceType, a);
    }
  }

  /** Whatever the pass does not overwrite and the task does not account for is as it was. */
  lemma PassSparesForeign(source: Instances, dest: Infos, task: Task, sourceType: string, responds: bool, id: string)
    requires forall a :: a in EligibleIn(source) ==> id != InstanceId(a, task.serviceName)
    requires id in dest ==> !NeedDelete(dest[id].metadata, task)
    ensures var after := Pass(source, dest, task, sourceType, responds);
            (id in after <==> id in dest) && (id in dest ==> after[id] == dest[id])
  {
  }

  lemma CopiesSurvivePass(source: Instances, dest: Infos, task: Task, sourceType: string, responds: bool, id: string)
    requires Keyed(source) && id in Copies(EligibleIn(source), source, task, sourceType)
    ensures var after := Pass(source, dest, task, sourceType, responds);
            id in after && after[id] == Copies(EligibleIn(source), source, task, sourceType)[id]
            && after[id].At() in EligibleIn(source)
  {
    var a :| a in EligibleIn(source) && id == InstanceId(a, task.serviceName);
    CopyAt(source, task, sourceType, a);
  }

  /** A second pass over an unchanged source changes nothing. */
  lemma PassIdempotent(source: Instances, dest: Infos, task: Task, sourceType: string, responds: bool)
    requires Keyed(source)
    ensures var after := Pass(source, dest, task, sourceType, responds);
            Pass(source, after, task, sourceType, responds) == after
  {
    var after := Pass(source, dest, task, sourceType, responds);
    var copies := Copies(EligibleIn(source), source, task, sourceType);
    forall id | id in copies ensures id in after && after[id] == copies[id] {
      CopiesSurvivePass(source, dest, task, sourceType, responds, id);
    }
    assert after + copies == after;
    if responds {
      OrphansGone(source, dest, task, sourceType);
      assert after - {} == after;
    }
  }

  lemma OrphansGone(source: Instances, dest: Infos, task: Task, sourceType: string)
    ensures Orphans(EligibleIn(source), Pass(source, dest, task, sourceType, true), task) == {}
  {
  }

  /**
   * Deleting after a pass leaves, whatever the pass could read itself, exactly the entries the task had no part in: those
   * that were there without its tag and that no copy was written over.
   */
  lemma DeleteUndoesPass(source: Instances, dest: Infos, task: Task, sourceType: string, responds: bool)
    ensures TaggedIn(Delete(Pass(source, dest, task, sourceType, responds), task, true), task) == {}
    ensures var left := Delete(Pass(source, dest, task, sourceType, responds), task, true);
            && (forall id :: id in left <==>
                  && id in dest && dest[id].metadata.sourceClusterId != Some(task.sourceClusterId)
                  && forall a :: a in EligibleIn(source) ==> id != InstanceId(a, task.serviceName))
            && (forall id :: id in left ==> left[id] == dest[id])
  {
    forall id
      ensures var left := Delete(Pass(source, dest, task, sourceType, responds), task, true);
              && (id in left <==> id in dest && !NeedDelete(dest[id].metadata, task)
                                  && id !in Copies(EligibleIn(source), source, task, sourceType))
              && (id in left ==> left[id] == dest[id] && !NeedDelete(left[id].metadata, task))
    {
      LeftAt(source, dest, task, sourceType, responds, id);
    }
    hide Pass, Delete;
  }

  lemma LeftAt(source: Instances, dest: Infos, task: Task, sourceType: string, responds: bool, id: string)
    ensures var left := Delete(Pass(source, dest, task, sourceType, responds), task, true);
            && (id in left <==> id in dest && !NeedDelete(dest[id].metadata, task)
                                && id !in Copies(EligibleIn(source), source, task, sourceType))
            && (id in left ==> left[id] == dest[id] && !NeedDelete(left[id].metadata, task))
  {
    var copies := Copies(EligibleIn(source), source, task, sourceType);
    assert id in copies ==> NeedDelete(copies[id].metadata, task);
    hide Copies, EligibleIn, InstanceInfo.At;
  }

  // ----- The pass as the listener runs it -----

  /** No entry that was there is missing unless it is an orphan copy, and all but rewritten copies are as they were. */
  ghost predicate NothingLost(copies: Infos, eligible: set<Address>, dest: Infos, task: Task, content: Infos)
  {
    forall id :: id in dest && id !in Orphans(eligible, dest, task) ==>
      id in content && (id !in copies ==> content[id] == dest[id])
  }

  /** The part of the copies registered so far. */
  ghost predicate Registering(copies: Infos, dest: Infos, content: Infos)
  {
    forall id :: id in dest ==> id in content && (id !in copies ==> content[id] == dest[id])
  }

  ghost predicate Lists(list: seq<Instance>, content: Instances)
  {
    forall i :: i in list <==> i.At() in content && content[i.At()] == i
  }

  class NacosSyncToEureka {
    constructor () {}

    method OnNamingEvent(source: NamingService, dest: EurekaNamingService, task: Task, sourceType: string,
                         responds: bool)
      requires source.Valid() && dest.Valid()
      modifies dest
      ensures dest.Valid()
      ensures dest.instances == Pass(source.instances, old(dest.instances), task, sourceType, responds)
      ensures old(dest.history) <= dest.history
      ensures forall n :: |old(dest.history)| <= n < |dest.history| ==>
                NothingLost(Copies(EligibleIn(source.instances), source.instances, task, sourceType),
                            EligibleIn(source.instances), old(dest.instances), task, dest.history[n])
    {
      ghost var start := dest.instances;
      ghost var copies := Copies(EligibleIn(source.instances), source.instances, task, sourceType);
      CopiesEligible(source.instances, task, sourceType);
      hide Copies, EligibleIn;
      var sourceInstances := source.GetAllInstances();
      var instanceKeySet := RegisterEligible(sourceInstances, source.instances, dest, task, sourceType);
      var allInstances := dest.GetApplications(responds);
      if allInstances.Some? {
        DeregisterOrphans(allInstances.value, dest, task, copies, EligibleIn(source.instances), start, instanceKeySet);
      }
    }

    method RegisterEligible(sourceInstances: seq<Instance>, ghost sources: Instances, dest: EurekaNamingService,
                            task: Task, sourceType: string) returns (instanceKeySet: set<string>)
      requires dest.Valid() && Keyed(sources) && Lists(sourceInstances, sources)
      modifies dest
      ensures dest.Valid()
      ensures dest.instances == old(dest.instances) + Copies(EligibleIn(sources), sources, task, sourceType)
      ensures instanceKeySet == KeysOf(EligibleIn(sources))
      ensures old(dest.history) <= dest.history
      ensures forall n :: |old(dest.history)| <= n < |dest.history| ==>
                Registering(Copies(EligibleIn(sources), sources, task, sourceType), old(dest.instances),
                            dest.history[n])
    {
      hide NeedDelete, IsBlank, ComposeInstanceKey, InstanceId, Copies;
      ghost var start := dest.instances;
      ghost var part: set<Address> := {};
      ghost var copies := Copies(EligibleIn(sources), sources, task, sourceType);
      NothingCopied(sources, task, sourceType);
      assert start + map[] == start;
      instanceKeySet := {};
      for n := 0 to |sourceInstances|
        invariant dest.Valid() && part <= EligibleIn(sources)
        invariant dest.instances == start + Copies(part, sources, task, sourceType)
        invariant instanceKeySet == KeysOf(part)
        invariant forall k :: 0 <= k < n && Eligible(sourceInstances[k]) ==> sourceInstances[k].At() in part
        invariant old(dest.history) <= dest.history
        invariant forall h :: |old(dest.history)| <= h < |dest.history| ==> Registering(copies, start, dest.history[h])
      {
        var instance := sourceInstances[n];
        assert instance in sourceInstances;
        if NeedSync(instance.metadata) && instance.healthy {
          KeysOfInsert(part, instance.At());
          CopiesInsert(part, sources, task, sourceType, instance.At());
          MergeInsert(start, Copies(part, sources, task, sourceType), InstanceId(instance.At(), task.serviceName),
                      BuildSyncInstance(instance, task, sourceType));
          part := part + {instance.At()};
          PartRegistering(part, sources, task, sourceType, start);
          dest.RegisterInstance(BuildSyncInstance(instance, task, sourceType));
          instanceKeySet := instanceKeySet + {ComposeInstanceKey(instance.At())};
        }
      }
      forall a | a in EligibleIn(sources) ensures a in part {
        assert sources[a] in sourceInstances;
      }
      assert part == EligibleIn(sources);
    }

    static lemma NothingCopied(source: Instances, task: Task, sourceType: string)
      ensures Copies({}, source, task, sourceType) == map[]
    {
    }

    static lemma PartRegistering(part: set<Address>, source: Instances, task: Task, sourceType: string, start: Infos)
      requires part <= EligibleIn(source)
      ensures Registering(Copies(EligibleIn(source), source, task, sourceType), start,
                          start + Copies(part, source, task, sourceType))
    {
    }

    static lemma DeregisteringLosesNothing(copies: Infos, eligible: set<Address>, start: Infos, task: Task,
                                           gone: set<string>)
      requires forall id :: id in copies ==> copies[id].At() in eligible
      requires gone <= Orphans(eligible, start + copies, task)
      ensures NothingLost(copies, eligible, start, task, (start + copies) - gone)
    {
      hide NeedDelete;
    }

    static lemma CopiesEligible(source: Instances, task: Task, sourceType: string)
      requires Keyed(source)
      ensures var copies := Copies(EligibleIn(source), source, task, sourceType);
              forall id :: id in copies ==> copies[id].At() in EligibleIn(source)
    {
      var copies := Copies(EligibleIn(source), source, task, sourceType);
      forall id | id in copies
        ensures copies[id].At() in EligibleIn(source)
      {
        var a :| a in EligibleIn(source) && id == InstanceId(a, task.serviceName);
        CopyAt(source, task, sourceType, a);
      }
    }

    static lemma CopiesInsert(part: set<Address>, source: Instances, task: Task, sourceType: string, a: Address)
      requires part <= source.Keys && a in source
      ensures Copies(part + {a}, source, task, sourceType) ==
              Copies(part, source, task, sourceType)
                [InstanceId(a, task.serviceName) := BuildSyncInstance(source[a], task, sourceType)]
    {
      forall b | InstanceId(b, task.serviceName) == InstanceId(a, task.serviceName) ensures a == b {
        InstanceIdInjective(a, b, task.serviceName);
      }
    }

    method DeregisterOrphans(allInstances: seq<InstanceInfo>, dest: EurekaNamingService, task: Task,
                             ghost copies: Infos, ghost eligible: set<Address>, ghost start: Infos,
                             instanceKeySet: set<string>)
      requires dest.Valid() && instanceKeySet == KeysOf(eligible)
      requires forall i :: i in allInstances <==> i.id in dest.instances && dest.instances[i.id] == i
      requires dest.instances == start + copies && forall id :: id in copies ==> copies[id].At() in eligible
      modifies dest
      ensures dest.Valid()
      ensures dest.instances == old(dest.instances) - Orphans(eligible, old(dest.instances), task)
      ensures old(dest.history) <= dest.history
      ensures forall n :: |old(dest.history)| <= n < |dest.history| ==>
                NothingLost(copies, eligible, start, task, dest.history[n])
    {
      hide NothingLost, NeedDelete, ComposeInstanceKey;
      ghost var registered := dest.instances;
      ghost var orphans := Orphans(eligible, registered, task);
      ghost var gone: set<string> := {};
      for n := 0 to |allInstances|
        invariant dest.Valid() && dest.instances == registered - gone
        invariant gone <= orphans
        invariant forall k :: 0 <= k < n && allInstances[k].id in orphans ==> allInstances[k].id in gone
        invariant old(dest.history) <= dest.history
        invariant forall h :: |old(dest.history)| <= h < |dest.history| ==>
                    NothingLost(copies, eligible, start, task, dest.history[h])
      {
        var instance := allInstances[n];
        assert instance in allInstances;
        KeysOfMember(eligible, instance.At());
        if NeedDelete(instance.metadata, task) && ComposeInstanceKey(instance.At()) !in instanceKeySet {
          gone := gone + {instance.id};
          DeregisteringLosesNothing(copies, eligible, start, task, gone);
          dest.DeregisterInstance(instance);
          assert dest.instances == registered - gone;
        }
      }
      forall id | id in orphans ensures id in gone {
        assert registered[id] in allInstances;
      }
      assert gone == orphans;
    }

    method DeleteTask(dest: EurekaNamingService, task: Task, responds: bool)
      requires dest.Valid()
      modifies dest
      ensures dest.Valid() && dest.instances == Delete(old(dest.instances), task, responds)
      ensures forall id :: id in dest.instances <==>
                id in old(dest.instances)
                && !(responds && old(dest.instances)[id].metadata.sourceClusterId == Some(task.sourceClusterId))
    {
      ghost var start := dest.instances;
      var allInstances := dest.GetApplications(responds);
      if allInstances.None? {
        return;
      }
      ghost var gone: set<string> := {};
      for n := 0 to |allInstances.value|
        invariant dest.Valid() && dest.instances == start - gone
        invariant forall id :: id in gone ==> id in start && NeedDelete(start[id].metadata, task)
        invariant forall k :: 0 <= k < n && NeedDelete(allInstances.value[k].metadata, task) ==>
                    allInstances.value[k].id in gone
      {
        var instance := allInstances.value[n];
        assert instance in allInstances.value;
        if NeedDelete(instance.metadata, task) {
          gone := gone + {instance.id};
          dest.DeregisterInstance(instance);
          assert dest.instances == start - gone;
        }
      }
      forall id | id in start && NeedDelete(start[id].metadata, task) ensures id in gone {
        assert start[id] in allInstances.value;
      }
    }
  }
}
