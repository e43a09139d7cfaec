/** NacosSyncToNacosServiceImpl: one pass of a task over the source and destination clusters. */
module NacosToNacos {
  import opened Common
  import opened Tasks
  import opened Registry

  function BuildSyncInstance(instance: Instance, task: Task, sourceType: string): (copy: Instance)
    ensures copy.At() == instance.At() && NeedDelete(copy.metadata, task)
  {
    instance.(metadata := Tagged(instance.metadata, task, sourceType))
  }

  // ----- What a pass is for -----

  /** The copies the destination should hold. */
  function Wanted(source: Instances, task: Task, sourceType: string): Instances
  {
    map a | a in source && NeedSync(source[a].metadata) :: BuildSyncInstance(source[a], task, sourceType)
  }

  /** The copies the destination holds without a source. */
  function Orphans(wanted: Instances, dest: Instances, task: Task): set<Address>
  {
    set a | a in dest && NeedDelete(dest[a].metadata, task) && a !in wanted
  }

  function Pass(source: Instances, dest: Instances, task: Task, sourceType: string): Instances
  {
    var wanted := Wanted(source, task, sourceType);
    (dest - Orphans(wanted, dest, task)) + wanted
  }

  function Delete(dest: Instances, task: Task): Instances
  {
    map a | a in dest && !NeedDelete(dest[a].metadata, task) :: dest[a]
  }

  /** The addresses the task accounts for in the destination. */
  function TaggedIn(dest: Instances, task: Task): set<Address>
  {
    set a | a in dest && NeedDelete(dest[a].metadata, task)
  }

  /**
   * After a pass the task's copies are exactly the untagged source instances, each as it is there but for the three
   * provenance tags, and all else is as it was.
   */
  lemma PassMirrorsSource(source: Instances, dest: Instances, task: Task, sourceType: string)
    ensures var after := Pass(source, dest, task, sourceType);
            forall a :: a in after && after[a].metadata.sourceClusterId == Some(task.sourceClusterId) <==>
              a in source && (source[a].metadata.sourceClusterId.None? || IsBlank(source[a].metadata.sourceClusterId.value))
    ensures var after := Pass(source, dest, task, sourceType);
            forall a :: a in after && after[a].metadata.sourceClusterId == Some(task.sourceClusterId) ==>
              && after[a].(metadata := source[a].metadata) == source[a]
              && Marked(after[a].metadata, source[a].metadata, task, sourceType)
    ensures var after := Pass(source, dest, task, sourceType);
            forall a :: a !in TaggedIn(dest, task) && a !in TaggedIn(after, task) ==>
              (a in after <==> a in dest) && (a in dest ==> after[a] == dest[a])
    ensures forall m: Instances, a :: a in TaggedIn(m, task) <==>
              a in m && m[a].metadata.sourceClusterId == Some(task.sourceClusterId)
  {
    hide IsBlank;
  }

  /** A second pass over an unchanged source changes nothing. */
  lemma PassIdempotent(source: Instances, dest: Instances, task: Task, sourceType: string)
    ensures var after := Pass(source, dest, task, sourceType);
            Pass(source, after, task, sourceType) == after
  {
    var wanted, after := Wanted(source, task, sourceType), Pass(source, dest, task, sourceType);
    assert Orphans(wanted, after, task) == {};
    assert after + wanted == after;
  }

  /** Deleting the task after a pass leaves what was there without the task, except what the pass overwrote. */
  lemma DeleteUndoesPass(source: Instances, dest: Instances, task: Task, sourceType: string)
    ensures Delete(Pass(source, dest, task, sourceType), task) ==
            Delete(dest, task) - Wanted(source, task, sourceType).Keys
    ensures TaggedIn(Delete(Pass(source, dest, task, sourceType), task), task) == {}
    ensures forall m: Instances, a :: a in Delete(m, task) <==>
              a in m && m[a].metadata.sourceClusterId != Some(task.sourceClusterId)
    ensures forall m: Instances, a :: a in Delete(m, task) ==> Delete(m, task)[a] == m[a]
  {
  }

  /** What a pass leaves at one address. */
  lemma PassAt(source: Instances, dest: Instances, task: Task, sourceType: string, a: Address)
    ensures var wanted, after := Wanted(source, task, sourceType), Pass(source, dest, task, sourceType);
            && (a in after <==> a in wanted || (a in dest && !NeedDelete(dest[a].metadata, task)))
            && (a in after ==> after[a] == if a in wanted then wanted[a] else dest[a])
  {
  }

  /** Tasks from different sources, copying different addresses into one cluster, do not disturb each other. */
  lemma PassesCommute(source: Instances, task: Task, type1: string, source': Instances, task': Task, type2: string,
                      dest: Instances)
    requires task.sourceClusterId != task'.sourceClusterId
    requires Wanted(source, task, type1).Keys !! Wanted(source', task', type2).Keys
    ensures Pass(source, Pass(source', dest, task', type2), task, type1) ==
            Pass(source', Pass(source, dest, task, type1), task', type2)
  {
    var one := Pass(source, Pass(source', dest, task', type2), task, type1);
    var two := Pass(source', Pass(source, dest, task, type1), task', type2);
    forall a: Address
      ensures (a in one <==> a in two) && (a in one ==> one[a] == two[a])
    {
      PassAt(source', dest, task', type2, a);
      PassAt(source, Pass(source', dest, task', type2), task, type1, a);
      PassAt(source, dest, task, type1, a);
      PassAt(source', Pass(source, dest, task, type1), task', type2, a);
    }
  }

  // ----- The pass as the listener runs it -----

  /** No instance that was there and is still wanted is missing, and foreign instances are as they were. */
  ghost predicate NothingLost(wanted: Instances, dest: Instances, task: Task, content: Instances)
  {
    forall a :: a in dest && a !in Orphans(wanted, dest, task) ==>
      a in content && (a !in wanted ==> content[a] == dest[a])
  }

  ghost predicate Lists(list: seq<Instance>, content: Instances)
  {
    forall i :: i in list <==> i.At() in content && content[i.At()] == i
  }

  /** The part of the wanted copies registered so far. */
  ghost predicate PartOf(part: Instances, wanted: Instances)
  {
    forall a :: a in part ==> a in wanted && part[a] == wanted[a]
  }

  lemma ListedIsWanted(list: seq<Instance>, sources: Instances, task: Task, sourceType: string, n: nat)
    requires Lists(list, sources) && n < |list| && NeedSync(list[n].metadata)
    ensures var wanted := Wanted(sources, task, sourceType);
            list[n].At() in wanted && wanted[list[n].At()] == BuildSyncInstance(list[n], task, sourceType)
  {
    assert list[n] in list;
  }

  lemma AllRegistered(list: seq<Instance>, sources: Instances, task: Task, sourceType: string, part: Instances)
    requires Keyed(sources) && Lists(list, sources) && PartOf(part, Wanted(sources, task, sourceType))
    requires forall k :: 0 <= k < |list| && NeedSync(list[k].metadata) ==> list[k].At() in part
    ensures part == Wanted(sources, task, sourceType)
  {
    forall a | a in Wanted(sources, task, sourceType) ensures a in part {
      assert sources[a] in list;
    }
  }

  lemma RegisteringLosesNothing(wanted: Instances, part: Instances, start: Instances, task: Task)
    requires PartOf(part, wanted)
    ensures NothingLost(wanted, start, task, start + part)
  {
  }

  lemma DeregisteringLosesNothing(wanted: Instances, start: Instances, task: Task, gone: set<Address>)
    requires gone <= Orphans(wanted, start, task)
    ensures NothingLost(wanted, start, task, (start + wanted) - gone)
  {
  }

  class NacosSyncToNacos {
    constructor () {}

    /** The listener's reaction to a naming event: register the eligible, then deregister the orphans. */
    method OnNamingEvent(source: NamingService, dest: NamingService, task: Task, sourceType: string)
      requires source.Valid() && dest.Valid()
      modifies dest
      ensures dest.Valid()
      ensures dest.instances == Pass(old(source.instances), old(dest.instances), task, sourceType)
      ensures old(dest.history) <= dest.history
      ensures forall n :: |old(dest.history)| <= n < |dest.history| ==>
                NothingLost(Wanted(old(source.instances), task, sourceType), old(dest.instances), task, dest.history[n])
    {
      hide Wanted, NothingLost;
      ghost var wanted := Wanted(source.instances, task, sourceType);
      ghost var start := dest.instances;
      var sourceInstances := source.GetAllInstances();
      var instanceKeySet := RegisterEligible(sourceInstances, source.instances, dest, task, sourceType);
      DeregisterOrphans(dest, task, wanted, start, instanceKeySet);
      assert (start + wanted) - Orphans(wanted, start, task) == (start - Orphans(wanted, start, task)) + wanted;
    }

    method RegisterEligible(sourceInstances: seq<Instance>, ghost sources: Instances, dest: NamingService, task: Task,
                            sourceType: string) returns (instanceKeySet: set<string>)
      requires dest.Valid() && Keyed(sources) && Lists(sourceInstances, sources)
      modifies dest
      ensures dest.Valid()
      ensures dest.instances == old(dest.instances) + Wanted(sources, task, sourceType)
      ensures instanceKeySet == KeysOf(Wanted(sources, task, sourceType).Keys)
      ensures old(dest.history) <= dest.history
      ensures forall n :: |old(dest.history)| <= n < |dest.history| ==>
                NothingLost(Wanted(sources, task, sourceType), old(dest.instances), task, dest.history[n])
    {
      hide NeedSync, NeedDelete, ComposeInstanceKey, NothingLost, Wanted;
      ghost var wanted, start := Wanted(sources, task, sourceType), dest.instances;
      ghost var part: Instances := map[];
      instanceKeySet := {};
      for n := 0 to |sourceInstances|
        invariant dest.Valid() && dest.instances == start + part
        invariant PartOf(part, wanted) && instanceKeySet == KeysOf(part.Keys)
        invariant forall k :: 0 <= k < n && NeedSync(sourceInstances[k].metadata) ==> sourceInstances[k].At() in part
        invariant old(dest.history) <= dest.history
        invariant forall h :: |old(dest.history)| <= h < |dest.history| ==>
                    NothingLost(wanted, start, task, dest.history[h])
      {
        var instance := sourceInstances[n];
        if NeedSync(instance.metadata) {
          var copy := BuildSyncInstance(instance, task, sourceType);
          ListedIsWanted(sourceInstances, sources, task, sourceType, n);
          KeysOfInsert(part.Keys, instance.At());
          assert part[instance.At() := copy].Keys == part.Keys + {instance.At()};
          MergeInsert(start, part, instance.At(), copy);
          part := part[instance.At() := copy];
          RegisteringLosesNothing(wanted, part, start, task);
          dest.RegisterInstance(copy);
          instanceKeySet := instanceKeySet + {ComposeInstanceKey(instance.At())};
        }
      }
      AllRegistered(sourceInstances, sources, task, sourceType, part);
    }

    method DeregisterOrphans(dest: NamingService, task: Task, ghost wanted: Instances, ghost start: Instances,
                             instanceKeySet: set<string>)
      requires dest.Valid() && dest.instances == start + wanted && instanceKeySet == KeysOf(wanted.Keys)
      modifies dest
      ensures dest.Valid()
      ensures dest.instances == (start + wanted) - Orphans(wanted, start, task)
      ensures old(dest.history) <= dest.history
      ensures forall n :: |old(dest.history)| <= n < |dest.history| ==>
                NothingLost(wanted, start, task, dest.history[n])
    {
      hide NeedDelete, ComposeInstanceKey, NothingLost;
      ghost var orphans := Orphans(wanted, start, task);
      ghost var gone: set<Address> := {};
      var destInstances := dest.GetAllInstances();
      for n := 0 to |destInstances|
        invariant dest.Valid() && dest.instances == (start + wanted) - gone
        invariant gone <= orphans
        invariant forall k :: 0 <= k < n && destInstances[k].At() in orphans ==> destInstances[k].At() in gone
        invariant old(dest.history) <= dest.history
        invariant forall h :: |old(dest.history)| <= h < |dest.history| ==>
                    NothingLost(wanted, start, task, dest.history[h])
      {
        var instance := destInstances[n];
        assert instance in destInstances;
        KeysOfMember(wanted.Keys, instance.At());
        if NeedDelete(instance.metadata, task) && ComposeInstanceKey(instance.At()) !in instanceKeySet {
          gone := gone + {instance.At()};
          DeregisteringLosesNothing(wanted, start, task, gone);
          dest.DeregisterInstance(instance.ip, instance.port);
          assert dest.instances == (start + wanted) - gone;
        }
      }
      forall a | a in orphans ensures a in gone {
        assert (start + wanted)[a] in destInstances;
      }
    }

    /** delete: drop every copy the task made. */
    method DeleteTask(dest: NamingService, task: Task)
      requires dest.Valid()
      modifies dest
      ensures dest.Valid() && dest.instances == Delete(old(dest.instances), task)
      ensures dest.instances == old(dest.instances) - TaggedIn(old(dest.instances), task)
    {
      ghost var start := dest.instances;
      ghost var gone: set<Address> := {};
      var instances := dest.GetAllInstances();
      for n := 0 to |instances|
        invariant dest.Valid() && dest.instances == start - gone
        invariant gone <= TaggedIn(start, task)
        invariant forall k :: 0 <= k < n && NeedDelete(instances[k].metadata, task) ==> instances[k].At() in gone
      {
        assert instances[n] in instances;
        if NeedDelete(instances[n].metadata, task) {
          gone := gone + {instances[n].At()};
          dest.DeregisterInstance(instances[n].ip, instances[n].port);
          assert dest.instances == start - gone;
        }
      }
      forall a | a in TaggedIn(start, task) ensures a in gone {
        assert start[a] in instances;
      }
    }
  }
}
