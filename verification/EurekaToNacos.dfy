/** EurekaSyncToNacosServiceImpl: one pass removes what is no longer up in Eureka, then registers what is. */
module EurekaToNacos {
  import opened Common
  import opened Tasks
  import opened Registry

  predicate Eligible(instance: InstanceInfo)
  {
    NeedSync(instance.metadata) && instance.instanceStatus == UP
  }

  /** What Nacos gives an instance for which only address, service and health are set. */
  function BuildSyncInstance(instance: InstanceInfo, task: Task, sourceType: string): (copy: Instance)
    ensures copy.At() == instance.At() && NeedDelete(copy.metadata, task) && copy.healthy
  {
    Instance(instance.ip, instance.port, "", instance.appName, true, true, 1.0,
             Tagged(instance.metadata, task, sourceType))
  }

  predicate IsExistInEurekaInstance(eureka: seq<InstanceInfo>, instance: Instance)
  {
    exists i :: i in eureka && i.ip == instance.ip && i.port == instance.port && i.instanceStatus == UP
  }

  // ----- What a pass is for -----

  /** The addresses of the untagged instances that are up. */
  function EligibleIn(eureka: seq<InstanceInfo>): set<Address>
  {
    set i | i in eureka && Eligible(i) :: i.At()
  }

  /** The addresses of the instances that are up, wherever they come from. */
  function UpIn(eureka: seq<InstanceInfo>): set<Address>
  {
    set i | i in eureka && i.instanceStatus == UP :: i.At()
  }

  function TaggedIn(nacos: Instances, task: Task): set<Address>
  {
    set a | a in nacos && NeedDelete(nacos[a].metadata, task)
  }

  /** Copies registered in list order: the last of several instances at one address stays. */
  function Copies(eureka: seq<InstanceInfo>, task: Task, sourceType: string): Instances
  {
    if eureka == [] then map[]
    else
      var i := eureka[|eureka| - 1];
      var rest := Copies(eureka[..|eureka| - 1], task, sourceType);
      if Eligible(i) then rest[i.At() := BuildSyncInstance(i, task, sourceType)] else rest
  }

  function Pass(eureka: seq<InstanceInfo>, nacos: Instances, task: Task, sourceType: string): Instances
  {
    (nacos - (TaggedIn(nacos, task) - UpIn(eureka))) + Copies(eureka, task, sourceType)
  }

  function Delete(nacos: Instances, task: Task): Instances
  {
    nacos - TaggedIn(nacos, task)
  }

  lemma {:induction false} CopiesOf(eureka: seq<InstanceInfo>, task: Task, sourceType: string)
    ensures Copies(eureka, task, sourceType).Keys == EligibleIn(eureka)
    ensures forall a :: a in Copies(eureka, task, sourceType) ==>
              exists i :: i in eureka && Eligible(i) && i.At() == a
                          && Copies(eureka, task, sourceType)[a] == BuildSyncInstance(i, task, sourceType)
  {
    if eureka != [] {
      var last, rest := eureka[|eureka| - 1], eureka[..|eureka| - 1];
      CopiesOf(rest, task, sourceType);
      assert eureka == rest + [last];
      var copies := Copies(eureka, task, sourceType);
      forall a | a in copies
        ensures exists i :: i in eureka && Eligible(i) && i.At() == a
                            && copies[a] == BuildSyncInstance(i, task, sourceType)
      {
        if Eligible(last) && a == last.At() {
          assert last in eureka;
        } else {
          var i :| i in rest && Eligible(i) && i.At() == a
                   && Copies(rest, task, sourceType)[a] == BuildSyncInstance(i, task, sourceType);
          assert i in eureka;
        }
      }
      assert EligibleIn(eureka) == EligibleIn(rest) + (if Eligible(last) then {last.At()} else {});
    }
  }

  /** An address is eligible, or up, by some instance of the list; the task's copies are those with its source id. */
  lemma AddressesAre(eureka: seq<InstanceInfo>, nacos: Instances, task: Task, a: Address)
    ensures a in UpIn(eureka) <==> exists k :: 0 <= k < |eureka| && eureka[k].At() == a && eureka[k].instanceStatus == UP
    ensures a in EligibleIn(eureka) <==>
            exists k :: 0 <= k < |eureka| && eureka[k].At() == a && eureka[k].instanceStatus == UP
                        && (eureka[k].metadata.sourceClusterId.None? || IsBlank(eureka[k].metadata.sourceClusterId.value))
    ensures a in TaggedIn(nacos, task) <==> a in nacos && nacos[a].metadata.sourceClusterId == Some(task.sourceClusterId)
    ensures a in Delete(nacos, task) <==> a in nacos && nacos[a].metadata.sourceClusterId != Some(task.sourceClusterId)
    ensures a in Delete(nacos, task) ==> Delete(nacos, task)[a] == nacos[a]
  {
    hide IsBlank;
    forall k | 0 <= k < |eureka| && eureka[k].instanceStatus == UP
      ensures eureka[k].At() in UpIn(eureka)
      ensures Eligible(eureka[k]) ==> eureka[k].At() in EligibleIn(eureka)
    {
      assert eureka[k] in eureka;
    }
  }

  /** The copy at an eligible address stems from the last eligible instance there. */
  lemma {:induction false} CopiesLast(eureka: seq<InstanceInfo>, task: Task, sourceType: string, a: Address)
    returns (k: nat)
    requires a in EligibleIn(eureka)
    ensures k < |eureka| && eureka[k].At() == a && Eligible(eureka[k])
    ensures forall j :: k < j < |eureka| && eureka[j].At() == a ==> !Eligible(eureka[j])
    ensures var copies := Copies(eureka, task, sourceType);
            a in copies && copies[a] == BuildSyncInstance(eureka[k], task, sourceType)
  {
    k := |eureka| - 1;
    var rest := eureka[..k];
    assert eureka == rest + [eureka[k]];
    if !(Eligible(eureka[k]) && eureka[k].At() == a) {
      k := CopiesLast(rest, task, sourceType, a);
    }
  }

  /**
   * After a pass an eligible address holds a copy of the last eligible instance there: under the application's name, in
   * the default cluster, enabled, healthy, of weight one, with its metadata but for the three provenance tags.
   */
  lemma PassCopies(eureka: seq<InstanceInfo>, nacos: Instances, task: Task, sourceType: string, a: Address)
    returns (k: nat)
    requires a in EligibleIn(eureka)
    ensures k < |eureka| && eureka[k].At() == a && Eligible(eureka[k])
    ensures forall j :: k < j < |eureka| && eureka[j].At() == a ==> !Eligible(eureka[j])
    ensures var after := Pass(eureka, nacos, task, sourceType);
            && a in after && after[a].ip == eureka[k].ip && after[a].port == eureka[k].port
            && after[a].serviceName == eureka[k].appName && after[a].clusterName == ""
            && after[a].enabled && after[a].healthy && after[a].weight == 1.0
            && Marked(after[a].metadata, eureka[k].metadata, task, sourceType)
  {
    k := CopiesLast(eureka, task, sourceType, a);
  }

  /**
   * The task's copies after a pass: every eligible address, and beyond those exactly the addresses that already
   * carried a copy and are up in Eureka under a foreign tag.
   */
  lemma PassBounds(eureka: seq<InstanceInfo>, nacos: Instances, task: Task, sourceType: string)
    ensures var after := TaggedIn(Pass(eureka, nacos, task, sourceType), task);
            && EligibleIn(eureka) <= after
            && after == EligibleIn(eureka) + TaggedIn(nacos, task) * UpIn(eureka)
  {
    CopiesOf(eureka, task, sourceType);
    var copies, after := Copies(eureka, task, sourceType), Pass(eureka, nacos, task, sourceType);
    assert forall a :: a in copies ==> NeedDelete(copies[a].metadata, task);
    forall a
      ensures a in TaggedIn(after, task) <==> a in EligibleIn(eureka) + TaggedIn(nacos, task) * UpIn(eureka)
    {
    }
  }

  /** The pass is the plain reconcile, with copies at eligible addresses only, exactly when no such leftover exists. */
  lemma PassReconcilesIff(eureka: seq<InstanceInfo>, nacos: Instances, task: Task, sourceType: string)
    ensures TaggedIn(Pass(eureka, nacos, task, sourceType), task) == EligibleIn(eureka) <==>
            TaggedIn(nacos, task) * UpIn(eureka) <= EligibleIn(eureka)
    ensures TaggedIn(nacos, task) * UpIn(eureka) <= EligibleIn(eureka) ==>
              Pass(eureka, nacos, task, sourceType) == Delete(nacos, task) + Copies(eureka, task, sourceType)
  {
    PassBounds(eureka, nacos, task, sourceType);
    CopiesOf(eureka, task, sourceType);
  }

  /** A tagged instance that is up in Eureka keeps a stale copy alive. */
  lemma LeftoverSurvives(task: Task, sourceType: string)
    ensures var other := InstanceInfo("i", "a", "10.0.0.1", 80, UP, Metadata(Some("elsewhere"), None, None, map[]));
            var stale := BuildSyncInstance(other, task, sourceType);
            Address("10.0.0.1", 80) in TaggedIn(Pass([other], map[other.At() := stale], task, sourceType), task)
            && Address("10.0.0.1", 80) !in EligibleIn([other])
  {
    var other := InstanceInfo("i", "a", "10.0.0.1", 80, UP, Metadata(Some("elsewhere"), None, None, map[]));
    var stale := BuildSyncInstance(other, task, sourceType);
    assert "elsewhere"[0] == 'e' && 'e' in "elsewhere";
    assert !Eligible(other);
    assert other in [other] && other.At() in UpIn([other]);
    PassBounds([other], map[other.At() := stale], task, sourceType);
  }

  /** Instances the task did not make stay, unless an eligible instance takes their address. */
  lemma PassSparesForeign(eureka: seq<InstanceInfo>, nacos: Instances, task: Task, sourceType: string, a: Address)
    requires a !in TaggedIn(nacos, task) && a !in EligibleIn(eureka)
    ensures var after := Pass(eureka, nacos, task, sourceType);
            (a in after <==> a in nacos) && (a in nacos ==> after[a] == nacos[a])
  {
    CopiesOf(eureka, task, sourceType);
  }

  lemma PassIdempotent(eureka: seq<InstanceInfo>, nacos: Instances, task: Task, sourceType: string)
    ensures var after := Pass(eureka, nacos, task, sourceType);
            Pass(eureka, after, task, sourceType) == after
  {
    var after, copies := Pass(eureka, nacos, task, sourceType), Copies(eureka, task, sourceType);
    PassBounds(eureka, nacos, task, sourceType);
    assert EligibleIn(eureka) <= UpIn(eureka) by {
      forall i | i in eureka && Eligible(i) ensures i.At() in UpIn(eureka) {}
    }
    assert TaggedIn(after, task) - UpIn(eureka) == {};
    assert (after - {}) + copies == after;
  }

  /** The branch for an empty source is the same specification. */
  lemma EmptySourceAgrees(nacos: Instances, task: Task, sourceType: string)
    ensures Pass([], nacos, task, sourceType) == Delete(nacos, task)
  {
    assert UpIn([]) == {};
  }

  // ----- The pass as it runs -----

  /** Nothing is missing but copies no longer up, nothing is altered but what an eligible instance is copied over. */
  ghost predicate NothingLost(eureka: seq<InstanceInfo>, start: Instances, task: Task, content: Instances)
  {
    forall a :: a in start && a !in TaggedIn(start, task) - UpIn(eureka) ==>
      a in content && (a !in EligibleIn(eureka) ==> content[a] == start[a])
  }

  /** Every content since some point of a registry's history. */
  ghost predicate NothingLostSince(eureka: seq<InstanceInfo>, start: Instances, task: Task,
                                   history: seq<Instances>, from: nat)
  {
    forall n :: from <= n < |history| ==> NothingLost(eureka, start, task, history[n])
  }

  lemma RemovingLosesNothing(eureka: seq<InstanceInfo>, start: Instances, task: Task, gone: set<Address>)
    requires gone <= TaggedIn(start, task) - UpIn(eureka)
    ensures NothingLost(eureka, start, task, start - gone)
  {
  }

  lemma AddingLosesNothing(eureka: seq<InstanceInfo>, start: Instances, task: Task, sourceType: string, n: nat)
    requires n <= |eureka|
    ensures NothingLost(eureka, start, task,
                        (start - (TaggedIn(start, task) - UpIn(eureka))) + Copies(eureka[..n], task, sourceType))
  {
    CopiesOf(eureka[..n], task, sourceType);
    forall a | a in EligibleIn(eureka[..n])
      ensures a in EligibleIn(eureka)
    {
      var i :| i in eureka[..n] && Eligible(i) && i.At() == a;
      assert i in eureka;
    }
  }

  class EurekaSyncToNacos {
    constructor () {}

    method Sync(eureka: EurekaNamingService, dest: NamingService, task: Task, sourceType: string, responds: bool)
      returns (ghost eurekaInstances: seq<InstanceInfo>)
      requires eureka.Valid() && dest.Valid()
      modifies dest
      ensures dest.Valid()
      ensures forall i :: i in eurekaInstances <==> responds && i.id in eureka.instances && eureka.instances[i.id] == i
      ensures dest.instances == Pass(eurekaInstances, old(dest.instances), task, sourceType)
      ensures old(dest.history) <= dest.history
      ensures NothingLostSince(eurekaInstances, old(dest.instances), task, dest.history, |old(dest.history)|)
    {
      ghost var start := dest.instances;
      var list := eureka.GetApplications(responds);
      var nacosInstances := dest.GetAllInstances();
      if list.None? || list.value == [] {
        eurekaInstances := [];
        DeleteAllInstance(task, dest, nacosInstances);
        EmptySourceAgrees(start, task, sourceType);
      } else {
        eurekaInstances := list.value;
        if nacosInstances != [] {
          RemoveInvalidInstance(task, dest, list.value, nacosInstances);
        } else {
          NothingTagged(dest, nacosInstances, task);
          assert start - {} == start;
        }
        AddValidInstance(task, dest, list.value, sourceType, start);
      }
    }

    lemma NothingTagged(dest: NamingService, nacosInstances: seq<Instance>, task: Task)
      requires dest.Valid() && nacosInstances == []
      requires forall i :: i in nacosInstances <==> i.At() in dest.instances && dest.instances[i.At()] == i
      ensures TaggedIn(dest.instances, task) == {}
    {
      assert forall a :: a in dest.instances ==> dest.instances[a] in nacosInstances;
    }

    method AddValidInstance(task: Task, dest: NamingService, eureka: seq<InstanceInfo>, sourceType: string,
                            ghost before: Instances)
      requires dest.Valid() && dest.instances == before - (TaggedIn(before, task) - UpIn(eureka))
      modifies dest
      ensures dest.Valid() && dest.instances == old(dest.instances) + Copies(eureka, task, sourceType)
      ensures old(dest.history) <= dest.history
      ensures NothingLostSince(eureka, before, task, dest.history, |old(dest.history)|)
    {
      hide NothingLost;
      ghost var start := dest.instances;
      for n := 0 to |eureka|
        invariant dest.Valid() && dest.instances == start + Copies(eureka[..n], task, sourceType)
        invariant old(dest.history) <= dest.history
        invariant NothingLostSince(eureka, before, task, dest.history, |old(dest.history)|)
      {
        AddingLosesNothing(eureka, before, task, sourceType, n + 1);
        var instance := eureka[n];
        assert eureka[..n + 1][..n] == eureka[..n];
        if NeedSync(instance.metadata) && instance.instanceStatus == UP {
          MergeInsert(start, Copies(eureka[..n], task, sourceType), instance.At(),
                      BuildSyncInstance(instance, task, sourceType));
          dest.RegisterInstance(BuildSyncInstance(instance, task, sourceType));
        }
      }
      assert eureka[..|eureka|] == eureka;
    }

    method RemoveInvalidInstance(task: Task, dest: NamingService, eureka: seq<InstanceInfo>,
                                 nacosInstances: seq<Instance>)
      requires dest.Valid()
      requires forall i :: i in nacosInstances <==> i.At() in dest.instances && dest.instances[i.At()] == i
      modifies dest
      ensures dest.Valid()
      ensures dest.instances == old(dest.instances) - (TaggedIn(old(dest.instances), task) - UpIn(eureka))
      ensures old(dest.history) <= dest.history
      ensures NothingLostSince(eureka, old(dest.instances), task, dest.history, |old(dest.history)|)
    {
      hide NothingLost;
      ghost var start := dest.instances;
      ghost var invalid := TaggedIn(start, task) - UpIn(eureka);
      ghost var gone: set<Address> := {};
      for n := 0 to |nacosInstances|
        invariant dest.Valid() && dest.instances == start - gone
        invariant gone <= invalid && old(dest.history) <= dest.history
        invariant NothingLostSince(eureka, start, task, dest.history, |old(dest.history)|)
        invariant forall k :: 0 <= k < n && nacosInstances[k].At() in invalid ==> nacosInstances[k].At() in gone
      {
        var instance := nacosInstances[n];
        assert instance in nacosInstances;
        assert IsExistInEurekaInstance(eureka, instance) <==> instance.At() in UpIn(eureka);
        if !IsExistInEurekaInstance(eureka, instance) && NeedDelete(instance.metadata, task) {
          gone := gone + {instance.At()};
          RemovingLosesNothing(eureka, start, task, gone);
          dest.DeregisterInstance(instance.ip, instance.port);
          assert dest.instances == start - gone;
        }
      }
      forall a | a in invalid ensures a in gone {
        assert start[a] in nacosInstances;
      }
    }

    method DeleteAllInstance(task: Task, dest: NamingService, allInstances: seq<Instance>)
      requires dest.Valid()
      requires forall i :: i in allInstances <==> i.At() in dest.instances && dest.instances[i.At()] == i
      modifies dest
      ensures dest.Valid() && dest.instances == Delete(old(dest.instances), task)
      ensures old(dest.history) <= dest.history
      ensures NothingLostSince([], old(dest.instances), task, dest.history, |old(dest.history)|)
    {
      hide NothingLost;
      assert UpIn([]) == {};
      ghost var start := dest.instances;
      ghost var gone: set<Address> := {};
      for n := 0 to |allInstances|
        invariant dest.Valid() && dest.instances == start - gone
        invariant gone <= TaggedIn(start, task) && old(dest.history) <= dest.history
        invariant NothingLostSince([], start, task, dest.history, |old(dest.history)|)
        invariant forall k :: 0 <= k < n && NeedDelete(allInstances[k].metadata, task) ==> allInstances[k].At() in gone
      {
        assert allInstances[n] in allInstances;
        if NeedDelete(allInstances[n].metadata, task) {
          gone := gone + {allInstances[n].At()};
          RemovingLosesNothing([], start, task, gone);
          dest.DeregisterInstance(allInstances[n].ip, allInstances[n].port);
          assert dest.instances == start - gone;
        }
      }
      forall a | a in TaggedIn(start, task) ensures a in gone {
        assert start[a] in allInstances;
      }
    }
  }
}
