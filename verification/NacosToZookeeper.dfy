/**
 * NacosSyncToZookeeperServiceImpl: provider paths in ZooKeeper kept up to date by diffing against a backup of the
 * last pass, rather than by reading back what is there.
 */
module NacosToZookeeper {
  import opened Common
  import opened Tasks
  import opened Registry

  /** How a provider path is printed: the service path from an instance's interface, the full path below it. */
  datatype Printer = Printer(servicePath: Instance -> string, fullPath: (string, Instance, Task) -> string)

  /** Who created a node: one of the tasks, or anybody else. */
  datatype Creator = ByTask(taskId: string) | ByOther

  /** The nodes in ZooKeeper, and the service's maps `instanceBackupMap` and `monitorPath`. */
  datatype State = State(nodes: map<string, Creator>, backup: map<string, set<string>>, monitor: map<string, string>)

  function BackupOf(s: State, taskId: string): set<string>
  {
    if taskId in s.backup then s.backup[taskId] else {}
  }

  // ----- What a pass computes -----

  /** The task's service path: fixed by the first untagged instance it ever sees. */
  function ServicePath(p: Printer, known: Option<string>, list: seq<Instance>): Option<string>
  {
    if known.Some? || list == [] then known
    else if NeedSync(list[0].metadata) then Some(p.servicePath(list[0]))
    else ServicePath(p, None, list[1..])
  }

  /** The paths of the untagged instances. */
  function Urls(p: Printer, servicePath: string, list: seq<Instance>, task: Task): set<string>
  {
    set i | i in list && NeedSync(i.metadata) :: p.fullPath(servicePath, i, task)
  }

  function Known(s: State, taskId: string): Option<string>
  {
    if taskId in s.monitor then Some(s.monitor[taskId]) else None
  }

  /** The paths a pass should leave. */
  function NewUrls(p: Printer, s: State, list: seq<Instance>, task: Task): set<string>
  {
    match ServicePath(p, Known(s, task.taskId), list)
    case None => {}
    case Some(path) => Urls(p, path, list, task)
  }

  /** The nodes with the missing ones of some paths created by the task. */
  function WithCreated(nodes: map<string, Creator>, paths: set<string>, taskId: string): map<string, Creator>
  {
    map q | q in nodes.Keys + paths :: if q in nodes then nodes[q] else ByTask(taskId)
  }

  function Pass(p: Printer, s: State, list: seq<Instance>, task: Task): State
  {
    var urls := NewUrls(p, s, list, task);
    var path := ServicePath(p, Known(s, task.taskId), list);
    State(WithCreated(s.nodes, urls, task.taskId) - (BackupOf(s, task.taskId) - urls),
          s.backup[task.taskId := urls],
          if path.Some? then s.monitor[task.taskId := path.value] else s.monitor)
  }

  /** The same pass without a backup: drop every node of the task that is no longer wanted, create the missing ones. */
  function Recompute(p: Printer, s: State, list: seq<Instance>, task: Task): map<string, Creator>
  {
    var urls := NewUrls(p, s, list, task);
    WithCreated(s.nodes - OwnedBy(s, task.taskId), urls, task.taskId)
  }

  function OwnedBy(s: State, taskId: string): set<string>
  {
    set q | q in s.nodes && s.nodes[q] == ByTask(taskId)
  }

  function Delete(s: State, task: Task): State
  {
    s.(nodes := s.nodes - BackupOf(s, task.taskId))
  }

  // ----- Runs of passes and deletions, with other clients creating and deleting nodes in between -----

  datatype Action =
    | RunPass(task: Task, list: seq<Instance>)
    | DeleteTask(task: Task)
    | OtherCreates(path: string)
    | NodeLost(path: string)

  function Next(p: Printer, s: State, a: Action): State
  {
    match a
    case RunPass(task, list) => Pass(p, s, list, task)
    case DeleteTask(task) => Delete(s, task)
    case OtherCreates(path) => if path in s.nodes then s else s.(nodes := s.nodes[path := ByOther])
    case NodeLost(path) => s.(nodes := s.nodes - {path})
  }

  function After(p: Printer, s: State, run: seq<Action>): State
    decreases |run|
  {
    if run == [] then s else After(p, Next(p, s, run[0]), run[1..])
  }

  const INITIAL := State(map[], map[], map[])

  /** Every node a task created and that still exists is in its current backup. */
  ghost predicate Backed(s: State)
  {
    forall q :: q in s.nodes && s.nodes[q].ByTask? ==> q in BackupOf(s, s.nodes[q].taskId)
  }

  lemma BackedStep(p: Printer, s: State, a: Action)
    requires Backed(s)
    ensures Backed(Next(p, s, a))
  {
    if a.RunPass? {
      var s' := Next(p, s, a);
      forall q | q in s'.nodes && s'.nodes[q].ByTask?
        ensures q in BackupOf(s', s'.nodes[q].taskId)
      {
        if q in s.nodes {
          assert q in BackupOf(s, s.nodes[q].taskId);
        }
      }
    }
  }

  lemma {:induction false} BackedOverRuns(p: Printer, s: State, run: seq<Action>)
    requires Backed(s)
    ensures Backed(After(p, s, run))
    decreases |run|
  {
    if run != [] {
      BackedStep(p, s, run[0]);
      BackedOverRuns(p, Next(p, s, run[0]), run[1..]);
    }
  }

  /** Other clients touch one node, and neither the backups nor the service paths. */
  lemma OthersAct(p: Printer, s: State, path: string, q: string)
    ensures var s' := Next(p, s, OtherCreates(path));
            && s'.backup == s.backup && s'.monitor == s.monitor && (q in s'.nodes <==> q in s.nodes || q == path)
            && (q in s'.nodes ==> s'.nodes[q] == if q in s.nodes then s.nodes[q] else ByOther)
    ensures var s' := Next(p, s, NodeLost(path));
            && s'.backup == s.backup && s'.monitor == s.monitor && (q in s'.nodes <==> q in s.nodes && q != path)
            && (q in s'.nodes ==> s'.nodes[q] == s.nodes[q])
  {
  }

  // ----- Results -----

  /**
   * After a pass the backup is exactly the untagged instances' paths, all of them exist, the task owns no others. What was
   * there keeps its creator, what was missing is the task's, and what only the old backup names is gone.
   */
  lemma PassMirrorsSource(p: Printer, run: seq<Action>, list: seq<Instance>, task: Task)
    ensures var s := After(p, INITIAL, run);
            var s', urls := Pass(p, s, list, task), NewUrls(p, s, list, task);
            && task.taskId in s'.backup && s'.backup[task.taskId] == urls && urls <= s'.nodes.Keys
            && s'.backup - {task.taskId} == s.backup - {task.taskId}
            && (forall q :: q in s'.nodes && s'.nodes[q] == ByTask(task.taskId) ==> q in urls)
            && (forall q :: q in urls ==> s'.nodes[q] == if q in s.nodes then s.nodes[q] else ByTask(task.taskId))
            && (forall q :: q !in urls && q in s'.nodes ==> task.taskId !in s.backup || q !in s.backup[task.taskId])
            && (forall q :: q !in urls && q !in BackupOf(s, task.taskId) ==>
                  (q in s'.nodes <==> q in s.nodes) && (q in s.nodes ==> s'.nodes[q] == s.nodes[q]))
  {
    BackedOverRuns(p, INITIAL, run);
    BackedStep(p, After(p, INITIAL, run), RunPass(task, list));
  }

  /** No pass over the task has seen an untagged instance. */
  ghost predicate NoneSeen(run: seq<Action>, taskId: string)
  {
    forall m :: 0 <= m < |run| ==> !Sees(run[m], taskId)
  }

  predicate Sees(a: Action, taskId: string)
  {
    a.RunPass? && a.task.taskId == taskId && exists i :: i in a.list && NeedSync(i.metadata)
  }

  /** The first untagged instance that the passes over a task have seen: the j-th one listed by the n-th action. */
  ghost predicate FirstSeen(run: seq<Action>, taskId: string, n: int, j: int)
  {
    && 0 <= n < |run| && NoneSeen(run[..n], taskId) && run[n].RunPass? && run[n].task.taskId == taskId
    && FirstIn(run[n].list, j)
  }

  ghost predicate FirstIn(list: seq<Instance>, j: int)
  {
    0 <= j < |list| && NeedSync(list[j].metadata) && forall i :: 0 <= i < j ==> !NeedSync(list[i].metadata)
  }

  lemma {:induction false} AfterLast(p: Printer, s: State, run: seq<Action>, a: Action)
    ensures After(p, s, run + [a]) == Next(p, After(p, s, run), a)
    decreases |run|
  {
    hide Next;
    if run == [] {
      assert [] + [a] == [a] && [a][1..] == [];
    } else {
      AfterLast(p, Next(p, s, run[0]), run[1..], a);
      assert (run + [a])[0] == run[0] && (run + [a])[1..] == run[1..] + [a];
    }
  }

  /** A known service path stays; otherwise the first untagged instance of the list gives it. */
  lemma {:induction false} ServicePathIs(p: Printer, known: Option<string>, list: seq<Instance>) returns (j: nat)
    ensures var path := ServicePath(p, known, list);
            if known.Some? then path == known
            else if forall i :: i in list ==> !NeedSync(i.metadata) then path == None
            else FirstIn(list, j) && path == Some(p.servicePath(list[j]))
  {
    hide NeedSync;
    j := 0;
    if known.None? && list != [] && !NeedSync(list[0].metadata) {
      j := ServicePathIs(p, known, list[1..]);
      j := j + 1;
      assert list == [list[0]] + list[1..];
    }
  }

  /** Over any run, the service path of a task is the one of the first untagged instance its passes have seen. */
  lemma {:induction false} ServicePathOverRuns(p: Printer, run: seq<Action>, taskId: string) returns (n: nat, j: nat)
    ensures var s := After(p, INITIAL, run);
            if NoneSeen(run, taskId) then taskId !in s.monitor
            else FirstSeen(run, taskId, n, j) && taskId in s.monitor && s.monitor[taskId] == p.servicePath(run[n].list[j])
    decreases |run|
  {
    n, j := 0, 0;
    if run != [] {
      var k := |run| - 1;
      var before, a := run[..k], run[k];
      var s := After(p, INITIAL, before);
      assert run == before + [a];
      AfterLast(p, INITIAL, before, a);
      n, j := ServicePathOverRuns(p, before, taskId);
      hide After, NeedSync, ServicePath, NewUrls;
      assert NoneSeen(run, taskId) <==> NoneSeen(before, taskId) && !Sees(a, taskId);
      if NoneSeen(before, taskId) && a.RunPass? && a.task.taskId == taskId {
        n := k;
        j := ServicePathIs(p, Known(s, taskId), a.list);
      } else {
        if a.RunPass? {
          var i := ServicePathIs(p, Known(s, a.task.taskId), a.list);
        }
        assert !NoneSeen(before, taskId) ==> run[..n] == before[..n];
      }
    }
  }

  /**
   * The wanted paths are those printed for the untagged instances, under the one service path the task keeps for good.
   */
  lemma NewUrlsArePrinted(p: Printer, s: State, list: seq<Instance>, task: Task, i: Instance)
    requires i in list && NeedSync(i.metadata)
    ensures var path := ServicePath(p, Known(s, task.taskId), list);
            && path.Some?
            && (forall q :: q in NewUrls(p, s, list, task) <==>
                  exists k :: 0 <= k < |list| && NeedSync(list[k].metadata) && q == p.fullPath(path.value, list[k], task))
            && Known(Pass(p, s, list, task), task.taskId) == path
            && (task.taskId in s.monitor ==> path == Some(s.monitor[task.taskId]))
  {
    ServicePathFound(p, Known(s, task.taskId), list, i);
    hide ServicePath, IsBlank;
    var path := ServicePath(p, Known(s, task.taskId), list);
    forall k | 0 <= k < |list| && NeedSync(list[k].metadata)
      ensures p.fullPath(path.value, list[k], task) in NewUrls(p, s, list, task)
    {
      assert list[k] in list;
    }
    var j := ServicePathIs(p, Known(s, task.taskId), list);
  }

  lemma {:induction false} ServicePathFound(p: Printer, known: Option<string>, list: seq<Instance>, i: Instance)
    requires i in list && NeedSync(i.metadata)
    ensures ServicePath(p, known, list).Some?
  {
    if known.None? && !NeedSync(list[0].metadata) {
      assert i in list[1..];
      ServicePathFound(p, None, list[1..], i);
    }
  }

  /**
   * The diff against the backup leaves the same nodes as recomputing from what the task created exactly when
   * it drops no path that somebody else had created.
   */
  lemma DiffIsRecomputeIff(p: Printer, run: seq<Action>, list: seq<Instance>, task: Task)
    ensures var s := After(p, INITIAL, run);
            Pass(p, s, list, task).nodes == Recompute(p, s, list, task) <==>
            forall q :: q in BackupOf(s, task.taskId) - NewUrls(p, s, list, task) && q in s.nodes ==>
              q in OwnedBy(s, task.taskId)
  {
    BackedOverRuns(p, INITIAL, run);
    var s := After(p, INITIAL, run);
    var diff, full, urls := Pass(p, s, list, task).nodes, Recompute(p, s, list, task), NewUrls(p, s, list, task);
    forall q
      ensures q in BackupOf(s, task.taskId) - urls && q in s.nodes && q !in OwnedBy(s, task.taskId) <==>
              (q in diff) != (q in full)
      ensures q in diff && q in full ==> diff[q] == full[q]
    {
    }
    if diff == full {
      forall q | q in BackupOf(s, task.taskId) - urls && q in s.nodes ensures q in OwnedBy(s, task.taskId) {
        assert (q in diff) == (q in full);
      }
    }
  }

  /** A pass that finds the source as it was changes no node. */
  lemma PassIdempotent(p: Printer, s: State, list: seq<Instance>, task: Task)
    ensures var once := Pass(p, s, list, task);
            Pass(p, once, list, task) == once
  {
    var once, urls := Pass(p, s, list, task), NewUrls(p, s, list, task);
    ServicePathStable(p, Known(s, task.taskId), list);
    assert NewUrls(p, once, list, task) == urls;
    assert WithCreated(once.nodes, urls, task.taskId) == once.nodes;
    assert once.nodes - (urls - urls) == once.nodes;
  }

  lemma {:induction false} ServicePathStable(p: Printer, known: Option<string>, list: seq<Instance>)
    ensures ServicePath(p, ServicePath(p, known, list), list) == ServicePath(p, known, list)
  {
    if known.None? && list != [] && !NeedSync(list[0].metadata) {
      ServicePathStable(p, None, list[1..]);
    }
  }

  /** Deleting the task leaves none of the nodes it created, and touches nothing outside its backup. */
  lemma DeleteLeavesNone(p: Printer, run: seq<Action>, task: Task)
    ensures var s := After(p, INITIAL, run);
            && OwnedBy(Delete(s, task), task.taskId) == {}
            && (task.taskId in s.backup ==> Delete(s, task).nodes.Keys !! s.backup[task.taskId])
            && (forall q :: q !in BackupOf(s, task.taskId) ==>
                  (q in Delete(s, task).nodes <==> q in s.nodes)
                  && (q in s.nodes ==> Delete(s, task).nodes[q] == s.nodes[q]))
  {
    BackedOverRuns(p, INITIAL, run);
  }

  /** The diff drops a path somebody else created, once the task had taken it for its own. */
  lemma ForeignNodeDropped(p: Printer, task: Task, i: Instance, q: string)
    requires NeedSync(i.metadata) && q == p.fullPath(p.servicePath(i), i, task)
    ensures var s := After(p, INITIAL, [OtherCreates(q), RunPass(task, [i])]);
            && q in s.nodes && s.nodes[q] == ByOther
            && q !in Pass(p, s, [], task).nodes && q in Recompute(p, s, [], task)
  {
    var run := [OtherCreates(q), RunPass(task, [i])];
    var s1 := Next(p, INITIAL, run[0]);
    var s := Next(p, s1, run[1]);
    assert run[1..] == [RunPass(task, [i])] && run[1..][1..] == [];
    assert After(p, s, []) == s;
    assert After(p, s1, run[1..]) == s;
    assert NewUrls(p, s1, [i], task) == {q};
  }

  // ----- The service as it runs -----

  /** Every node that was there and is not dropped for good exists throughout; new ones are wanted. */
  ghost predicate NothingLost(start: map<string, Creator>, dropped: set<string>, wanted: set<string>,
                              nodes: map<string, Creator>)
  {
    && (forall q :: q in start && q !in dropped ==> q in nodes && nodes[q] == start[q])
    && (forall q :: q in nodes && q !in start ==> q in wanted)
  }

  /** Every content since some point of the tree's history. */
  ghost predicate NothingLostSince(start: map<string, Creator>, dropped: set<string>, wanted: set<string>,
                                   history: seq<map<string, Creator>>, from: nat)
  {
    forall n :: from <= n < |history| ==> NothingLost(start, dropped, wanted, history[n])
  }

  lemma CreatingLosesNothing(start: map<string, Creator>, wanted: set<string>, taskId: string)
    ensures NothingLost(start, {}, wanted, WithCreated(start, wanted, taskId))
  {
  }

  lemma DroppingLosesNothing(start: map<string, Creator>, gone: set<string>, dropped: set<string>, wanted: set<string>,
                             taskId: string)
    requires gone <= dropped
    ensures NothingLost(start, dropped, wanted, WithCreated(start, wanted, taskId) - gone)
  {
  }

  lemma MoreAllowed(start: map<string, Creator>, dropped: set<string>, wanted: set<string>, dropped': set<string>,
                    wanted': set<string>, history: seq<map<string, Creator>>, from: nat)
    requires dropped <= dropped' && wanted <= wanted' && NothingLostSince(start, dropped, wanted, history, from)
    ensures NothingLostSince(start, dropped', wanted', history, from)
  {
  }

  lemma SinceJoins(start: map<string, Creator>, dropped: set<string>, wanted: set<string>,
                   first: seq<map<string, Creator>>, history: seq<map<string, Creator>>, from: nat)
    requires first <= history && NothingLostSince(start, dropped, wanted, first, from)
    requires NothingLostSince(start, dropped, wanted, history, |first|)
    ensures NothingLostSince(start, dropped, wanted, history, from)
  {
    hide NothingLost;
    forall n | from <= n < |history|
      ensures NothingLost(start, dropped, wanted, history[n])
    {
      assert n < |first| ==> history[n] == first[n];
    }
  }

  class NacosSyncToZookeeper {
    const printer: Printer
    /** the tree behind the Curator client */
    var nodes: map<string, Creator>
    /** every content the tree has had since the service started */
    ghost var history: seq<map<string, Creator>>
    var instanceBackupMap: map<string, set<string>>
    var monitorPath: map<string, string>

    constructor (printer: Printer)
      ensures this.printer == printer && Now() == INITIAL && history == []
    {
      this.printer := printer;
      nodes, instanceBackupMap, monitorPath := map[], map[], map[];
      history := [];
    }

    function Now(): State
      reads this
    {
      State(nodes, instanceBackupMap, monitorPath)
    }

    method OnNamingEvent(task: Task, sourceInstances: seq<Instance>)
      modifies this
      ensures Now() == Pass(printer, old(Now()), sourceInstances, task)
      ensures old(history) <= history
      ensures var urls := NewUrls(printer, old(Now()), sourceInstances, task);
              NothingLostSince(old(nodes), BackupOf(old(Now()), task.taskId) - urls, urls, history, |old(history)|)
    {
      var newInstanceUrlSet := GetWaitingToAddInstance(task, sourceInstances);
      ghost var created, dropped := history, BackupOf(Now(), task.taskId) - newInstanceUrlSet;
      MoreAllowed(old(nodes), {}, newInstanceUrlSet, dropped, newInstanceUrlSet, history, |old(history)|);
      DeleteInvalidInstances(task, newInstanceUrlSet, old(nodes));
      SinceJoins(old(nodes), dropped, newInstanceUrlSet, created, history, |old(history)|);
      instanceBackupMap := instanceBackupMap[task.taskId := newInstanceUrlSet];
    }

    method GetWaitingToAddInstance(task: Task, sourceInstances: seq<Instance>) returns (waiting: set<string>)
      modifies this`nodes, this`monitorPath, this`history
      ensures waiting == NewUrls(printer, old(Now()), sourceInstances, task)
      ensures nodes == WithCreated(old(nodes), waiting, task.taskId)
      ensures monitorPath == Pass(printer, old(Now()), sourceInstances, task).monitor
      ensures old(history) <= history
      ensures NothingLostSince(old(nodes), {}, waiting, history, |old(history)|)
    {
      hide NothingLost, NeedSync, WithCreated, Urls;
      ghost var known := Known(Now(), task.taskId);
      ghost var final := ServicePath(printer, known, sourceInstances);
      waiting := {};
      NothingYet(printer, sourceInstances, task, nodes);
      for n := 0 to |sourceInstances|
        invariant final == ServicePath(printer, Known(Now(), task.taskId), sourceInstances[n..])
        invariant monitorPath == old(monitorPath)
                  || (final.Some? && monitorPath == old(monitorPath)[task.taskId := final.value])
        invariant waiting != {} ==> final.Some?
        invariant final.Some? ==> waiting == Urls(printer, final.value, sourceInstances[..n], task)
        invariant nodes == WithCreated(old(nodes), waiting, task.taskId)
        invariant old(history) <= history
        invariant NothingLostSince(old(nodes), {}, waiting, history, |old(history)|)
      {
        var instance := sourceInstances[n];
        assert sourceInstances[..n + 1] == sourceInstances[..n] + [instance];
        assert sourceInstances[n..][0] == instance && sourceInstances[n..][1..] == sourceInstances[n + 1..];
        if NeedSync(instance.metadata) {
          assert final.Some?;
          if task.taskId !in monitorPath {
            monitorPath := monitorPath[task.taskId := printer.servicePath(instance)];
          }
          assert Known(Now(), task.taskId) == final;
          var instanceUrl := printer.fullPath(monitorPath[task.taskId], instance, task);
          UrlsStep(printer, final.value, sourceInstances[..n], instance, task);
          CreateStep(old(nodes), waiting, instanceUrl, task.taskId);
          MoreAllowed(old(nodes), {}, waiting, {}, waiting + {instanceUrl}, history, |old(history)|);
          CreatingLosesNothing(old(nodes), waiting + {instanceUrl}, task.taskId);
          if instanceUrl !in nodes {
            nodes := nodes[instanceUrl := ByTask(task.taskId)];
            history := history + [nodes];
          }
          waiting := waiting + {instanceUrl};
        } else if final.Some? {
          UrlsStep(printer, final.value, sourceInstances[..n], instance, task);
        }
      }
      assert sourceInstances[..|sourceInstances|] == sourceInstances;
    }

    static lemma NothingYet(p: Printer, list: seq<Instance>, task: Task, nodes: map<string, Creator>)
      ensures WithCreated(nodes, {}, task.taskId) == nodes
      ensures forall servicePath :: Urls(p, servicePath, list[..0], task) == {}
    {
    }

    static lemma UrlsStep(p: Printer, servicePath: string, list: seq<Instance>, i: Instance, task: Task)
      ensures Urls(p, servicePath, list + [i], task) ==
              Urls(p, servicePath, list, task) +
              (if NeedSync(i.metadata) then {p.fullPath(servicePath, i, task)} else {})
    {
    }

    static lemma CreateStep(nodes: map<string, Creator>, paths: set<string>, path: string, taskId: string)
      ensures var was := WithCreated(nodes, paths, taskId);
              WithCreated(nodes, paths + {path}, taskId) == if path in was then was else was[path := ByTask(taskId)]
    {
    }

    method DeleteInvalidInstances(task: Task, newInstanceUrlSet: set<string>, ghost before: map<string, Creator>)
      requires nodes == WithCreated(before, newInstanceUrlSet, task.taskId)
      modifies this`nodes, this`history
      ensures nodes == old(nodes) - (BackupOf(old(Now()), task.taskId) - newInstanceUrlSet)
      ensures old(history) <= history
      ensures NothingLostSince(before, BackupOf(old(Now()), task.taskId) - newInstanceUrlSet, newInstanceUrlSet,
                               history, |old(history)|)
    {
      hide NothingLost, WithCreated;
      var instanceBackup := if task.taskId in instanceBackupMap then instanceBackupMap[task.taskId] else {};
      var rest := instanceBackup;
      while rest != {}
        invariant rest <= instanceBackup
        invariant nodes == old(nodes) - (instanceBackup - rest - newInstanceUrlSet)
        invariant old(history) <= history
        invariant NothingLostSince(before, instanceBackup - newInstanceUrlSet, newInstanceUrlSet,
                                   history, |old(history)|)
        decreases rest
      {
        var instanceUrl :| instanceUrl in rest;
        rest := rest - {instanceUrl};
        if instanceUrl in newInstanceUrlSet {
          continue;
        }
        nodes := nodes - {instanceUrl};
        DroppingLosesNothing(before, instanceBackup - rest - newInstanceUrlSet, instanceBackup - newInstanceUrlSet,
                             newInstanceUrlSet, task.taskId);
        assert nodes == old(nodes) - (instanceBackup - rest - newInstanceUrlSet);
        history := history + [nodes];
      }
    }

    /** Without a backup the loop over it throws, which is caught. */
    method DeleteTask(task: Task) returns (ok: bool)
      modifies this`nodes, this`history
      ensures ok <==> task.taskId in instanceBackupMap
      ensures nodes == if ok then old(nodes) - instanceBackupMap[task.taskId] else old(nodes)
      ensures Now() == Delete(old(Now()), task)
    {
      if task.taskId !in instanceBackupMap {
        assert nodes == nodes - {};
        return false;
      }
      var rest := instanceBackupMap[task.taskId];
      while rest != {}
        invariant rest <= instanceBackupMap[task.taskId]
        invariant nodes == old(nodes) - (instanceBackupMap[task.taskId] - rest)
        decreases rest
      {
        var instanceUrl :| instanceUrl in rest;
        rest := rest - {instanceUrl};
        nodes := nodes - {instanceUrl};
        history := history + [nodes];
      }
      return true;
    }
  }
}
