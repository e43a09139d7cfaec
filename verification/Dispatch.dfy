/**
 * The two timers of every worker, over one task list: the query timer dispatches what the worker should run
 * and has not finished, the clean-up timer drops finished tasks the worker no longer owns.
 */
module Dispatch {
  import opened Common
  import opened Text
  import opened Ring
  import opened Membership
  import opened Tasks

  /** What the timers read: the task list, the cluster types, the shared membership view, and which handlers throw. */
  datatype World = World(tasks: seq<Task>, clusters: map<string, ClusterType>,
                         at: Locate, view: set<string>, workerIps: seq<string>, replicas: nat,
                         throws: (string, Task) -> bool)
  {
    predicate Owns(worker: string, task: Task)
    {
      IsProcessNode(at, view, workerIps, replicas, worker, task.serviceName)
    }

    function TypeOf(clusterId: string): Option<ClusterType>
    {
      if clusterId in clusters then Some(clusters[clusterId]) else None
    }

    /** The clean-up step goes through: the service found for the task is of the class it is cast to. */
    predicate Removable(task: Task)
    {
      match TypeOf(task.sourceClusterId)
      case Some(EUREKA) => TypeOf(task.destClusterId) == Some(NACOS)
      case Some(NACOS) => TypeOf(task.destClusterId) == Some(EUREKA)
      case _ => true
    }

    /** The clean-up timer collects the operation. */
    predicate Stale(worker: string, operationId: string)
    {
      var found := FindByOperationId(tasks, operationId);
      found.Some? && !Owns(worker, found.value) && found.value.status == SYNC
    }

    /** The query timer posts an event for the task. */
    predicate Dispatches(worker: string, finished: set<string>, task: Task)
    {
      && (task.status == SYNC ==> Owns(worker, task))
      && (task.operationId == "" || task.operationId !in finished)
    }

    /** Handling one task of the list: the event bus runs the listener, which records the task unless it throws. */
    function AfterQuery(worker: string, finished: set<string>, task: Task): set<string>
    {
      if Dispatches(worker, finished, task) && !throws(worker, task) then finished + {task.operationId} else finished
    }

    function AfterQueries(worker: string, finished: set<string>, list: seq<Task>): set<string>
    {
      if list == [] then finished
      else AfterQuery(worker, AfterQueries(worker, finished, list[..|list| - 1]), list[|list| - 1])
    }

    /** What the clean-up timer takes out of the finished map. */
    function Cleaned(worker: string, finished: set<string>): set<string>
    {
      set op | op in finished && Stale(worker, op) && Removable(FindByOperationId(tasks, op).value)
    }
  }

  datatype FinishedTask = FinishedTask(operationId: string)

  /** One worker's process: the finished map and the timers that share it. */
  class Worker {
    const localIp: string
    var finishedTaskMap: map<string, FinishedTask>

    ghost predicate Valid()
      reads this
    {
      forall op :: op in finishedTaskMap ==> finishedTaskMap[op] == FinishedTask(op)
    }

    constructor (localIp: string)
      ensures Valid() && this.localIp == localIp && finishedTaskMap == map[]
    {
      this.localIp := localIp;
      finishedTaskMap := map[];
    }

    method AddFinishedTask(task: Task)
      requires Valid()
      modifies this
      ensures Valid() && finishedTaskMap.Keys == old(finishedTaskMap.Keys) + {task.operationId}
    {
      finishedTaskMap := finishedTaskMap[task.operationId := FinishedTask(task.operationId)];
    }

    method GetFinishedTask(task: Task) returns (finished: Option<FinishedTask>)
      ensures finished.Some? <==> task.operationId != "" && task.operationId in finishedTaskMap
    {
      if task.operationId == "" || task.operationId !in finishedTaskMap {
        return None;
      }
      return Some(finishedTaskMap[task.operationId]);
    }

    /** CheckRunningStatusThread.run */
    method QueryTick(world: World, switchState: Option<string>)
      requires Valid()
      modifies this
      ensures Valid()
      ensures switchState.None? || EqualsIgnoreCase(switchState.value, "false") ==> finishedTaskMap == old(finishedTaskMap)
      ensures switchState.Some? && !EqualsIgnoreCase(switchState.value, "false") ==>
                && finishedTaskMap.Keys == world.AfterQueries(localIp, old(finishedTaskMap.Keys), world.tasks)
                && (forall op :: op in finishedTaskMap <==>
                      || op in old(finishedTaskMap)
                      || exists t :: t in world.tasks && t.operationId == op
                                     && (t.status == DELETE || world.Owns(localIp, t)) && !world.throws(localIp, t))
    {
      if switchState.None? || EqualsIgnoreCase(switchState.value, "false") {
        return;
      }
      for i := 0 to |world.tasks|
        invariant Valid()
        invariant finishedTaskMap.Keys == world.AfterQueries(localIp, old(finishedTaskMap.Keys), world.tasks[..i])
      {
        var task := world.tasks[i];
        assert world.tasks[..i + 1][..i] == world.tasks[..i];
        if task.status == SYNC && !world.Owns(localIp, task) {
          continue;
        }
        var finished := GetFinishedTask(task);
        if finished.Some? {
          continue;
        }
        if !world.throws(localIp, task) {
          AddFinishedTask(task);
        }
      }
      assert world.tasks[..|world.tasks|] == world.tasks;
      QueriesFinish(world, localIp, old(finishedTaskMap.Keys), world.tasks);
    }

    /** CleanUnBelongTask.run: collect first, then remove what the per-task clean-up lets through. */
    method CleanTick(world: World, switchState: Option<string>)
      requires Valid()
      modifies this
      ensures Valid()
      ensures switchState.None? || EqualsIgnoreCase(switchState.value, "false") ==> finishedTaskMap == old(finishedTaskMap)
      ensures switchState.Some? && !EqualsIgnoreCase(switchState.value, "false") ==>
                && finishedTaskMap.Keys == old(finishedTaskMap.Keys) - world.Cleaned(localIp, old(finishedTaskMap.Keys))
                && CleanedUp(world, localIp, old(finishedTaskMap.Keys), finishedTaskMap.Keys)
    {
      if switchState.None? || EqualsIgnoreCase(switchState.value, "false") {
        return;
      }
      var tmpTaskMap := CollectStale(world);
      RemoveCollected(world, tmpTaskMap);
      CleanedIs(world, localIp, old(finishedTaskMap.Keys));
    }

    method CollectStale(world: World) returns (tmpTaskMap: map<string, FinishedTask>)
      requires Valid()
      ensures tmpTaskMap.Keys == set op | op in finishedTaskMap && world.Stale(localIp, op)
      ensures forall op :: op in tmpTaskMap ==> tmpTaskMap[op] == FinishedTask(op)
    {
      tmpTaskMap := map[];
      var entries := finishedTaskMap.Keys;
      while entries != {}
        invariant entries <= finishedTaskMap.Keys
        invariant forall op :: op in tmpTaskMap <==> op in finishedTaskMap.Keys - entries && world.Stale(localIp, op)
        invariant forall op :: op in tmpTaskMap ==> tmpTaskMap[op] == FinishedTask(op)
        decreases entries
      {
        var op :| op in entries;
        entries := entries - {op};
        var task := FindByOperationId(world.tasks, op);
        if task.Some? && !world.Owns(localIp, task.value) && task.value.status == SYNC {
          tmpTaskMap := tmpTaskMap[op := finishedTaskMap[op]];
        }
      }
    }

    method RemoveCollected(world: World, tmpTaskMap: map<string, FinishedTask>)
      requires Valid()
      requires tmpTaskMap.Keys == set op | op in finishedTaskMap && world.Stale(localIp, op)
      requires forall op :: op in tmpTaskMap ==> tmpTaskMap[op] == FinishedTask(op)
      modifies this
      ensures Valid()
      ensures finishedTaskMap.Keys == old(finishedTaskMap.Keys) - world.Cleaned(localIp, old(finishedTaskMap.Keys))
    {
      ghost var start := finishedTaskMap.Keys;
      ghost var gone := world.Cleaned(localIp, start);
      var collected := tmpTaskMap.Keys;
      while collected != {}
        invariant Valid() && collected <= tmpTaskMap.Keys
        invariant forall op :: op in finishedTaskMap.Keys <==> op in start && (op in gone ==> op in collected)
        decreases collected
      {
        var op :| op in collected;
        collected := collected - {op};
        assert tmpTaskMap[op].operationId == op && world.Stale(localIp, op);
        var task := FindByOperationId(world.tasks, tmpTaskMap[op].operationId);
        if world.Removable(task.value) {
          finishedTaskMap := finishedTaskMap - {op};
        }
      }
    }
  }

  /** What the query timer adds: the operations of all tasks the worker should run whose handlers do not throw. */
  lemma {:induction false} QueriesFinish(world: World, worker: string, finished: set<string>, list: seq<Task>)
    ensures forall op :: op in world.AfterQueries(worker, finished, list) <==>
              || op in finished
              || exists t :: t in list && t.operationId == op
                             && (t.status == DELETE || world.Owns(worker, t)) && !world.throws(worker, t)
  {
    hide World.Owns;
    if list != [] {
      var last := |list| - 1;
      QueriesFinish(world, worker, finished, list[..last]);
      assert list == list[..last] + [list[last]];
      var before := world.AfterQueries(worker, finished, list[..last]);
      assert forall op :: op in world.AfterQuery(worker, before, list[last]) <==>
          || op in before
          || (op == list[last].operationId && (list[last].status == DELETE || world.Owns(worker, list[last]))
              && !world.throws(worker, list[last]));
    }
  }

  /**
   * What a clean-up tick leaves of a finished map. Operations without a task stay. Where operation ids name one task,
   * a SYNC task the worker does not own goes, unless its service is not of the class the timer casts it to: a service
   * from Nacos has to lead to Eureka, one from Eureka to Nacos.
   */
  ghost predicate CleanedUp(world: World, worker: string, before: set<string>, after: set<string>)
  {
    && after <= before
    && (forall op :: op in before && (forall t :: t in world.tasks ==> t.operationId != op) ==> op in after)
    && (DistinctOperationIds(world.tasks) ==>
          forall t :: t in world.tasks && t.operationId in before ==>
            var source, dest := t.sourceClusterId, t.destClusterId;
            var stays := source in world.clusters &&
              ((world.clusters[source] == NACOS && (dest !in world.clusters || world.clusters[dest] != EUREKA))
               || (world.clusters[source] == EUREKA && (dest !in world.clusters || world.clusters[dest] != NACOS)));
            (t.operationId in after <==> t.status == DELETE || world.Owns(worker, t) || stays))
  }

  lemma CleanedIs(world: World, worker: string, finished: set<string>)
    ensures CleanedUp(world, worker, finished, finished - world.Cleaned(worker, finished))
  {
    hide World.Owns;
    forall t | DistinctOperationIds(world.tasks) && t in world.tasks
      ensures FindByOperationId(world.tasks, t.operationId) == Some(t)
    {
      FindsItself(world.tasks, t);
    }
  }

  // ----- All workers' timers interleaved, one atomic access to a finished map at a time -----

  datatype Action =
    | Query(worker: string, task: Task)
    | Handle(worker: string, task: Task)
    | Scan(worker: string, operationId: string)
    | Remove(worker: string, operationId: string)

  /**
   * Per worker: the finished map, what its clean-up timer has collected and not yet removed, and the dispatched tasks
   * whose handlers have not ended.
   */
  datatype State = State(finished: map<string, set<string>>, collected: map<string, set<string>>,
                         handling: map<string, multiset<Task>>)

  predicate HasWorker(s: State, worker: string)
  {
    worker in s.finished && worker in s.collected && worker in s.handling
  }

  function WithFinished(s: State, worker: string, finished: set<string>): State
  {
    s.(finished := s.finished[worker := finished])
  }

  function WithHandling(s: State, worker: string, handling: multiset<Task>): State
  {
    s.(handling := s.handling[worker := handling])
  }

  predicate Enabled(world: World, s: State, a: Action)
  {
    && HasWorker(s, a.worker)
    && match a
       case Query(_, task) => task in world.tasks
       case Handle(worker, task) => task in s.handling[worker]
       case Scan(_, _) => true
       case Remove(worker, op) => op in s.collected[worker]
  }

  function Next(world: World, s: State, a: Action): State
    requires Enabled(world, s, a)
  {
    var w := a.worker;
    match a
    case Query(_, task) =>
      if world.Dispatches(w, s.finished[w], task) then WithHandling(s, w, s.handling[w] + multiset{task}) else s
    case Handle(_, task) =>
      var done := WithHandling(s, w, s.handling[w] - multiset{task});
      if world.throws(w, task) then done else WithFinished(done, w, s.finished[w] + {task.operationId})
    case Scan(_, op) =>
      if op in s.finished[w] && world.Stale(w, op) then s.(collected := s.collected[w := s.collected[w] + {op}]) else s
    case Remove(_, op) =>
      var found := FindByOperationId(world.tasks, op);
      s.(finished := if found.Some? && world.Removable(found.value) then s.finished[w := s.finished[w] - {op}]
                     else s.finished,
         collected := s.collected[w := s.collected[w] - {op}])
  }

  predicate Run(world: World, s: State, run: seq<Action>, s': State)
    decreases |run|
  {
    if run == [] then s' == s
    else Enabled(world, s, run[0]) && Run(world, Next(world, s, run[0]), run[1..], s')
  }

  // ----- One worker's ticks are runs of this machine -----

  lemma {:induction false} RunJoins(world: World, s: State, first: seq<Action>, t: State, second: seq<Action>, u: State)
    requires Run(world, s, first, t) && Run(world, t, second, u)
    ensures Run(world, s, first + second, u)
    decreases |first|
  {
    hide Enabled, Next;
    if first == [] {
      assert first + second == second;
    } else {
      RunJoins(world, Next(world, s, first[0]), first[1..], t, second, u);
      assert (first + second)[1..] == first[1..] + second;
    }
  }

  lemma OneStep(world: World, s: State, a: Action)
    requires Enabled(world, s, a)
    ensures Run(world, s, [a], Next(world, s, a))
  {
    hide Enabled, Next;
    assert [a][1..] == [];
    assert Run(world, Next(world, s, a), [], Next(world, s, a));
  }

  lemma {:induction false} QueriesAreRun(world: World, s: State, worker: string, n: nat) returns (run: seq<Action>)
    requires HasWorker(s, worker) && n <= |world.tasks|
    ensures Run(world, s, run,
                WithFinished(s, worker, world.AfterQueries(worker, s.finished[worker], world.tasks[..n])))
    ensures forall t :: t in world.tasks[..n] ==> Query(worker, t) in run
  {
    hide World.AfterQuery, Run;
    var t := WithFinished(s, worker, world.AfterQueries(worker, s.finished[worker], world.tasks[..n]));
    if n == 0 {
      run := [];
      assert t == s;
      NoStep(world, s);
    } else {
      var first := QueriesAreRun(world, s, worker, n - 1);
      var before := WithFinished(s, worker, world.AfterQueries(worker, s.finished[worker], world.tasks[..n - 1]));
      var last := world.tasks[n - 1];
      assert world.tasks[..n][..n - 1] == world.tasks[..n - 1] && world.tasks[..n] == world.tasks[..n - 1] + [last];
      var step := QueryIsRun(world, before, worker, last);
      assert t == WithFinished(before, worker, world.AfterQuery(worker, before.finished[worker], last));
      run := first + step;
      RunJoins(world, s, first, before, step, t);
    }
  }

  /** One task of the tick: the check, and the handler if the task is dispatched. */
  lemma QueryIsRun(world: World, s: State, worker: string, task: Task) returns (run: seq<Action>)
    requires HasWorker(s, worker) && task in world.tasks
    ensures Run(world, s, run, WithFinished(s, worker, world.AfterQuery(worker, s.finished[worker], task)))
    ensures Query(worker, task) in run
  {
    hide Run, World.Dispatches;
    OneStep(world, s, Query(worker, task));
    var asked := Next(world, s, Query(worker, task));
    run := [Query(worker, task)];
    assert s.finished[worker := s.finished[worker]] == s.finished;
    if world.Dispatches(worker, s.finished[worker], task) {
      OneStep(world, asked, Handle(worker, task));
      assert asked.handling[worker] - multiset{task} == s.handling[worker];
      assert asked.handling[worker := s.handling[worker]] == s.handling;
      run := run + [Handle(worker, task)];
      RunJoins(world, s, [Query(worker, task)], asked, [Handle(worker, task)],
               Next(world, asked, Handle(worker, task)));
    }
  }

  lemma NoStep(world: World, s: State)
    ensures Run(world, s, [], s)
  {
  }

  /** What Worker.QueryTick computes is a run of one query step a task. */
  lemma QueryTickIsRun(world: World, s: State, worker: string) returns (run: seq<Action>)
    requires HasWorker(s, worker)
    ensures Run(world, s, run, WithFinished(s, worker, world.AfterQueries(worker, s.finished[worker], world.tasks)))
    ensures forall t :: t in world.tasks ==> Query(worker, t) in run
  {
    run := QueriesAreRun(world, s, worker, |world.tasks|);
    assert world.tasks[..|world.tasks|] == world.tasks;
  }

  /** What scanning some operations collects. */
  function Collects(world: World, worker: string, finished: set<string>, ops: seq<string>): set<string>
  {
    set op | op in ops && op in finished && world.Stale(worker, op)
  }

  function WithCollected(s: State, worker: string, collected: set<string>): State
  {
    s.(collected := s.collected[worker := collected])
  }

  lemma {:induction false} ScansAreRun(world: World, s: State, worker: string, ops: seq<string>)
    returns (run: seq<Action>)
    requires HasWorker(s, worker)
    ensures Run(world, s, run,
                WithCollected(s, worker, s.collected[worker] + Collects(world, worker, s.finished[worker], ops)))
    ensures forall op :: op in ops ==> Scan(worker, op) in run
    decreases |ops|
  {
    hide World.Stale, Run;
    var all := s.collected[worker] + Collects(world, worker, s.finished[worker], ops);
    if ops == [] {
      run := [];
      assert all == s.collected[worker];
      assert WithCollected(s, worker, all) == s;
      NoStep(world, s);
    } else {
      var last := |ops| - 1;
      var first := ScansAreRun(world, s, worker, ops[..last]);
      var before := s.collected[worker] + Collects(world, worker, s.finished[worker], ops[..last]);
      var t := WithCollected(s, worker, before);
      assert ops == ops[..last] + [ops[last]];
      assert all == before +
        if ops[last] in s.finished[worker] && world.Stale(worker, ops[last]) then {ops[last]} else {};
      OneStep(world, t, Scan(worker, ops[last]));
      assert t.collected[worker := all] == s.collected[worker := all];
      assert before + {} == before;
      assert Next(world, t, Scan(worker, ops[last])) == WithCollected(s, worker, all);
      run := first + [Scan(worker, ops[last])];
      RunJoins(world, s, first, t, [Scan(worker, ops[last])], WithCollected(s, worker, all));
    }
  }

  predicate Goes(world: World, operationId: string)
  {
    var found := FindByOperationId(world.tasks, operationId);
    found.Some? && world.Removable(found.value)
  }

  /** What removing some collected operations takes out of a finished map. */
  function Gone(world: World, collected: set<string>): set<string>
  {
    set op | op in collected && Goes(world, op)
  }

  /** Everything in `removed` has been collected and removed again. */
  function WithRemoved(world: World, s: State, worker: string, collected: set<string>, removed: set<string>): State
    requires worker in s.finished
  {
    s.(finished := s.finished[worker := s.finished[worker] - Gone(world, removed)],
       collected := s.collected[worker := collected - removed])
  }

  lemma {:induction false} RemovalsAreRun(world: World, s: State, worker: string, collected: set<string>,
                                          removed: set<string>) returns (run: seq<Action>)
    requires HasWorker(s, worker) && s.collected[worker] == collected && removed <= collected
    ensures Run(world, s, run, WithRemoved(world, s, worker, collected, removed))
    decreases removed
  {
    hide Goes, Run;
    if removed == {} {
      run := [];
      assert s.finished[worker] - Gone(world, {}) == s.finished[worker];
      assert collected - {} == collected;
      assert s.finished[worker := s.finished[worker]] == s.finished && s.collected[worker := collected] == s.collected;
      assert WithRemoved(world, s, worker, collected, {}) == s;
      NoStep(world, s);
    } else {
      var op :| op in removed;
      var rest := removed - {op};
      var first := RemovalsAreRun(world, s, worker, collected, rest);
      RemoveOne(world, s, worker, collected, rest, op);
      assert rest + {op} == removed;
      run := first + [Remove(worker, op)];
      RunJoins(world, s, first, WithRemoved(world, s, worker, collected, rest), [Remove(worker, op)],
               WithRemoved(world, s, worker, collected, removed));
    }
  }

  lemma RemoveOne(world: World, s: State, worker: string, collected: set<string>, removed: set<string>, op: string)
    requires HasWorker(s, worker) && op in collected && op !in removed
    ensures Run(world, WithRemoved(world, s, worker, collected, removed), [Remove(worker, op)],
                WithRemoved(world, s, worker, collected, removed + {op}))
  {
    hide Run, World.Removable, FindByOperationId;
    var before := WithRemoved(world, s, worker, collected, removed);
    assert Gone(world, removed + {op}) == Gone(world, removed) + if Goes(world, op) then {op} else {};
    assert collected - (removed + {op}) == collected - removed - {op};
    assert s.finished[worker] - Gone(world, removed + {op}) ==
           if Goes(world, op) then before.finished[worker] - {op} else before.finished[worker];
    OneStep(world, before, Remove(worker, op));
    assert Next(world, before, Remove(worker, op)) == WithRemoved(world, s, worker, collected, removed + {op});
  }

  /** What Worker.CleanTick computes is a run that scans every finished task and then removes what it collected. */
  lemma CleanTickIsRun(world: World, s: State, worker: string) returns (run: seq<Action>)
    requires HasWorker(s, worker) && s.collected[worker] == {}
    ensures Run(world, s, run, WithFinished(s, worker, s.finished[worker] - world.Cleaned(worker, s.finished[worker])))
    ensures forall op :: op in s.finished[worker] ==> Scan(worker, op) in run
  {
    hide World.Stale, Goes, Run;
    var ops := Ascending(s.finished[worker]);
    AscendingMembers(s.finished[worker]);
    var collected := Collects(world, worker, s.finished[worker], ops);
    var scans := ScansAreRun(world, s, worker, ops);
    assert s.collected[worker] + collected == collected;
    var t := WithCollected(s, worker, collected);
    var removals := RemovalsAreRun(world, t, worker, collected, collected);
    CleanedGoes(world, worker, s.finished[worker], collected);
    assert collected - collected == {};
    assert t.collected[worker := {}] == s.collected;
    run := scans + removals;
    RunJoins(world, s, scans, t, removals,
             WithFinished(s, worker, s.finished[worker] - world.Cleaned(worker, s.finished[worker])));
  }

  lemma CleanedGoes(world: World, worker: string, finished: set<string>, collected: set<string>)
    requires collected == set op | op in finished && world.Stale(worker, op)
    ensures Gone(world, collected) == world.Cleaned(worker, finished)
  {
  }

  /** Whether the operation may be in the worker's finished map once both of its timers have gone through. */
  predicate Settled(world: World, worker: string, initially: set<string>, task: Task)
  {
    if task.status == DELETE || world.Owns(worker, task)
    then task.operationId in initially || !world.throws(worker, task)
    else task.operationId in initially && !world.Removable(task)
  }

  /** What is known of one worker and one task after a part of the run. */
  ghost predicate Track(world: World, worker: string, initially: set<string>, task: Task,
                        queried: bool, scanned: bool, s: State)
    requires HasWorker(s, worker)
  {
    var op, finished, collected := task.operationId, s.finished[worker], s.collected[worker];
    && (forall u :: u in s.handling[worker] ==> u in world.tasks)
    && if task.status == DELETE || world.Owns(worker, task) then
         && op !in collected
         && (op in initially ==> op in finished)
         && (op in finished ==> op in initially || !world.throws(worker, task))
         && (queried ==> op in finished || world.throws(worker, task) || task in s.handling[worker])
       else
         && task !in s.handling[worker]
         && (op in finished ==> op in initially)
         && (op in initially && !world.Removable(task) ==> op in finished)
         && (op in initially && scanned ==> op in collected || (world.Removable(task) ==> op !in finished))
  }

  lemma FindsItself(tasks: seq<Task>, task: Task)
    requires DistinctOperationIds(tasks) && task in tasks
    ensures FindByOperationId(tasks, task.operationId) == Some(task)
  {
  }

  lemma TrackQuery(world: World, worker: string, initially: set<string>, task: Task,
                   queried: bool, scanned: bool, s: State, u: Task)
    requires DistinctOperationIds(world.tasks) && task in world.tasks && u in world.tasks
    requires HasWorker(s, worker) && Track(world, worker, initially, task, queried, scanned, s)
    ensures Track(world, worker, initially, task, queried || u == task, scanned, Next(world, s, Query(worker, u)))
  {
    hide World.Owns, World.Removable, FindByOperationId;
    var s' := Next(world, s, Query(worker, u));
    assert forall v :: v in s'.handling[worker] ==> v in s.handling[worker] || v == u;
  }

  lemma TrackHandle(world: World, worker: string, initially: set<string>, task: Task,
                    queried: bool, scanned: bool, s: State, u: Task)
    requires DistinctOperationIds(world.tasks) && task in world.tasks
    requires HasWorker(s, worker) && u in s.handling[worker]
    requires Track(world, worker, initially, task, queried, scanned, s)
    ensures Track(world, worker, initially, task, queried, scanned, Next(world, s, Handle(worker, u)))
  {
    hide World.Owns, World.Removable, FindByOperationId;
    var s' := Next(world, s, Handle(worker, u));
    assert forall v :: v in s'.handling[worker] ==> v in s.handling[worker];
    assert u.operationId == task.operationId ==> u == task;
  }

  lemma TrackScan(world: World, worker: string, initially: set<string>, task: Task,
                  queried: bool, scanned: bool, s: State, op: string)
    requires DistinctOperationIds(world.tasks) && task in world.tasks
    requires HasWorker(s, worker) && Track(world, worker, initially, task, queried, scanned, s)
    ensures Track(world, worker, initially, task, queried, scanned || op == task.operationId,
                  Next(world, s, Scan(worker, op)))
  {
    hide World.Owns, World.Removable;
    FindsItself(world.tasks, task);
  }

  lemma TrackRemove(world: World, worker: string, initially: set<string>, task: Task,
                    queried: bool, scanned: bool, s: State, op: string)
    requires DistinctOperationIds(world.tasks) && task in world.tasks
    requires HasWorker(s, worker) && op in s.collected[worker]
    requires Track(world, worker, initially, task, queried, scanned, s)
    ensures Track(world, worker, initially, task, queried, scanned, Next(world, s, Remove(worker, op)))
  {
    hide World.Owns, World.Removable;
    FindsItself(world.tasks, task);
  }

  lemma TrackStep(world: World, worker: string, initially: set<string>, task: Task,
                  queried: bool, scanned: bool, s: State, a: Action)
    requires DistinctOperationIds(world.tasks) && task in world.tasks
    requires HasWorker(s, worker) && Enabled(world, s, a)
    requires Track(world, worker, initially, task, queried, scanned, s)
    ensures HasWorker(Next(world, s, a), worker)
    ensures Track(world, worker, initially, task, queried || a == Query(worker, task),
                  scanned || a == Scan(worker, task.operationId), Next(world, s, a))
  {
    if a.worker == worker {
      hide Track, World.Stale, World.Dispatches, World.Removable, World.Owns, FindByOperationId;
      match a
      case Query(_, u) => TrackQuery(world, worker, initially, task, queried, scanned, s, u);
      case Handle(_, u) => TrackHandle(world, worker, initially, task, queried, scanned, s, u);
      case Scan(_, op) => TrackScan(world, worker, initially, task, queried, scanned, s, op);
      case Remove(_, op) => TrackRemove(world, worker, initially, task, queried, scanned, s, op);
    } else {
      OtherWorkersStep(world, s, a, worker);
      hide Next, Enabled, World.Owns, World.Removable;
    }
  }

  lemma OtherWorkersStep(world: World, s: State, a: Action, worker: string)
    requires HasWorker(s, worker) && Enabled(world, s, a) && a.worker != worker
    ensures var s' := Next(world, s, a);
            HasWorker(s', worker) && s'.finished[worker] == s.finished[worker]
            && s'.collected[worker] == s.collected[worker] && s'.handling[worker] == s.handling[worker]
  {
    hide World.Stale, World.Dispatches, World.Removable, World.Owns, FindByOperationId;
  }

  lemma {:induction false} TrackRun(world: World, worker: string, initially: set<string>, task: Task,
                                    queried: bool, scanned: bool, s: State, run: seq<Action>, s': State)
    requires DistinctOperationIds(world.tasks) && task in world.tasks
    requires HasWorker(s, worker) && Run(world, s, run, s')
    requires Track(world, worker, initially, task, queried, scanned, s)
    ensures HasWorker(s', worker)
    ensures Track(world, worker, initially, task, queried || Query(worker, task) in run,
                  scanned || Scan(worker, task.operationId) in run, s')
    decreases |run|
  {
    hide Track, Next, Enabled;
    if run != [] {
      TrackStep(world, worker, initially, task, queried, scanned, s, run[0]);
      TrackRun(world, worker, initially, task, queried || run[0] == Query(worker, task),
               scanned || run[0] == Scan(worker, task.operationId), Next(world, s, run[0]), run[1..], s');
      assert run == [run[0]] + run[1..];
    }
  }

  /** Each worker has had one full query tick, and one full clean-up tick over what was there at the start. */
  ghost predicate OneTickEach(world: World, s: State, run: seq<Action>, s': State)
  {
    forall w :: w in s.finished ==>
      && (forall t :: t in world.tasks ==> Query(w, t) in run)
      && (forall op :: op in s.finished[w] ==> Scan(w, op) in run)
      && HasWorker(s', w) && s'.collected[w] == {} && s'.handling[w] == multiset{}
  }

  ghost predicate Initial(s: State)
  {
    && s.finished.Keys == s.collected.Keys == s.handling.Keys
    && forall w :: w in s.finished ==> s.collected[w] == {} && s.handling[w] == multiset{}
  }

  /**
   * In any interleaving of one query tick and one clean-up tick per worker, each finished map ends up with
   * exactly the operations it should have.
   */
  lemma TicksSettle(world: World, s: State, run: seq<Action>, s': State, worker: string, task: Task)
    requires DistinctOperationIds(world.tasks) && task in world.tasks
    requires Initial(s) && Run(world, s, run, s') && OneTickEach(world, s, run, s')
    requires worker in s.finished
    ensures worker in s'.finished
    ensures task.operationId in s'.finished[worker] <==> Settled(world, worker, s.finished[worker], task)
    ensures task.status == DELETE || world.Owns(worker, task) ==>
              (task.operationId in s'.finished[worker] <==>
               task.operationId in s.finished[worker] || !world.throws(worker, task))
    ensures task.status == SYNC && !world.Owns(worker, task) ==>
              var source, dest := task.sourceClusterId, task.destClusterId;
              var stays := source in world.clusters &&
                ((world.clusters[source] == NACOS && (dest !in world.clusters || world.clusters[dest] != EUREKA))
                 || (world.clusters[source] == EUREKA && (dest !in world.clusters || world.clusters[dest] != NACOS)));
              (task.operationId in s'.finished[worker] <==> task.operationId in s.finished[worker] && stays)
  {
    hide World.Owns, Next, Enabled;
    TrackRun(world, worker, s.finished[worker], task, false, false, s, run, s');
    assert Query(worker, task) in run;
  }

  /** The one worker whose finished map holds the operation. */
  ghost predicate HeldOnlyBy(s: State, operationId: string, owner: string)
  {
    forall w :: w in s.finished ==> (operationId in s.finished[w] <==> w == owner)
  }

  /** All live workers agree on a non-empty membership, operation ids are real and distinct, and no handler throws. */
  ghost predicate Calm(world: World, s: State)
  {
    && DistinctOperationIds(world.tasks) && (forall t :: t in world.tasks ==> t.operationId != "")
    && s.finished.Keys == world.view && world.view != {} && world.replicas > 0 && DistinctIgnoringCase(world.view)
    && (forall w, t :: !world.throws(w, t))
  }

  /**
   * Convergence of a SYNC task: its operation ends up with its ring owner, and with the owner alone exactly when
   * no other worker held it before, or the clean-up timer's cast fits: a service from Nacos leads to Eureka, one from
   * Eureka to Nacos.
   */
  lemma SyncConverges(world: World, s: State, run: seq<Action>, s': State, task: Task) returns (owner: string)
    requires Calm(world, s) && task in world.tasks && task.status == SYNC
    requires Initial(s) && Run(world, s, run, s') && OneTickEach(world, s, run, s')
    ensures owner in world.view
    ensures ShardingNode(world.at, world.view, world.workerIps, world.replicas, task.serviceName) == Some(owner)
    ensures s'.finished.Keys == world.view && task.operationId in s'.finished[owner]
    ensures HeldOnlyBy(s', task.operationId, owner) <==>
            var source, dest := task.sourceClusterId, task.destClusterId;
            || (forall w :: w in world.view && w != owner ==> task.operationId !in s.finished[w])
            || source !in world.clusters
            || (&& (world.clusters[source] == NACOS ==> dest in world.clusters && world.clusters[dest] == EUREKA)
                && (world.clusters[source] == EUREKA ==> dest in world.clusters && world.clusters[dest] == NACOS))
  {
    hide Run, OneTickEach, ShardingNode, DistinctOperationIds, Settled;
    RunKeepsWorkers(world, s, run, s');
    owner := ExactlyOneProcessNode(world.at, world.view, world.workerIps, world.replicas, task.serviceName);
    forall w | w in world.view
      ensures task.operationId in s'.finished[w] <==>
              w == owner || (task.operationId in s.finished[w] && !world.Removable(task))
    {
      TicksSettle(world, s, run, s', w, task);
      assert world.Owns(w, task) <==> w == owner;
    }
  }

  lemma {:induction false} TicksOf(world: World, s: State, workers: set<string>) returns (run: seq<Action>, s': State)
    requires Initial(s) && workers <= s.finished.Keys
    ensures Run(world, s, run, s') && s'.finished.Keys == s.finished.Keys
    ensures s'.collected == s.collected && s'.handling == s.handling
    ensures forall w :: w in s.finished && w !in workers ==> s'.finished[w] == s.finished[w]
    ensures forall w :: w in workers ==> TickIn(world, s, run, w)
    decreases workers
  {
    hide Run, World.Stale, World.Dispatches;
    if workers == {} {
      run, s' := [], s;
      NoStep(world, s);
    } else {
      var w :| w in workers;
      var first, t := TicksOf(world, s, workers - {w});
      var clean := CleanTickIsRun(world, t, w);
      var u := WithFinished(t, w, t.finished[w] - world.Cleaned(w, t.finished[w]));
      var query := QueryTickIsRun(world, u, w);
      s' := WithFinished(u, w, world.AfterQueries(w, u.finished[w], world.tasks));
      RunJoins(world, t, clean, u, query, s');
      RunJoins(world, s, first, t, clean + query, s');
      run := first + (clean + query);
      forall v | v in workers
        ensures TickIn(world, s, run, v)
      {
        assert v != w ==> TickIn(world, s, first, v);
      }
    }
  }

  /** One worker has had a full query tick, and a full clean-up tick over what was there at the start. */
  ghost predicate TickIn(world: World, s: State, run: seq<Action>, worker: string)
    requires worker in s.finished
  {
    && (forall t :: t in world.tasks ==> Query(worker, t) in run)
    && (forall op :: op in s.finished[worker] ==> Scan(worker, op) in run)
  }

  /** From every state at rest there is a run of one tick of each timer and worker. */
  lemma TicksExist(world: World, s: State) returns (run: seq<Action>, s': State)
    requires Initial(s)
    ensures Run(world, s, run, s') && OneTickEach(world, s, run, s')
  {
    run, s' := TicksOf(world, s, s.finished.Keys);
    forall w | w in s.finished
      ensures TickIn(world, s, run, w)
    {
    }
  }

  /** Two workers, one task from Nacos to Nacos, and no handler that throws. */
  function TwoWorkers(task: Task, at: Locate, replicas: nat, a: string, b: string): World
  {
    World([task], map[task.sourceClusterId := NACOS, task.destClusterId := NACOS], at, {a, b}, [], replicas,
          (_, _) => false)
  }

  /** Nobody has run anything, except the holder the operation. */
  function HeldBy(view: set<string>, holder: string, operationId: string): State
  {
    State(map w | w in view :: if w == holder then {operationId} else {}, map w | w in view :: {},
          map w | w in view :: multiset{})
  }

  lemma TwoWorkersCalm(task: Task, at: Locate, replicas: nat, a: string, b: string, holder: string)
    requires task.operationId != "" && replicas > 0 && DistinctIgnoringCase({a, b})
    ensures var world := TwoWorkers(task, at, replicas, a, b);
            var s := HeldBy(world.view, holder, task.operationId);
            Calm(world, s) && Initial(s) && !world.Removable(task)
  {
    var s := HeldBy({a, b}, holder, task.operationId);
    assert s.finished.Keys == {a, b} && s.collected.Keys == {a, b} && s.handling.Keys == {a, b};
    assert a in {a, b};
  }

  /** A Nacos-to-Nacos task that a worker holds without owning it stays in its finished map, whatever the ticks do. */
  lemma NacosToNacosStaysHeld(task: Task, at: Locate, replicas: nat, a: string, b: string)
    returns (owner: string, holder: string, run: seq<Action>, s': State)
    requires task.status == SYNC && task.operationId != "" && replicas > 0 && a != b && DistinctIgnoringCase({a, b})
    ensures ShardingNode(at, {a, b}, [], replicas, task.serviceName) == Some(owner) && {owner, holder} == {a, b}
    ensures owner != holder
    ensures var world := TwoWorkers(task, at, replicas, a, b);
            var s := HeldBy(world.view, holder, task.operationId);
            Calm(world, s) && Initial(s) && Run(world, s, run, s') && OneTickEach(world, s, run, s')
    ensures holder in s'.finished && task.operationId in s'.finished[holder]
  {
    hide ShardingNode, Calm, Run, OneTickEach, World.Removable, DistinctIgnoringCase;
    owner := ExactlyOneProcessNode(at, {a, b}, [], replicas, task.serviceName);
    holder := if owner == a then b else a;
    var world := TwoWorkers(task, at, replicas, a, b);
    var s := HeldBy({a, b}, holder, task.operationId);
    TwoWorkersCalm(task, at, replicas, a, b, holder);
    run, s' := TicksExist(world, s);
    TaskIsDistinct(task);
    TicksSettle(world, s, run, s', holder, task);
  }

  lemma TaskIsDistinct(task: Task)
    ensures DistinctOperationIds([task])
  {
  }

  /** Convergence of a DELETE task: every worker has run it. */
  lemma DeleteConverges(world: World, s: State, run: seq<Action>, s': State, task: Task, worker: string)
    requires Calm(world, s) && task in world.tasks && task.status == DELETE && worker in world.view
    requires Initial(s) && Run(world, s, run, s') && OneTickEach(world, s, run, s')
    ensures worker in s'.finished && task.operationId in s'.finished[worker]
  {
    TicksSettle(world, s, run, s', worker, task);
  }

  /** The converged state is a fixpoint: no query timer dispatches again, no clean-up timer has anything to remove. */
  lemma ConvergedIsFixpoint(world: World, s: State, run: seq<Action>, s': State, worker: string, task: Task)
    requires Calm(world, s) && task in world.tasks && worker in world.view
    requires Initial(s) && Run(world, s, run, s') && OneTickEach(world, s, run, s')
    ensures worker in s'.finished && HasWorker(s', worker)
    ensures Next(world, s', Query(worker, task)) == s' && task.operationId !in world.Cleaned(worker, s'.finished[worker])
  {
    TicksSettle(world, s, run, s', worker, task);
    FindsItself(world.tasks, task);
  }

  /** A task without an operation id is never held back: every query step of a worker that should run it posts it. */
  lemma NoIdAlwaysPosted(world: World, s: State, worker: string, task: Task)
    requires HasWorker(s, worker) && task in world.tasks && task.operationId == ""
    ensures Next(world, s, Query(worker, task)).handling[worker] ==
            s.handling[worker] + if task.status == DELETE || world.Owns(worker, task) then multiset{task} else multiset{}
  {
    hide World.Owns;
  }

  lemma {:induction false} RunKeepsWorkers(world: World, s: State, run: seq<Action>, s': State)
    requires Run(world, s, run, s')
    ensures s'.finished.Keys == s.finished.Keys
    decreases |run|
  {
    if run != [] {
      assert Next(world, s, run[0]).finished.Keys == s.finished.Keys;
      RunKeepsWorkers(world, Next(world, s, run[0]), run[1..], s');
    }
  }
}
