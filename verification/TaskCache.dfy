/** The local copy of the task list, and the watch responses that keep it honest. */
module TaskCache {
  import opened Common
  import opened Text
  import opened Tasks

  /** The tasks under some ids, last id first. */
  function Descending(store: map<string, Task>, ids: seq<string>): seq<Task>
    requires forall id :: id in ids ==> id in store
  {
    if ids == [] then [] else Descending(store, ids[1..]) + [store[ids[0]]]
  }

  /** The stored tasks as a prefix read returns them: by descending key. */
  function ListOf(store: map<string, Task>): seq<Task>
  {
    AscendingMembers(store.Keys);
    Descending(store, Ascending(store.Keys))
  }

  lemma {:induction false} DescendingMembers(store: map<string, Task>, ids: seq<string>, t: Task)
    requires forall id :: id in ids ==> id in store
    ensures t in Descending(store, ids) <==> exists id :: id in ids && store[id] == t
  {
    if ids != [] {
      DescendingMembers(store, ids[1..], t);
      assert forall id :: id in ids <==> id == ids[0] || id in ids[1..];
    }
  }

  /** The list holds exactly the stored tasks. */
  lemma ListOfMembers(store: map<string, Task>, t: Task)
    ensures t in ListOf(store) <==> exists id :: id in store && store[id] == t
  {
    AscendingMembers(store.Keys);
    DescendingMembers(store, Ascending(store.Keys), t);
  }

  lemma {:induction false} DescendingAt(store: map<string, Task>, ids: seq<string>, k: nat)
    requires (forall id :: id in ids ==> id in store) && k < |ids|
    ensures |Descending(store, ids)| == |ids| && Descending(store, ids)[k] == store[ids[|ids| - 1 - k]]
  {
    assert Descending(store, []) == [];
    if k < |ids| - 1 {
      DescendingAt(store, ids[1..], k);
    } else if |ids| > 1 {
      DescendingAt(store, ids[1..], 0);
    }
  }

  /** The list has every stored task once, in descending order of their keys. */
  lemma ListIsDescending(store: map<string, Task>) returns (keys: seq<string>)
    ensures |keys| == |store| == |ListOf(store)| && (forall id :: id in store <==> id in keys)
    ensures forall k :: 0 <= k < |keys| ==> keys[k] in store && ListOf(store)[k] == store[keys[k]]
    ensures forall i, j :: 0 <= i < j < |keys| ==> Before(keys[j], keys[i])
  {
    hide Before;
    var ids := Ascending(store.Keys);
    AscendingMembers(store.Keys);
    keys := seq(|ids|, k requires 0 <= k < |ids| => ids[|ids| - 1 - k]);
    assert |ListOf(store)| == |ids| by {
      assert Descending(store, []) == [];
      if ids != [] {
        DescendingAt(store, ids, 0);
      }
    }
    forall k | 0 <= k < |ids|
      ensures ListOf(store)[k] == store[keys[k]] && keys[k] in store
    {
      DescendingAt(store, ids, k);
      assert ids[|ids| - 1 - k] in ids;
    }
    forall id | id in store
      ensures id in keys
    {
      var i :| 0 <= i < |ids| && ids[i] == id;
      assert keys[|ids| - 1 - i] == id;
    }
    forall i, j | 0 <= i < j < |keys|
      ensures Before(keys[j], keys[i])
    {
      AscendingSorted(store.Keys, |ids| - 1 - j, |ids| - 1 - i);
    }
  }

  /** With distinct operation ids, the lookup over the list is the lookup in the store. */
  lemma FindInStore(store: map<string, Task>, id: string)
    requires id in store
    requires forall i, j :: i in store && j in store && store[i].operationId == store[j].operationId ==> i == j
    ensures FindByOperationId(ListOf(store), store[id].operationId) == Some(store[id])
  {
    ListOfMembers(store, store[id]);
    var found := FindByOperationId(ListOf(store), store[id].operationId);
    ListOfMembers(store, found.value);
  }

  // ----- The state machine: etcd, the watch stream of one worker, and that worker's cache -----

  datatype EventType = PUT | DELETE | UNRECOGNIZED

  /**
   * `queue` is the watch events not yet delivered; `loading` the value a load in progress has read, where nothing
   * stands for a failed read. Loading excludes invalidation: the cache computes and removes a key atomically.
   */
  datatype State = State(store: map<string, Task>, watching: bool, queue: seq<EventType>,
                         cache: Option<seq<Task>>, loading: Option<Option<seq<Task>>>)

  datatype Action =
    | Put(task: Task)
    | DeleteKey(taskId: string)
    | StartWatch
    | Deliver(events: nat)
    | StartLoad(fails: bool)
    | FinishLoad
    | Evict

  predicate Enabled(s: State, a: Action)
  {
    match a
    case StartWatch => !s.watching
    case Deliver(n) => n <= |s.queue| && s.loading.None?
    case StartLoad(_) => s.cache.None? && s.loading.None?
    case FinishLoad => s.loading.Some?
    case Evict => s.loading.None?
    case _ => true
  }

  /** What can happen when: one load at a time and only without a copy, and no delivery or eviction during a load. */
  lemma EnabledIs(s: State, task: Task, id: string, n: nat, fails: bool)
    ensures Enabled(s, Put(task)) && Enabled(s, DeleteKey(id))
    ensures Enabled(s, StartWatch) <==> !s.watching
    ensures Enabled(s, Deliver(n)) <==> n <= |s.queue| && s.loading == None
    ensures Enabled(s, StartLoad(fails)) <==> s.cache == None && s.loading == None
    ensures Enabled(s, FinishLoad) <==> s.loading != None
    ensures Enabled(s, Evict) <==> s.loading == None
  {
  }

  predicate Invalidates(events: seq<EventType>)
  {
    exists e :: e in events && (e == PUT || e == EventType.DELETE)
  }

  function Notify(s: State, e: EventType): State
  {
    if s.watching then s.(queue := s.queue + [e]) else s
  }

  function Next(s: State, a: Action): State
    requires Enabled(s, a)
  {
    match a
    case Put(task) => Notify(s.(store := s.store[task.taskId := task]), PUT)
    case DeleteKey(id) => if id in s.store then Notify(s.(store := s.store - {id}), EventType.DELETE) else s
    case StartWatch => s.(watching := true)
    case Deliver(n) =>
      s.(queue := s.queue[n..], cache := if Invalidates(s.queue[..n]) then None else s.cache)
    case StartLoad(fails) => s.(loading := Some(if fails then None else Some(ListOf(s.store))))
    case FinishLoad => s.(loading := None, cache := s.loading.value)
    case Evict => s.(cache := None)
  }

  /**
   * Every change of the store that happens while the watch is established becomes one event, and nothing else does;
   * loads read the store or fail, and only deliveries, loads and evictions touch the copy.
   */
  lemma StepEffects(s: State, a: Action)
    requires Enabled(s, a)
    ensures var s' := Next(s, a);
            && (a.Put? ==> s'.store.Keys == s.store.Keys + {a.task.taskId} && s'.store[a.task.taskId] == a.task
                           && s'.store - {a.task.taskId} == s.store - {a.task.taskId})
            && (a.DeleteKey? ==> s'.store == s.store - {a.taskId})
            && (!a.Put? && !a.DeleteKey? ==> s'.store == s.store)
            && (!a.Deliver? ==> s'.queue == s.queue + if !s.watching then []
                                                      else if a.Put? then [PUT]
                                                      else if a.DeleteKey? && a.taskId in s.store then [EventType.DELETE]
                                                      else [])
            && (s'.watching <==> s.watching || a.StartWatch?)
    ensures var s' := Next(s, a);
            && (a.Deliver? ==>
                  && s.queue[..a.events] + s'.queue == s.queue
                  && s'.cache == if exists k :: 0 <= k < a.events && s.queue[k] != UNRECOGNIZED then None else s.cache)
            && (s'.loading == if a.FinishLoad? then None
                              else if !a.StartLoad? then s.loading
                              else if a.fails then Some(None) else Some(Some(ListOf(s.store))))
            && (a.FinishLoad? ==> s'.cache == s.loading.value)
            && (a.Evict? ==> s'.cache == None)
            && (!a.Deliver? && !a.FinishLoad? && !a.Evict? ==> s'.cache == s.cache)
  {
    if a.Deliver? {
      assert forall k :: 0 <= k < a.events ==> s.queue[..a.events][k] == s.queue[k];
      assert forall k :: 0 <= k < a.events ==> s.queue[k] in s.queue[..a.events];
    }
  }

  predicate Reaches(s: State, run: seq<Action>, s': State)
    decreases |run|
  {
    if run == [] then s' == s else Enabled(s, run[0]) && Reaches(Next(s, run[0]), run[1..], s')
  }

  predicate Fresh(s: State, list: seq<Task>)
  {
    list == ListOf(s.store)
  }

  /** A copy of the task list that differs from the store is about to be invalidated. */
  predicate Coherent(s: State)
  {
    && s.watching
    && (forall e :: e in s.queue ==> e == PUT || e == EventType.DELETE)
    && (s.cache.Some? && !Fresh(s, s.cache.value) ==> s.queue != [])
    && (s.loading.Some? && s.loading.value.Some? && !Fresh(s, s.loading.value.value) ==> s.queue != [])
  }

  lemma CoherentStep(s: State, a: Action)
    requires Coherent(s) && Enabled(s, a)
    ensures Coherent(Next(s, a))
  {
    if a.Deliver? {
      assert forall e :: e in s.queue[a.events..] ==> e in s.queue;
      if a.events > 0 {
        assert s.queue[0] in s.queue && s.queue[0] in s.queue[..a.events];
        assert Invalidates(s.queue[..a.events]);
      } else {
        assert s.queue[0..] == s.queue;
      }
    }
  }

  lemma {:induction false} CoherentRuns(s: State, run: seq<Action>, s': State)
    requires Coherent(s) && Reaches(s, run, s')
    ensures Coherent(s')
    decreases |run|
  {
    if run != [] {
      CoherentStep(s, run[0]);
      CoherentRuns(Next(s, run[0]), run[1..], s');
    }
  }

  ghost predicate StaysCoherent(s: State)
  {
    forall run, s' :: Reaches(s, run, s') ==> Coherent(s')
  }

  /** What a lookup computes on: the cached list, or a fresh read. */
  function LookupList(s: State): seq<Task>
  {
    if s.cache.Some? then s.cache.value else ListOf(s.store)
  }

  /**
   * The watch keeps every later state coherent exactly when, at the moment it is established, no stale copy
   * is cached or being loaded.
   */
  lemma WatchKeepsCoherent(s: State)
    requires Enabled(s, StartWatch) && s.queue == []
    ensures StaysCoherent(Next(s, StartWatch)) <==>
            (s.cache.Some? ==> Fresh(s, s.cache.value))
            && (s.loading.Some? && s.loading.value.Some? ==> Fresh(s, s.loading.value.value))
  {
    var started := Next(s, StartWatch);
    if (s.cache.Some? ==> Fresh(s, s.cache.value))
       && (s.loading.Some? && s.loading.value.Some? ==> Fresh(s, s.loading.value.value)) {
      assert Coherent(started);
      forall run, s' | Reaches(started, run, s') ensures Coherent(s') {
        CoherentRuns(started, run, s');
      }
    } else {
      assert Reaches(started, [], started) && !Coherent(started);
    }
  }

  /** If the watch preceded the first load and all events are delivered, lookups over the cache are those over the store. */
  lemma DeliveredMeansExact(s: State, run: seq<Action>, s': State, operationId: string, serviceName: string)
    requires !s.watching && s.queue == [] && s.cache.None? && s.loading.None?
    requires Reaches(Next(s, StartWatch), run, s') && s'.queue == []
    ensures LookupList(s') == ListOf(s'.store)
    ensures FindByOperationId(LookupList(s'), operationId) == FindByOperationId(ListOf(s'.store), operationId)
    ensures FindByServiceName(LookupList(s'), serviceName) == FindByServiceName(ListOf(s'.store), serviceName)
  {
    WatchKeepsCoherent(s);
    assert StaysCoherent(Next(s, StartWatch));
    assert Coherent(s');
  }

  /** The list was the stored one at some point of the run. */
  ghost predicate StoredDuring(s: State, run: seq<Action>, list: seq<Task>)
  {
    exists n, u :: 0 <= n <= |run| && Reaches(s, run[..n], u) && Fresh(u, list)
  }

  /** Whatever is cached was read from the store during the run: what a failed load answers is never cached. */
  lemma {:induction false} CachedWasStored(s: State, run: seq<Action>, s': State, list: seq<Task>)
    requires Reaches(s, run, s')
    requires s'.cache == Some(list) || s'.loading == Some(Some(list))
    ensures s.cache == Some(list) || s.loading == Some(Some(list)) || StoredDuring(s, run, list)
    decreases |run|
  {
    if run != [] {
      var next, rest := Next(s, run[0]), run[1..];
      CachedWasStored(next, rest, s', list);
      if StoredDuring(next, rest, list) {
        var n, u :| 0 <= n <= |rest| && Reaches(next, rest[..n], u) && Fresh(u, list);
        ReachesCons(s, run[0], rest[..n], u);
        assert [run[0]] + rest[..n] == run[..n + 1];
      } else if run[0].StartLoad? {
        assert run[..0] == [];
        assert Reaches(s, run[..0], s);
        assert Fresh(s, list) ==> StoredDuring(s, run, list);
      }
    }
  }

  /** Nothing but loads and watch deliveries: the store does not change again, and the cache evicts nothing. */
  predicate Quiet(run: seq<Action>)
  {
    forall a :: a in run ==> a.StartWatch? || a.Deliver? || a.StartLoad? || a.FinishLoad?
  }

  lemma {:induction false} StaleStays(s: State, run: seq<Action>, s': State)
    requires s.queue == [] && s.cache.Some? && s.loading.None? && Quiet(run) && Reaches(s, run, s')
    ensures s'.store == s.store && s'.cache == s.cache
    decreases |run|
  {
    if run != [] {
      assert run[0] in run;
      StaleStays(Next(s, run[0]), run[1..], s');
    }
  }

  /** A load that precedes the watch can leave a copy that no delivery and no load will ever replace. */
  lemma LateWatchGoesStale(t: Task) returns (run: seq<Action>, s: State)
    ensures Reaches(State(map[], false, [], None, None), run, s)
    ensures s.watching && s.queue == [] && LookupList(s) != ListOf(s.store)
    ensures forall rest, s' :: Quiet(rest) && Reaches(s, rest, s') ==> LookupList(s') != ListOf(s'.store)
  {
    var s0 := State(map[], false, [], None, None);
    var s1 := Next(s0, StartLoad(false));
    var s2 := Next(s1, FinishLoad);
    var s3 := Next(s2, Put(t));
    s := Next(s3, StartWatch);
    run := [StartLoad(false)] + ([FinishLoad] + ([Put(t)] + [StartWatch]));
    assert Reaches(s, [], s);
    ReachesCons(s3, StartWatch, [], s);
    ReachesCons(s2, Put(t), [StartWatch], s);
    ReachesCons(s1, FinishLoad, [Put(t)] + [StartWatch], s);
    ReachesCons(s0, StartLoad(false), [FinishLoad] + ([Put(t)] + [StartWatch]), s);
    assert [StartWatch] == [StartWatch] + [];
    assert t.taskId in s.store && s.store[t.taskId] == t;
    ListOfMembers(s.store, t);
    ListOfMembers(s0.store, t);
    forall rest, s' | Quiet(rest) && Reaches(s, rest, s')
      ensures LookupList(s') != ListOf(s'.store)
    {
      StaleStays(s, rest, s');
    }
  }

  lemma ReachesCons(s: State, a: Action, rest: seq<Action>, s': State)
    requires Enabled(s, a) && Reaches(Next(s, a), rest, s')
    ensures Reaches(s, [a] + rest, s')
  {
    assert ([a] + rest)[1..] == rest;
  }

  // ----- TaskAccessService over CaffeineUtil, EtcdWatchService -----

  const ETCD_TASK_CAFFEINE := "cache:sloar-nacos-task"

  class TaskAccessService {
    /** the tasks in etcd */
    var store: map<string, Task>
    /** CaffeineUtil's cache */
    var cache: map<string, seq<Task>>

    constructor ()
      ensures store == map[] && cache == map[]
    {
      store, cache := map[], map[];
    }

    /** The cache entry as the state machine above sees it. */
    function Cached(): Option<seq<Task>>
      reads this
    {
      if ETCD_TASK_CAFFEINE in cache then Some(cache[ETCD_TASK_CAFFEINE]) else None
    }

    /** buildTaskCaffeineCache; `fails` says that reading etcd fails, should it come to that. */
    method BuildTaskCaffeineCache(fails: bool) returns (list: seq<Task>)
      modifies this`cache
      ensures old(Cached()).Some? ==> list == old(Cached()).value && cache == old(cache)
      ensures old(Cached()).None? && fails ==> list == [] && cache == old(cache)
      ensures old(Cached()).None? && !fails ==> list == ListOf(store) && Cached() == Some(list)
      ensures cache - {ETCD_TASK_CAFFEINE} == old(cache) - {ETCD_TASK_CAFFEINE}
    {
      if ETCD_TASK_CAFFEINE in cache {
        return cache[ETCD_TASK_CAFFEINE];
      }
      if fails {
        return [];
      }
      list := ListOf(store);
      cache := cache[ETCD_TASK_CAFFEINE := list];
    }

    /** watchTaskKey's callback on one response: the first change event invalidates the task list. */
    method OnWatchResponse(events: seq<EventType>)
      modifies this`cache
      ensures Cached() == if exists k :: 0 <= k < |events| && events[k] != UNRECOGNIZED then None else old(Cached())
      ensures cache - {ETCD_TASK_CAFFEINE} == old(cache) - {ETCD_TASK_CAFFEINE}
    {
      for i := 0 to |events|
        invariant forall k :: 0 <= k < i ==> events[k] == UNRECOGNIZED
      {
        if events[i] == PUT || events[i] == EventType.DELETE {
          cache := cache - {ETCD_TASK_CAFFEINE};
          return;
        }
      }
    }

    method AddTask(task: Task)
      modifies this`store
      ensures store == old(store)[task.taskId := task]
    {
      store := store[task.taskId := task];
    }

    method DeleteTaskById(taskId: string) returns (deleted: nat)
      modifies this`store
      ensures store == old(store) - {taskId}
      ensures deleted == if taskId in old(store) then 1 else 0
    {
      deleted := if taskId in store then 1 else 0;
      store := store - {taskId};
    }

    /** True exactly when every id was stored and none is repeated. */
    method DeleteTaskInBatch(taskIds: seq<string>) returns (all: bool)
      modifies this`store
      ensures store == old(store) - set id | id in taskIds
      ensures all <==> (forall id :: id in taskIds ==> id in old(store))
                       && (forall i, j :: 0 <= i < j < |taskIds| ==> taskIds[i] != taskIds[j])
    {
      var affectCount: nat := 0;
      for i := 0 to |taskIds|
        invariant store == old(store) - set id | id in taskIds[..i]
        invariant affectCount <= i
        invariant affectCount == i <==> (forall k :: 0 <= k < i ==> taskIds[k] in old(store))
                                        && (forall k, l :: 0 <= k < l < i ==> taskIds[k] != taskIds[l])
      {
        var deleted := DeleteTaskById(taskIds[i]);
        affectCount := affectCount + deleted;
        assert taskIds[..i + 1] == taskIds[..i] + [taskIds[i]];
        assert deleted == 1 <==> taskIds[i] in old(store) && forall k :: 0 <= k < i ==> taskIds[k] != taskIds[i];
      }
      assert taskIds[..|taskIds|] == taskIds;
      return affectCount == |taskIds|;
    }
  }
}
