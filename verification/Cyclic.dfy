/**
 * Any graph of Nacos-to-Nacos tasks, cycles included: copies never echo. The passes are those of NacosToNacos;
 * originals come and go at their home cluster while passes, single steps of passes on lists that are out of date, new
 * tasks and task deletions interleave.
 */
module Cyclic {
  import opened Common
  import opened Tasks
  import opened Registry
  import opened NacosToNacos

  /** One cluster holds one service's instances; tasks are the edges of the graph. */
  datatype State = State(clusters: map<string, Instances>, tasks: set<Task>, past: set<Listing>)

  /** An entry that a cluster listed at some time: what a pass in progress may still act on. */
  datatype Listing = Listing(cluster: string, instance: Instance)

  /** A pass is either run as a whole, or step by step on lists that may be out of date. */
  datatype Action =
    | Register(original: Instance)
    | Deregister(at: Address)
    | RunPass(task: Task)
    | CopyOne(task: Task, listed: Instance)
    | DropOne(task: Task, listed: Instance)
    | AddTask(task: Task)
    | RemoveTask(task: Task)

  /** Each address belongs to one cluster. */
  type Home = Address -> string

  function ContentOf(s: State, cluster: string): Instances
  {
    if cluster in s.clusters then s.clusters[cluster] else map[]
  }

  /** Cluster ids are MD5 strings, so never blank; a task does not copy a cluster onto itself. */
  predicate ProperTask(task: Task)
  {
    !IsBlank(task.sourceClusterId) && task.sourceClusterId != task.destClusterId
  }

  predicate Enabled(s: State, a: Action)
  {
    match a
    case Register(original) => original.metadata.sourceClusterId == None
    case Deregister(_) => true
    case RunPass(task) => task in s.tasks
    case CopyOne(task, i) => task in s.tasks && Listing(task.sourceClusterId, i) in s.past && NeedSync(i.metadata)
    case DropOne(task, i) => task in s.tasks && Listing(task.destClusterId, i) in s.past && NeedDelete(i.metadata, task)
    case AddTask(task) => ProperTask(task)
    case RemoveTask(task) => task in s.tasks
  }

  /** The state with what one cluster now holds, which can be listed from here on. */
  function WithContent(s: State, cluster: string, content: Instances): State
  {
    s.(clusters := s.clusters[cluster := content],
       past := s.past + set a | a in content :: Listing(cluster, content[a]))
  }

  function PassIn(s: State, task: Task): State
  {
    WithContent(s, task.destClusterId,
                Pass(ContentOf(s, task.sourceClusterId), ContentOf(s, task.destClusterId), task, "NACOS"))
  }

  /** A task is removed by deleting it at its destination; tasks with the same ends are one. */
  function Next(home: Home, s: State, a: Action): State
    requires Enabled(s, a)
  {
    match a
    case Register(original) =>
      var c := home(original.At());
      WithContent(s, c, ContentOf(s, c)[original.At() := original])
    case Deregister(at) =>
      var c := home(at);
      WithContent(s, c, ContentOf(s, c) - {at})
    case RunPass(task) => PassIn(s, task)
    case CopyOne(task, i) =>
      var c := task.destClusterId;
      WithContent(s, c, ContentOf(s, c)[i.At() := BuildSyncInstance(i, task, "NACOS")])
    case DropOne(task, i) =>
      var c := task.destClusterId;
      WithContent(s, c, ContentOf(s, c) - {i.At()})
    case AddTask(task) => s.(tasks := s.tasks + {task})
    case RemoveTask(task) =>
      var c := task.destClusterId;
      WithContent(s, c, Delete(ContentOf(s, c), task)).(tasks := set t | t in s.tasks && !SameEnds(t, task))
  }

  predicate SameEnds(t: Task, u: Task)
  {
    t.sourceClusterId == u.sourceClusterId && t.destClusterId == u.destClusterId
  }

  ghost predicate Reaches(home: Home, s: State, run: seq<Action>, s': State)
    decreases |run|
  {
    if run == [] then s' == s else Enabled(s, run[0]) && Reaches(home, Next(home, s, run[0]), run[1..], s')
  }

  const INITIAL := State(map[], {}, {})

  ghost predicate CopiedBy(s: State, source: string, dest: string)
  {
    exists t :: t in s.tasks && t.sourceClusterId == source && t.destClusterId == dest
  }

  /** At home an entry is an original; anywhere else it is a copy tagged with its home, made by a task from there. */
  ghost predicate Placed(home: Home, s: State, cluster: string, a: Address, i: Instance)
  {
    && i.At() == a
    && if home(a) == cluster
       then i.metadata.sourceClusterId == None
       else i.metadata.sourceClusterId == Some(home(a)) && CopiedBy(s, home(a), cluster)
  }

  /** At home an entry was untagged whenever it was listed; anywhere else it carried its home's id. */
  predicate WasTagged(home: Home, l: Listing)
  {
    var h := home(l.instance.At());
    if h == l.cluster then l.instance.metadata.sourceClusterId == None
    else l.instance.metadata.sourceClusterId == Some(h) && !IsBlank(h)
  }

  ghost predicate Inv(home: Home, s: State)
  {
    && (forall l :: l in s.past ==> WasTagged(home, l))
    && (forall t :: t in s.tasks ==> ProperTask(t))
    && (forall c, a :: a in ContentOf(s, c) ==> Placed(home, s, c, a, ContentOf(s, c)[a]))
  }

  /** What a pass may copy is exactly what is at home in the source. */
  lemma WantedIsHome(home: Home, s: State, task: Task)
    requires Inv(home, s) && task in s.tasks
    ensures Wanted(ContentOf(s, task.sourceClusterId), task, "NACOS").Keys ==
            set a | a in ContentOf(s, task.sourceClusterId) && home(a) == task.sourceClusterId
  {
    var source := ContentOf(s, task.sourceClusterId);
    forall a | a in source
      ensures NeedSync(source[a].metadata) <==> home(a) == task.sourceClusterId
    {
      assert Placed(home, s, task.sourceClusterId, a, source[a]);
      if home(a) != task.sourceClusterId {
        var t :| t in s.tasks && t.sourceClusterId == home(a) && t.destClusterId == task.sourceClusterId;
        assert ProperTask(t);
      }
    }
  }

  lemma PassKeepsPlaced(home: Home, s: State, task: Task, c: string, a: Address)
    requires Inv(home, s) && task in s.tasks && a in ContentOf(PassIn(s, task), c)
    ensures Placed(home, PassIn(s, task), c, a, ContentOf(PassIn(s, task), c)[a])
  {
    assert forall x, y :: CopiedBy(s, x, y) <==> CopiedBy(PassIn(s, task), x, y);
    if c == task.destClusterId {
      WantedIsHome(home, s, task);
      var source, dest := ContentOf(s, task.sourceClusterId), ContentOf(s, c);
      PassAt(source, dest, task, "NACOS", a);
      if a in Wanted(source, task, "NACOS") {
        assert Placed(home, s, task.sourceClusterId, a, source[a]);
        assert ProperTask(task);
      } else {
        assert Placed(home, s, c, a, dest[a]);
      }
    } else {
      assert Placed(home, s, c, a, ContentOf(s, c)[a]);
    }
  }

  lemma RemoveKeepsPlaced(home: Home, s: State, task: Task, c: string, a: Address)
    requires Inv(home, s) && task in s.tasks && a in ContentOf(Next(home, s, RemoveTask(task)), c)
    ensures Placed(home, Next(home, s, RemoveTask(task)), c, a, ContentOf(Next(home, s, RemoveTask(task)), c)[a])
  {
    var s' := Next(home, s, RemoveTask(task));
    var i := ContentOf(s, c)[a];
    assert ContentOf(s', c)[a] == i && Placed(home, s, c, a, i);
    if home(a) != c {
      var t :| t in s.tasks && t.sourceClusterId == home(a) && t.destClusterId == c;
      if SameEnds(t, task) {
        assert NeedDelete(i.metadata, task);
      }
      assert t in s'.tasks;
    }
  }

  lemma PlacedStep(home: Home, s: State, a: Action, c: string, x: Address)
    requires Inv(home, s) && Enabled(s, a) && x in ContentOf(Next(home, s, a), c)
    ensures Placed(home, Next(home, s, a), c, x, ContentOf(Next(home, s, a), c)[x])
  {
    if a.RunPass? {
      PassKeepsPlaced(home, s, a.task, c, x);
    } else if a.RemoveTask? {
      RemoveKeepsPlaced(home, s, a.task, c, x);
    } else {
      CopiedByGrows(home, s, a);
      assert a.CopyOne? ==> WasTagged(home, Listing(a.task.sourceClusterId, a.listed));
      if x in ContentOf(s, c) {
        assert Placed(home, s, c, x, ContentOf(s, c)[x]);
      }
    }
  }

  /** What can be listed anew after a step is in some cluster then. */
  lemma NewlyListed(home: Home, s: State, a: Action, l: Listing) returns (x: Address)
    requires Enabled(s, a) && l in Next(home, s, a).past && l !in s.past
    ensures x in ContentOf(Next(home, s, a), l.cluster) && ContentOf(Next(home, s, a), l.cluster)[x] == l.instance
  {
    var s' := Next(home, s, a);
    assert s'.past == s.past || exists c :: s'.past == WithContent(s, c, ContentOf(s', c)).past by {
      OneClusterWritten(home, s, a);
    }
    var c :| s'.past == WithContent(s, c, ContentOf(s', c)).past;
    x :| x in ContentOf(s', c) && Listing(c, ContentOf(s', c)[x]) == l;
  }

  lemma OneClusterWritten(home: Home, s: State, a: Action)
    requires Enabled(s, a)
    ensures var s' := Next(home, s, a);
            s'.past == s.past || exists c :: s'.past == WithContent(s, c, ContentOf(s', c)).past
  {
    hide Enabled;
    var s' := Next(home, s, a);
    if !a.AddTask? {
      var c := match a
        case Register(original) => home(original.At())
        case Deregister(at) => home(at)
        case AddTask(_) => ""
        case _ => a.task.destClusterId;
      assert s'.past == WithContent(s, c, ContentOf(s', c)).past;
    }
  }

  lemma InvStep(home: Home, s: State, a: Action)
    requires Inv(home, s) && Enabled(s, a)
    ensures Inv(home, Next(home, s, a))
  {
    hide Next, IsBlank;
    var s' := Next(home, s, a);
    TasksProper(home, s, a);
    forall c, x | x in ContentOf(s', c)
      ensures Placed(home, s', c, x, ContentOf(s', c)[x])
    {
      PlacedStep(home, s, a, c, x);
    }
    forall l | l in s'.past
      ensures WasTagged(home, l)
    {
      if l !in s.past {
        var x := NewlyListed(home, s, a, l);
        assert Placed(home, s', l.cluster, x, l.instance);
      }
    }
  }

  lemma TasksProper(home: Home, s: State, a: Action)
    requires Inv(home, s) && Enabled(s, a)
    ensures forall t :: t in Next(home, s, a).tasks ==> ProperTask(t)
  {
  }

  lemma CopiedByGrows(home: Home, s: State, a: Action)
    requires Enabled(s, a) && !a.RemoveTask?
    ensures forall x, y :: CopiedBy(s, x, y) ==> CopiedBy(Next(home, s, a), x, y)
  {
    assert s.tasks <= Next(home, s, a).tasks;
  }

  lemma {:induction false} InvOverRuns(home: Home, s: State, run: seq<Action>, s': State)
    requires Inv(home, s) && Reaches(home, s, run, s')
    ensures Inv(home, s')
    decreases |run|
  {
    if run != [] {
      InvStep(home, s, run[0]);
      InvOverRuns(home, Next(home, s, run[0]), run[1..], s');
    }
  }

  // ----- What the steps do -----

  ghost predicate SameAt(m: Instances, n: Instances, a: Address)
  {
    (a in m <==> a in n) && (a in m ==> m[a] == n[a])
  }

  /** An original is put down or taken away at home; a task touches its destination only. */
  lemma StepEffects(home: Home, s: State, a: Action, c: string, x: Address)
    requires Enabled(s, a)
    ensures var was, now := ContentOf(s, c), ContentOf(Next(home, s, a), c);
            match a
            case Register(original) =>
              if c == home(x) && x == original.At() then x in now && now[x] == original else SameAt(was, now, x)
            case Deregister(at) => if c == home(x) && x == at then x !in now else SameAt(was, now, x)
            case RunPass(task) =>
              now == if c == task.destClusterId then Pass(ContentOf(s, task.sourceClusterId), was, task, "NACOS") else was
            case CopyOne(task, i) =>
              if c == task.destClusterId && x == i.At()
              then x in now && now[x].(metadata := i.metadata) == i && Marked(now[x].metadata, i.metadata, task, "NACOS")
              else SameAt(was, now, x)
            case DropOne(task, i) => if c == task.destClusterId && x == i.At() then x !in now else SameAt(was, now, x)
            case AddTask(_) => now == was
            case RemoveTask(task) =>
              if c == task.destClusterId && x in was && was[x].metadata.sourceClusterId == Some(task.sourceClusterId)
              then x !in now else SameAt(was, now, x)
  {
  }

  /** What can happen when: only steps of passes need anything to have been listed. */
  lemma EnabledIs(s: State, task: Task, i: Instance, at: Address)
    ensures Enabled(s, Register(i)) <==> i.metadata.sourceClusterId.None?
    ensures Enabled(s, Deregister(at))
    ensures Enabled(s, AddTask(task)) <==>
            task.sourceClusterId != task.destClusterId
            && exists k :: 0 <= k < |task.sourceClusterId| && !IsWhitespace(task.sourceClusterId[k])
    ensures Enabled(s, RunPass(task)) <==> task in s.tasks
    ensures Enabled(s, RemoveTask(task)) <==> task in s.tasks
    ensures Enabled(s, CopyOne(task, i)) <==>
            task in s.tasks && Listing(task.sourceClusterId, i) in s.past
            && (i.metadata.sourceClusterId.Some? ==> IsBlank(i.metadata.sourceClusterId.value))
    ensures Enabled(s, DropOne(task, i)) <==>
            task in s.tasks && Listing(task.destClusterId, i) in s.past
            && i.metadata.sourceClusterId == Some(task.sourceClusterId)
  {
    hide IsWhitespace;
  }

  /** Tasks come and go one edge of the graph at a time. */
  lemma StepTasks(home: Home, s: State, a: Action, t: Task)
    requires Enabled(s, a)
    ensures t in Next(home, s, a).tasks <==>
            match a
            case AddTask(task) => t in s.tasks || t == task
            case RemoveTask(task) =>
              t in s.tasks && (t.sourceClusterId != task.sourceClusterId || t.destClusterId != task.destClusterId)
            case _ => t in s.tasks
  {
  }

  /** Everything a cluster holds, or has held, can be listed. */
  lemma {:induction false} HeldIsListed(home: Home, s: State, run: seq<Action>, s': State, c: string, x: Address)
    requires Reaches(home, s, run, s')
    requires forall d, y :: y in ContentOf(s, d) ==> Listing(d, ContentOf(s, d)[y]) in s.past
    ensures s.past <= s'.past
    ensures x in ContentOf(s', c) ==> Listing(c, ContentOf(s', c)[x]) in s'.past
    decreases |run|
  {
    hide Enabled;
    if run != [] {
      var next := Next(home, s, run[0]);
      forall d, y | y in ContentOf(next, d)
        ensures Listing(d, ContentOf(next, d)[y]) in next.past
      {
        StepLists(home, s, run[0], d, y);
      }
      assert s.past <= next.past;
      hide Next, ContentOf;
      HeldIsListed(home, next, run[1..], s', c, x);
    }
  }

  lemma StepLists(home: Home, s: State, a: Action, d: string, y: Address)
    requires Enabled(s, a) && y in ContentOf(Next(home, s, a), d)
    requires y in ContentOf(s, d) ==> Listing(d, ContentOf(s, d)[y]) in s.past
    ensures Listing(d, ContentOf(Next(home, s, a), d)[y]) in Next(home, s, a).past
  {
    hide Pass, Delete, BuildSyncInstance, NeedSync, NeedDelete;
  }

  // ----- Results -----

  /**
   * In every reachable state, an instance away from home is tagged with its home cluster and a task from there made
   * it; an instance at home is an untagged original.
   */
  lemma TagsNameHome(home: Home, run: seq<Action>, s: State, c: string, a: Address)
    requires Reaches(home, INITIAL, run, s) && a in ContentOf(s, c)
    ensures home(a) == c ==> ContentOf(s, c)[a].metadata.sourceClusterId == None
    ensures home(a) != c ==> ContentOf(s, c)[a].metadata.sourceClusterId == Some(home(a)) && CopiedBy(s, home(a), c)
  {
    InvOverRuns(home, INITIAL, run, s);
    assert Placed(home, s, c, a, ContentOf(s, c)[a]);
  }

  /** No pass alters an original, and whatever it puts down is a tagged copy of an untagged entry of its source. */
  lemma PassSparesOriginals(home: Home, run: seq<Action>, s: State, task: Task, c: string, a: Address)
    requires Reaches(home, INITIAL, run, s) && task in s.tasks
    ensures home(a) == c ==>
              && (a in ContentOf(PassIn(s, task), c) <==> a in ContentOf(s, c))
              && (a in ContentOf(s, c) ==> ContentOf(PassIn(s, task), c)[a] == ContentOf(s, c)[a])
    ensures a in ContentOf(PassIn(s, task), c)
            && (a in ContentOf(s, c) ==> ContentOf(PassIn(s, task), c)[a] != ContentOf(s, c)[a]) ==>
              && c == task.destClusterId && home(a) == task.sourceClusterId
              && a in ContentOf(s, home(a)) && ContentOf(s, home(a))[a].metadata.sourceClusterId == None
              && ContentOf(PassIn(s, task), c)[a] == BuildSyncInstance(ContentOf(s, home(a))[a], task, "NACOS")
  {
    InvOverRuns(home, INITIAL, run, s);
    assert ProperTask(task);
    if c == task.destClusterId {
      WantedIsHome(home, s, task);
      PassAt(ContentOf(s, task.sourceClusterId), ContentOf(s, c), task, "NACOS", a);
      if a in ContentOf(s, c) {
        assert Placed(home, s, c, a, ContentOf(s, c)[a]);
      }
      if a in ContentOf(s, task.sourceClusterId) {
        assert Placed(home, s, task.sourceClusterId, a, ContentOf(s, task.sourceClusterId)[a]);
      }
    }
  }

  /** The same for a single step of a pass, however old the lists are that it acts on. */
  lemma StepSparesOriginals(home: Home, run: seq<Action>, s: State, a: Action, c: string, at: Address)
    requires Reaches(home, INITIAL, run, s) && Enabled(s, a) && (a.CopyOne? || a.DropOne?)
    ensures var s' := Next(home, s, a);
            && (home(at) == c ==>
                  && (at in ContentOf(s', c) <==> at in ContentOf(s, c))
                  && (at in ContentOf(s, c) ==> ContentOf(s', c)[at] == ContentOf(s, c)[at]))
            && (at in ContentOf(s', c) && (at in ContentOf(s, c) ==> ContentOf(s', c)[at] != ContentOf(s, c)[at]) ==>
                  && c == a.task.destClusterId && home(at) == a.task.sourceClusterId
                  && a.listed.metadata.sourceClusterId == None)
  {
    InvOverRuns(home, INITIAL, run, s);
    assert ProperTask(a.task);
    assert a.CopyOne? ==> WasTagged(home, Listing(a.task.sourceClusterId, a.listed));
    assert a.DropOne? ==> WasTagged(home, Listing(a.task.destClusterId, a.listed));
  }

  // ----- Quiescence: passes only -----

  /** The state after running the passes in order. */
  function Passes(s: State, tasks: seq<Task>): State
  {
    if tasks == [] then s else PassIn(Passes(s, tasks[..|tasks| - 1]), tasks[|tasks| - 1])
  }

  ghost predicate Original(home: Home, s: State, a: Address)
  {
    a in ContentOf(s, home(a))
  }

  lemma {:induction false} PassesKeepOriginals(home: Home, s: State, tasks: seq<Task>, c: string, a: Address)
    requires Inv(home, s) && forall t :: t in tasks ==> t in s.tasks
    ensures Inv(home, Passes(s, tasks)) && Passes(s, tasks).tasks == s.tasks
    ensures home(a) == c ==>
              && (a in ContentOf(Passes(s, tasks), c) <==> a in ContentOf(s, c))
              && (a in ContentOf(s, c) ==> ContentOf(Passes(s, tasks), c)[a] == ContentOf(s, c)[a])
  {
    if tasks != [] {
      var rest, last := tasks[..|tasks| - 1], tasks[|tasks| - 1];
      PassesKeepOriginals(home, s, rest, c, a);
      var s1 := Passes(s, rest);
      assert last in tasks && forall t :: t in rest ==> t in tasks;
      InvStep(home, s1, RunPass(last));
      WantedIsHome(home, s1, last);
      assert ProperTask(last);
      PassAt(ContentOf(s1, last.sourceClusterId), ContentOf(s1, last.destClusterId), last, "NACOS", a);
      if c == last.destClusterId && a in ContentOf(s1, c) {
        assert Placed(home, s1, c, a, ContentOf(s1, c)[a]);
      }
    }
  }

  /** A copy as the task makes it: the original, with the task's tags. */
  ghost predicate Mirrors(copy: Instance, original: Instance, task: Task)
  {
    copy.(metadata := original.metadata) == original && Marked(copy.metadata, original.metadata, task, "NACOS")
  }

  lemma WantedMirrors(source: Instances, last: Task, task: Task, a: Address)
    requires SameEnds(last, task) && a in Wanted(source, last, "NACOS")
    ensures Mirrors(Wanted(source, last, "NACOS")[a], source[a], task)
  {
  }

  /** Running some passes decides every entry away from home whose task was among them. */
  lemma {:induction false} PassesSettle(home: Home, s: State, tasks: seq<Task>, task: Task, a: Address)
    requires Inv(home, s) && (forall t :: t in tasks ==> t in s.tasks) && task in tasks
    requires home(a) == task.sourceClusterId
    ensures a in ContentOf(Passes(s, tasks), task.destClusterId) <==> Original(home, s, a)
    ensures Original(home, s, a) ==>
              Mirrors(ContentOf(Passes(s, tasks), task.destClusterId)[a], ContentOf(s, home(a))[a], task)
  {
    hide Pass, IsBlank, Wanted, Mirrors;
    var rest, last := tasks[..|tasks| - 1], tasks[|tasks| - 1];
    var s1, c := Passes(s, rest), task.destClusterId;
    assert tasks == rest + [last];
    assert task in s.tasks && ProperTask(task);
    PassesKeepOriginals(home, s, rest, home(a), a);
    WantedIsHome(home, s1, last);
    PassAt(ContentOf(s1, last.sourceClusterId), ContentOf(s1, last.destClusterId), last, "NACOS", a);
    if a in ContentOf(s1, c) {
      assert Placed(home, s1, c, a, ContentOf(s1, c)[a]);
    }
    if SameEnds(last, task) {
      if Original(home, s, a) {
        WantedMirrors(ContentOf(s1, home(a)), last, task, a);
      }
    } else {
      assert task in rest;
      PassesSettle(home, s, rest, task, a);
    }
  }

  /**
   * Once the originals stand still, one pass of every task, in any order and on any graph, leaves at each cluster
   * exactly its originals, as they were, and the copies of its direct sources' originals, each its original but for the
   * provenance tags: nothing travels two edges.
   */
  lemma OnePassEachSettles(home: Home, run: seq<Action>, s: State, tasks: seq<Task>, c: string, a: Address)
    requires Reaches(home, INITIAL, run, s) && (forall t :: t in tasks <==> t in s.tasks)
    ensures a in ContentOf(Passes(s, tasks), c) <==>
            Original(home, s, a) && (home(a) == c || CopiedBy(s, home(a), c))
    ensures Original(home, s, a) && home(a) == c ==> ContentOf(Passes(s, tasks), c)[a] == ContentOf(s, c)[a]
    ensures Original(home, s, a) ==>
              forall t :: t in s.tasks && t.sourceClusterId == home(a) && t.destClusterId == c ==>
                a in ContentOf(Passes(s, tasks), c)
                && Mirrors(ContentOf(Passes(s, tasks), c)[a], ContentOf(s, home(a))[a], t)
  {
    hide Mirrors;
    InvOverRuns(home, INITIAL, run, s);
    PassesKeepOriginals(home, s, tasks, c, a);
    var s' := Passes(s, tasks);
    assert a in ContentOf(s', c) ==> Placed(home, s', c, a, ContentOf(s', c)[a]);
    forall t | t in s.tasks && t.sourceClusterId == home(a) && t.destClusterId == c
      ensures a in ContentOf(s', c) <==> Original(home, s, a)
      ensures Original(home, s, a) ==> Mirrors(ContentOf(s', c)[a], ContentOf(s, home(a))[a], t)
    {
      PassesSettle(home, s, tasks, t, a);
    }
  }

  /** In particular, once all originals are gone every cluster is empty. */
  lemma NoEcho(home: Home, run: seq<Action>, s: State, tasks: seq<Task>, c: string)
    requires Reaches(home, INITIAL, run, s) && (forall t :: t in tasks <==> t in s.tasks)
    requires forall a :: !Original(home, s, a)
    ensures ContentOf(Passes(s, tasks), c) == map[]
  {
    forall a ensures a !in ContentOf(Passes(s, tasks), c) {
      OnePassEachSettles(home, run, s, tasks, c, a);
    }
  }
}
