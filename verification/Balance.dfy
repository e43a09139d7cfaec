/** QuerySyncTaskTimer.testBalance: how many tasks of a list each worker of the view owns. */
module Balance {
  import opened Common
  import opened Membership
  import opened Ring
  import opened Tasks
  import opened Text

  function EqualTo(strings: set<string>, node: string): set<string>
  {
    set s | s in strings && EqualsIgnoreCase(s, node)
  }

  /** The ring as one worker sees it. */
  datatype Sharding = Sharding(at: Locate, view: set<string>, workerIps: seq<string>, replicas: nat) {

    function Node(task: Task): Option<string>
    {
      ShardingNode(at, view, workerIps, replicas, task.serviceName)
    }

    predicate Owns(node: string, task: Task)
    {
      Node(task) == Some(node)
    }

    function Owned(tasks: seq<Task>, node: string): (n: nat)
      ensures n <= |tasks|
    {
      if tasks == [] then 0
      else Owned(tasks[..|tasks| - 1], node) + (if Owns(node, tasks[|tasks| - 1]) then 1 else 0)
    }

    /** The members that differ from a node at most in case, itself included. */
    function Twins(node: string): set<string>
    {
      EqualTo(view, node)
    }

    predicate NoTwin(node: string)
    {
      forall s :: s in Twins(node) ==> s == node
    }

    /** The tasks a node owns, each counted once for each of its twins. */
    function Share(tasks: seq<Task>, node: string): int
    {
      if tasks == [] then 0
      else Share(tasks[..|tasks| - 1], node) + (if Owns(node, tasks[|tasks| - 1]) then |Twins(node)| else 0)
    }

    /** An AtomicInteger. */
    function Counter(tasks: seq<Task>, node: string): int32
    {
      Wrap(Share(tasks, node))
    }

    lemma OneMore(tasks: seq<Task>, node: string)
      requires tasks != []
      ensures Counter(tasks, node) ==
              var before := Counter(tasks[..|tasks| - 1], node);
              if Owns(node, tasks[|tasks| - 1]) then Wrap(before as int + |Twins(node)|) else before
    {
      hide Node, Twins;
      WrapAdds(Share(tasks[..|tasks| - 1], node), |Twins(node)|);
    }

    lemma NodeIsMember(task: Task)
      requires view != {}
      ensures Node(task).Some? <==> replicas > 0
      ensures Node(task).Some? ==> Node(task).value in view
    {
      OwnerIsMember(at, view, replicas, at(task.serviceName));
    }
  }

  function Total(keys: set<string>, counts: map<string, int>): int
    requires keys <= counts.Keys
    decreases keys
  {
    if keys == {} then 0 else Total(keys - {Greatest(keys)}, counts) + counts[Greatest(keys)]
  }

  /** A counter per member; every task counts once for each member that its owner equals ignoring case. */
  method TestBalance(sharding: Sharding, tasks: seq<Task>) returns (counts: map<string, int32>)
    ensures counts.Keys == sharding.view
    ensures forall n :: n in counts ==> counts[n] == sharding.Counter(tasks, n)
  {
    hide Sharding.Counter, Sharding.Owns, Sharding.Twins, Wrap;
    NothingCounted(sharding, tasks);
    counts := map n | n in sharding.view :: 0;
    for i := 0 to |tasks|
      invariant counts.Keys == sharding.view
      invariant forall n :: n in counts ==> counts[n] == sharding.Counter(tasks[..i], n)
    {
      counts := Count(sharding, tasks[i], counts);
      assert tasks[..i + 1][..i] == tasks[..i];
      forall n | n in counts
        ensures counts[n] == sharding.Counter(tasks[..i + 1], n)
      {
        sharding.OneMore(tasks[..i + 1], n);
      }
    }
    assert tasks[..|tasks|] == tasks;
  }

  lemma NothingCounted(sharding: Sharding, tasks: seq<Task>)
    ensures forall n :: sharding.Counter(tasks[..0], n) == 0
  {
  }

  /** The pass over the members for one task. */
  method Count(sharding: Sharding, task: Task, counts: map<string, int32>) returns (next: map<string, int32>)
    requires counts.Keys == sharding.view
    ensures next.Keys == counts.Keys
    ensures forall n :: n in next ==>
              next[n] == if sharding.Owns(n, task) then Wrap(counts[n] as int + |sharding.Twins(n)|) else counts[n]
  {
    hide Sharding.Node, Wrap, EqualsIgnoreCase;
    next := counts;
    if sharding.view == {} {
      return;
    }
    sharding.NodeIsMember(task);
    var node := sharding.Node(task);
    if node.None? {
      return;
    }
    next := CountEqual(sharding.view, node.value, counts);
  }

  method CountEqual(strings: set<string>, node: string, counts: map<string, int32>) returns (next: map<string, int32>)
    requires node in counts
    ensures next == counts[node := Wrap(counts[node] as int + |EqualTo(strings, node)|)]
  {
    hide Wrap, EqualsIgnoreCase, EqualTo;
    next := counts;
    ghost var before := counts[node] as int;
    WrapsBack(counts[node]);
    NoneEqual(node);
    var rest := strings;
    assert strings - rest == {};
    while rest != {}
      invariant rest <= strings
      invariant next == counts[node := Wrap(before + |EqualTo(strings - rest, node)|)]
      decreases rest
    {
      var s :| s in rest;
      EqualToGrows(strings - rest, s, node);
      assert strings - (rest - {s}) == strings - rest + {s};
      if EqualsIgnoreCase(s, node) {
        WrapAdds(before + |EqualTo(strings - rest, node)|, 1);
        next := next[node := Wrap(next[node] as int + 1)];
      }
      rest := rest - {s};
    }
    assert strings - rest == strings;
  }

  lemma NoneEqual(node: string)
    ensures EqualTo({}, node) == {}
  {
  }

  lemma EqualToGrows(strings: set<string>, s: string, node: string)
    requires s !in strings
    ensures |EqualTo(strings + {s}, node)| == |EqualTo(strings, node)| + if EqualsIgnoreCase(s, node) then 1 else 0
  {
    hide EqualsIgnoreCase;
    assert EqualTo(strings + {s}, node) == EqualTo(strings, node) + if EqualsIgnoreCase(s, node) then {s} else {};
  }

  lemma WrapsBack(c: int32)
    ensures Wrap(c as int) == c
  {
  }

  // ----- Results -----

  lemma {:induction false} TotalGrows(keys: set<string>, m: map<string, int>, m': map<string, int>,
                                      key: string, extra: int)
    requires keys <= m.Keys && keys <= m'.Keys
    requires forall k :: k in keys ==> m'[k] == m[k] + (if k == key then extra else 0)
    ensures Total(keys, m') == Total(keys, m) + (if key in keys then extra else 0)
    decreases keys
  {
    if keys != {} {
      TotalGrows(keys - {Greatest(keys)}, m, m', key, extra);
    }
  }

  function Shares(sharding: Sharding, tasks: seq<Task>): (shares: map<string, int>)
    ensures shares.Keys == sharding.view
  {
    map n | n in sharding.view :: sharding.Owned(tasks, n)
  }

  /** Every task is owned by exactly one member: the members' shares add up to the number of tasks. */
  lemma {:induction false} SharesAddUp(sharding: Sharding, tasks: seq<Task>)
    requires sharding.view != {} && sharding.replicas > 0
    ensures Total(sharding.view, Shares(sharding, tasks)) == |tasks|
  {
    hide Sharding.Node;
    if tasks == [] {
      AllZero(sharding.view, Shares(sharding, tasks));
    } else {
      var last := |tasks| - 1;
      SharesAddUp(sharding, tasks[..last]);
      sharding.NodeIsMember(tasks[last]);
      TotalGrows(sharding.view, Shares(sharding, tasks[..last]), Shares(sharding, tasks),
                 sharding.Node(tasks[last]).value, 1);
    }
  }

  lemma {:induction false} AllZero(keys: set<string>, m: map<string, int>)
    requires keys <= m.Keys && forall k :: k in keys ==> m[k] == 0
    ensures Total(keys, m) == 0
    decreases keys
  {
    if keys != {} {
      AllZero(keys - {Greatest(keys)}, m);
    }
  }

  lemma {:induction false} TotalOrdered(keys: set<string>, m: map<string, int>, m': map<string, int>)
    requires keys <= m.Keys && keys <= m'.Keys
    requires forall k :: k in keys ==> m[k] <= m'[k]
    ensures Total(keys, m) <= Total(keys, m')
    ensures Total(keys, m) == Total(keys, m') <==> forall k :: k in keys ==> m[k] == m'[k]
    decreases keys
  {
    if keys != {} {
      TotalOrdered(keys - {Greatest(keys)}, m, m');
    }
  }

  /** The counters before they wrap around. */
  function Counters(sharding: Sharding, tasks: seq<Task>): (counters: map<string, int>)
    ensures counters.Keys == sharding.view
  {
    map n | n in sharding.view :: sharding.Share(tasks, n)
  }

  lemma {:induction false} TwinShare(sharding: Sharding, tasks: seq<Task>, n: string)
    requires n in sharding.view
    ensures sharding.Owned(tasks, n) <= sharding.Share(tasks, n)
    ensures sharding.Owned(tasks, n) == sharding.Share(tasks, n) <==>
            sharding.Owned(tasks, n) == 0 || sharding.NoTwin(n)
  {
    hide Sharding.Owns, EqualsIgnoreCase;
    TwinCount(sharding, n);
    if tasks != [] {
      TwinShare(sharding, tasks[..|tasks| - 1], n);
    }
  }

  /** A counter, before it wraps around, is a multiple of what its member owns: once for each member equal ignoring case. */
  lemma {:induction false} ShareIsMultiple(sharding: Sharding, tasks: seq<Task>, n: string)
    ensures sharding.Share(tasks, n) ==
            sharding.Owned(tasks, n) * |set s | s in sharding.view && EqualsIgnoreCase(s, n)|
  {
    hide Sharding.Owns, EqualsIgnoreCase;
    var twins := |sharding.Twins(n)|;
    assert sharding.Twins(n) == set s | s in sharding.view && EqualsIgnoreCase(s, n);
    if tasks != [] {
      ShareIsMultiple(sharding, tasks[..|tasks| - 1], n);
      assert (sharding.Owned(tasks[..|tasks| - 1], n) + 1) * twins == sharding.Owned(tasks[..|tasks| - 1], n) * twins + twins;
    }
  }

  lemma TwinCount(sharding: Sharding, n: string)
    requires n in sharding.view
    ensures |sharding.Twins(n)| >= 1
    ensures |sharding.Twins(n)| == 1 <==> sharding.NoTwin(n)
  {
    var others := sharding.Twins(n) - {n};
    assert sharding.Twins(n) == {n} + others;
    assert others == {} <==> sharding.NoTwin(n);
  }

  /**
   * The counters add up to the number of tasks exactly when no member that owns a task has a twin; then, as always
   * for members distinct ignoring case, each counter is the number of tasks its member owns.
   */
  lemma BalanceConserved(sharding: Sharding, tasks: seq<Task>)
    requires sharding.view != {} && sharding.replicas > 0
    ensures Total(sharding.view, Counters(sharding, tasks)) == |tasks| <==>
            forall n :: n in sharding.view ==> sharding.Owned(tasks, n) == 0 || sharding.NoTwin(n)
    ensures Total(sharding.view, Counters(sharding, tasks)) == |tasks| <==>
            Counters(sharding, tasks) == Shares(sharding, tasks)
    ensures DistinctIgnoringCase(sharding.view) ==> forall n :: n in sharding.view ==> sharding.NoTwin(n)
    ensures |tasks| < 0x8000_0000 ==> forall n :: n in sharding.view && sharding.NoTwin(n) ==>
              sharding.Counter(tasks, n) as int == sharding.Owned(tasks, n)
  {
    var shares, counters := Shares(sharding, tasks), Counters(sharding, tasks);
    forall n | n in sharding.view
      ensures shares[n] <= counters[n]
      ensures shares[n] == counters[n] <==> sharding.Owned(tasks, n) == 0 || sharding.NoTwin(n)
    {
      TwinShare(sharding, tasks, n);
    }
    SharesAddUp(sharding, tasks);
    TotalOrdered(sharding.view, shares, counters);
  }

  /** Two members equal ignoring case: one task is counted twice. */
  lemma TwinsCountTwice(sharding: Sharding, task: Task)
    requires sharding.view == {"worker", "WORKER"} && sharding.replicas > 0
    ensures Total(sharding.view, Counters(sharding, [task])) == 2
  {
    hide Sharding.Node;
    var view, counters := sharding.view, Counters(sharding, [task]);
    sharding.NodeIsMember(task);
    var owner := sharding.Node(task).value;
    assert [task][..0] == [];
    forall n | n in view
      ensures counters[n] == if n == owner then 2 else 0
    {
      TwinsOfWorker(sharding, n);
      assert sharding.Share([task], n) == sharding.Share([], n) + if sharding.Owns(n, task) then 2 else 0;
    }
    var none := map n | n in view :: 0;
    AllZero(view, none);
    TotalGrows(view, none, counters, owner, 2);
  }

  lemma TwinsOfWorker(sharding: Sharding, n: string)
    requires sharding.view == {"worker", "WORKER"} && n in sharding.view
    ensures |sharding.Twins(n)| == 2
  {
    var small, big := "worker", "WORKER";
    assert forall i :: 0 <= i < 6 ==> FoldCase(small[i]) == FoldCase(big[i]);
    assert small[0] != big[0];
    assert sharding.Twins(n) == {small} + {big};
  }
}
