/**
 * Operation ids over whole runs: add and update requests whose read and write are separate steps, imports, deletions,
 * query timers that may act on any copy of a task ever stored, event listeners, clean-up timers and restarts of
 * workers, all interleaved.
 */
module Protocol {
  import opened Common
  import opened Tasks

  // ----- What a request does with the task it has read -----

  /** TaskUpdateProcessor: the record to store, when the status changes. */
  function UpdateWrite(read: Task, status: Status, freshId: string): Option<Task>
  {
    if read.status != status then Some(read.(status := status, operationId := freshId)) else None
  }

  /** TaskAddProcessor: create, resume, or nothing. */
  function AddWrite(request: Task, read: Option<Task>, freshId: string): Option<Task>
  {
    match read
    case None => Some(request.(status := SYNC, operationId := freshId))
    case Some(t) => if t.status != SYNC then Some(t.(status := SYNC, operationId := freshId)) else None
  }

  // ----- The state machine -----

  /** A request between two of its steps, on the worker that serves it. */
  datatype Pending =
    | Updating(worker: string, read: Task, status: Status)
    | Adding(worker: string, request: Task, found: Option<Task>)
    | Posting(worker: string, task: Task)

  /** What has happened on a worker, oldest first. */
  datatype Event =
    | Dispatched(worker: string, task: Task)
    | Finished(worker: string, task: Task)
    | Failed(worker: string, task: Task)
    | Cleaned(worker: string, operationId: string)
    | Restarted(worker: string)

  /**
   * `written` is every record ever stored, oldest first; `timers` the task each query timer is handling;
   * `log` what happened on the workers.
   */
  datatype State = State(store: map<string, Task>, written: seq<Task>, minted: set<string>,
                         requests: map<nat, Pending>, timers: map<string, Task>,
                         finished: map<string, set<string>>, log: seq<Event>)

  datatype Action =
    | ReadUpdate(id: nat, worker: string, taskId: string, status: Status)
    | ReadAdd(id: nat, worker: string, request: Task)
    | Write(id: nat, freshId: string)
    | Post(id: nat, throws: bool)
    | DeleteTask(taskId: string)
    | Import(task: Task, freshId: string)
    | Check(worker: string, task: Task, owns: bool)
    | Handle(worker: string, throws: bool)
    | Clean(worker: string, operationId: string)
    | Restart(worker: string)

  const INITIAL := State(map[], [], {}, map[], map[], map[], [])

  function FinishedOf(s: State, worker: string): set<string>
  {
    if worker in s.finished then s.finished[worker] else {}
  }

  /** Storing a record mints its operation id. */
  function Store(s: State, t: Task): State
  {
    s.(store := s.store[t.taskId := t], written := s.written + [t], minted := s.minted + {t.operationId})
  }

  /** The listener ran: the task is recorded as finished unless the handler threw. */
  function Listen(s: State, worker: string, t: Task, throws: bool): State
  {
    if throws then s.(log := s.log + [Failed(worker, t)])
    else s.(finished := s.finished[worker := FinishedOf(s, worker) + {t.operationId}],
            log := s.log + [Finished(worker, t)])
  }

  predicate Enabled(s: State, a: Action)
  {
    match a
    case ReadUpdate(id, _, _, _) => id !in s.requests
    case ReadAdd(id, _, _) => id !in s.requests
    case Write(id, freshId) => id in s.requests && !s.requests[id].Posting? && freshId !in s.minted && freshId != ""
    case Post(id, _) => id in s.requests && s.requests[id].Posting?
    case DeleteTask(_) => true
    case Import(_, freshId) => freshId !in s.minted && freshId != ""
    case Check(worker, task, _) => worker !in s.timers && task in s.written
    case Handle(worker, _) => worker in s.timers
    case Clean(worker, operationId) => operationId in FinishedOf(s, worker)
    case Restart(_) => true
  }

  /** What can happen when: a request's steps follow each other, a timer handles one task at a time, ids are fresh. */
  lemma EnabledIs(s: State, id: nat, w: string, t: Task, text: string, status: Status, flag: bool)
    ensures Enabled(s, ReadUpdate(id, w, text, status)) <==> id !in s.requests
    ensures Enabled(s, ReadAdd(id, w, t)) <==> id !in s.requests
    ensures Enabled(s, Write(id, text)) <==>
            id in s.requests && (s.requests[id].Updating? || s.requests[id].Adding?) && text != "" && text !in s.minted
    ensures Enabled(s, Post(id, flag)) <==> id in s.requests && s.requests[id].Posting?
    ensures Enabled(s, Import(t, text)) <==> text != "" && text !in s.minted
    ensures Enabled(s, Check(w, t, flag)) <==> t in s.written && w !in s.timers
    ensures Enabled(s, Handle(w, flag)) <==> w in s.timers
    ensures Enabled(s, Clean(w, text)) <==> w in s.finished && text in s.finished[w]
    ensures Enabled(s, DeleteTask(text)) && Enabled(s, Restart(w))
  {
  }

  function Next(s: State, a: Action): State
    requires Enabled(s, a)
  {
    match a
    case ReadUpdate(id, worker, taskId, status) =>
      if taskId in s.store then s.(requests := s.requests[id := Updating(worker, s.store[taskId], status)]) else s
    case ReadAdd(id, worker, request) =>
      var read := if request.taskId in s.store then Some(s.store[request.taskId]) else None;
      s.(requests := s.requests[id := Adding(worker, request, read)])
    case Write(id, freshId) => AfterWrite(s, id, freshId)
    case Post(id, throws) =>
      Listen(s.(requests := s.requests - {id}), s.requests[id].worker, s.requests[id].task, throws)
    case DeleteTask(taskId) => s.(store := s.store - {taskId})
    case Import(task, freshId) => Store(s, task.(status := SYNC, operationId := freshId))
    case Check(worker, task, owns) =>
      if (task.status == SYNC && !owns) || (task.operationId != "" && task.operationId in FinishedOf(s, worker)) then s
      else s.(timers := s.timers[worker := task], log := s.log + [Dispatched(worker, task)])
    case Handle(worker, throws) => Listen(s.(timers := s.timers - {worker}), worker, s.timers[worker], throws)
    case Clean(worker, operationId) =>
      s.(finished := s.finished[worker := FinishedOf(s, worker) - {operationId}],
         log := s.log + [Cleaned(worker, operationId)])
    case Restart(worker) =>
      s.(requests := map id | id in s.requests && s.requests[id].worker != worker :: s.requests[id],
         timers := s.timers - {worker}, finished := s.finished - {worker}, log := s.log + [Restarted(worker)])
  }

  /** The write step; an update request for DELETE goes on to post its event, whether or not it wrote. */
  function AfterWrite(s: State, id: nat, freshId: string): State
    requires id in s.requests && !s.requests[id].Posting?
  {
    match s.requests[id]
    case Updating(worker, read, status) =>
      var write := UpdateWrite(read, status, freshId);
      var task := if write.Some? then write.value else read;
      var stored := if write.Some? then Store(s, write.value) else s;
      stored.(requests := if status == DELETE then s.requests[id := Posting(worker, task)] else s.requests - {id})
    case Adding(_, request, found) =>
      var write := AddWrite(request, found, freshId);
      (if write.Some? then Store(s, write.value) else s).(requests := s.requests - {id})
  }

  predicate Reaches(s: State, run: seq<Action>, s': State)
    decreases |run|
  {
    if run == [] then s' == s else Enabled(s, run[0]) && Reaches(Next(s, run[0]), run[1..], s')
  }

  // ----- Invariants -----

  predicate OfTask(e: Event)
  {
    e.Dispatched? || e.Finished? || e.Failed?
  }

  /** One meaning per operation id: whatever was stored under it names one task and one status. */
  ghost predicate OneMeaning(written: seq<Task>)
  {
    forall t, u :: t in written && u in written && t.operationId == u.operationId ==>
      t.taskId == u.taskId && t.status == u.status
  }

  ghost predicate Known(s: State, p: Pending)
  {
    match p
    case Updating(_, read, _) => read in s.written
    case Adding(_, _, found) => found.Some? ==> found.value in s.written
    case Posting(_, task) => task in s.written
  }

  ghost predicate RecordsMinted(written: seq<Task>, minted: set<string>)
  {
    forall t :: t in written ==> t.operationId in minted && t.operationId != ""
  }

  ghost predicate RecordsKnown(s: State)
  {
    && RecordsMinted(s.written, s.minted)
    && (forall id :: id in s.store ==> s.store[id] in s.written && s.store[id].taskId == id)
    && (forall id :: id in s.requests ==> Known(s, s.requests[id]))
    && (forall w :: w in s.timers ==> s.timers[w] in s.written)
    && (forall e :: e in s.log && OfTask(e) ==> e.task in s.written)
  }

  /** The operation was finished on the worker at log position `i`, and not cleaned or lost by a restart since. */
  ghost predicate HoldsSince(s: State, worker: string, operationId: string, i: int)
  {
    && 0 <= i < |s.log| && s.log[i].Finished? && s.log[i].worker == worker && s.log[i].task.operationId == operationId
    && forall k :: i < k < |s.log| ==> s.log[k] != Cleaned(worker, operationId) && s.log[k] != Restarted(worker)
  }

  /** The finished maps are exactly what the log says. */
  ghost predicate FinishedMatchesLog(s: State)
  {
    forall w, op :: op in FinishedOf(s, w) <==> exists i :: HoldsSince(s, w, op, i)
  }

  /** The event ends the dispatch of a task: it failed, finished, or was lost by a restart. */
  predicate Answers(e: Event, worker: string, task: Task)
  {
    e == Failed(worker, task) || e == Finished(worker, task) || e == Restarted(worker)
  }

  /** A dispatch by a timer has been answered since, or is the one in flight. */
  ghost predicate Answered(s: State, i: nat)
    requires i < |s.log| && s.log[i].Dispatched?
  {
    var w, t := s.log[i].worker, s.log[i].task;
    || (w in s.timers && s.timers[w] == t)
    || exists k :: i < k < |s.log| && Answers(s.log[k], w, t)
  }

  ghost predicate DispatchesAnswered(s: State)
  {
    forall i :: 0 <= i < |s.log| && s.log[i].Dispatched? ==> Answered(s, i)
  }

  /** Two dispatches of the same operation by the same worker's timer. */
  ghost predicate SameDispatch(log: seq<Event>, i: int, j: int)
  {
    && 0 <= i < j < |log| && log[i].Dispatched? && log[j].Dispatched?
    && log[i].worker == log[j].worker && log[i].task.operationId == log[j].task.operationId
  }

  /** The event at `k` allows the operation dispatched at `i` to be dispatched again. */
  ghost predicate Reopens(log: seq<Event>, i: int, k: int)
    requires 0 <= i < |log| && log[i].Dispatched?
  {
    && i < k < |log|
    && (|| log[k] == Failed(log[i].worker, log[i].task)
        || log[k] == Cleaned(log[i].worker, log[i].task.operationId)
        || log[k] == Restarted(log[i].worker))
  }

  /** Between two dispatches of one operation by a worker's timer, the first threw, a cleaner came by or it restarted. */
  ghost predicate AtMostOnce(log: seq<Event>)
  {
    forall i, j :: SameDispatch(log, i, j) ==> exists k :: k < j && Reopens(log, i, k)
  }

  ghost predicate Inv(s: State)
  {
    OneMeaning(s.written) && RecordsKnown(s) && FinishedMatchesLog(s) && DispatchesAnswered(s) && AtMostOnce(s.log)
  }

  lemma StoreKeepsMeaning(s: State, t: Task)
    requires OneMeaning(s.written) && RecordsKnown(s) && t.operationId !in s.minted && t.operationId != ""
    ensures OneMeaning(Store(s, t).written) && RecordsKnown(Store(s, t))
  {
    var written := Store(s, t).written;
    assert forall u :: u in written <==> u in s.written || u == t;
    forall id | id in s.requests ensures Known(Store(s, t), s.requests[id]) {
      assert Known(s, s.requests[id]);
    }
  }

  lemma WriteKeepsMeaning(s: State, id: nat, freshId: string)
    requires OneMeaning(s.written) && RecordsKnown(s) && Enabled(s, Write(id, freshId))
    ensures var s' := AfterWrite(s, id, freshId);
            OneMeaning(s'.written) && RecordsKnown(s')
  {
    assert Known(s, s.requests[id]);
    var write := match s.requests[id]
      case Updating(_, read, status) => UpdateWrite(read, status, freshId)
      case Adding(_, request, found) => AddWrite(request, found, freshId);
    var stored, s' := if write.Some? then Store(s, write.value) else s, AfterWrite(s, id, freshId);
    if write.Some? {
      StoreKeepsMeaning(s, write.value);
    }
    assert s' == stored.(requests := s'.requests);
    forall other | other in s'.requests ensures Known(s', s'.requests[other]) {
      if other != id {
        assert Known(stored, stored.requests[other]);
      }
    }
  }

  /** The steps that store nothing only copy known records around. */
  lemma OtherStepKeepsKnown(s: State, a: Action)
    requires RecordsKnown(s) && Enabled(s, a) && !a.Write? && !a.Import?
    ensures Next(s, a).written == s.written && RecordsKnown(Next(s, a))
  {
    var s' := Next(s, a);
    OtherStepStoresNothing(s, a);
    hide Next, Known, OfTask;
    forall id | id in s'.requests ensures Known(s', s'.requests[id]) {
      OtherStepKeepsRequest(s, a, id);
    }
    forall e | e in s'.log && OfTask(e) ensures e.task in s'.written {
      OtherStepKeepsEvent(s, a, e);
    }
  }

  lemma OtherStepStoresNothing(s: State, a: Action)
    requires Enabled(s, a) && !a.Write? && !a.Import?
    ensures Next(s, a).written == s.written && Next(s, a).minted == s.minted
    ensures forall id :: id in Next(s, a).store ==> id in s.store && Next(s, a).store[id] == s.store[id]
    ensures forall w :: w in Next(s, a).timers ==>
              Next(s, a).timers[w] in s.written || (w in s.timers && Next(s, a).timers[w] == s.timers[w])
  {
  }

  lemma OtherStepKeepsRequest(s: State, a: Action, id: nat)
    requires RecordsKnown(s) && Enabled(s, a) && !a.Write? && !a.Import? && id in Next(s, a).requests
    ensures Known(Next(s, a), Next(s, a).requests[id])
  {
    if id in s.requests {
      assert Known(s, s.requests[id]);
    }
  }

  lemma OtherStepKeepsEvent(s: State, a: Action, e: Event)
    requires RecordsKnown(s) && Enabled(s, a) && !a.Write? && !a.Import? && e in Next(s, a).log && OfTask(e)
    ensures e.task in s.written
  {
    if e !in s.log && a.Post? {
      assert Known(s, s.requests[a.id]);
    }
  }

  lemma MeaningStep(s: State, a: Action)
    requires OneMeaning(s.written) && RecordsKnown(s) && Enabled(s, a)
    ensures OneMeaning(Next(s, a).written) && RecordsKnown(Next(s, a))
  {
    if a.Write? {
      WriteKeepsMeaning(s, a.id, a.freshId);
    } else if a.Import? {
      StoreKeepsMeaning(s, a.task.(status := SYNC, operationId := a.freshId));
    } else {
      OtherStepKeepsKnown(s, a);
    }
  }

  lemma LogGrows(s: State, a: Action)
    requires Enabled(s, a)
    ensures s.log <= Next(s, a).log && |Next(s, a).log| <= |s.log| + 1
  {
  }

  lemma FinishedStep(s: State, a: Action)
    requires FinishedMatchesLog(s) && Enabled(s, a)
    ensures FinishedMatchesLog(Next(s, a))
  {
    var s' := Next(s, a);
    LogGrows(s, a);
    forall w, op
      ensures op in FinishedOf(s', w) <==> exists i :: HoldsSince(s', w, op, i)
    {
      if op in FinishedOf(s', w) {
        var i := HeldInLog(s, a, w, op);
      }
      if i :| HoldsSince(s', w, op, i) {
        LoggedIsHeld(s, a, w, op, i);
      }
    }
  }

  lemma HeldInLog(s: State, a: Action, w: string, op: string) returns (i: int)
    requires FinishedMatchesLog(s) && Enabled(s, a) && op in FinishedOf(Next(s, a), w)
    ensures HoldsSince(Next(s, a), w, op, i)
  {
    LogGrows(s, a);
    i := |s.log|;
    if op in FinishedOf(s, w) {
      i :| HoldsSince(s, w, op, i);
      StillHeld(s, a, w, op);
      hide Next, FinishedOf, Enabled;
      assert forall k :: 0 <= k < |s.log| ==> s.log[k] == Next(s, a).log[k];
    }
  }

  lemma StillHeld(s: State, a: Action, w: string, op: string)
    requires Enabled(s, a) && op in FinishedOf(s, w) && op in FinishedOf(Next(s, a), w)
    ensures |Next(s, a).log| > |s.log| ==>
              Next(s, a).log[|s.log|] != Cleaned(w, op) && Next(s, a).log[|s.log|] != Restarted(w)
  {
  }

  lemma LoggedIsHeld(s: State, a: Action, w: string, op: string, i: int)
    requires FinishedMatchesLog(s) && Enabled(s, a) && HoldsSince(Next(s, a), w, op, i)
    ensures op in FinishedOf(Next(s, a), w)
  {
    LogGrows(s, a);
    var log' := Next(s, a).log;
    assert a.Clean? ==> log'[|s.log|] == Cleaned(a.worker, a.operationId);
    assert a.Restart? ==> log'[|s.log|] == Restarted(a.worker);
    if i < |s.log| {
      assert forall k :: 0 <= k < |s.log| ==> s.log[k] == log'[k];
      assert HoldsSince(s, w, op, i);
      assert op in FinishedOf(s, w);
    }
  }

  lemma AnsweredStep(s: State, a: Action)
    requires DispatchesAnswered(s) && Enabled(s, a)
    ensures DispatchesAnswered(Next(s, a))
  {
    var s' := Next(s, a);
    LogGrows(s, a);
    forall i | 0 <= i < |s'.log| && s'.log[i].Dispatched?
      ensures Answered(s', i)
    {
      if i < |s.log| {
        assert Answered(s, i);
        var w, t := s.log[i].worker, s.log[i].task;
        if k :| i < k < |s.log| && Answers(s.log[k], w, t) {
          assert s'.log[k] == s.log[k];
        } else if (a.Handle? || a.Restart?) && a.worker == w {
          assert Answers(s'.log[|s.log|], w, t);
        }
      }
    }
  }

  /** The core of at-most-once: a timer that dispatches again finds the first dispatch failed or cleaned. */
  lemma SecondDispatch(s: State, i: nat, worker: string, task: Task) returns (k: nat)
    requires FinishedMatchesLog(s) && DispatchesAnswered(s)
    requires i < |s.log| && s.log[i].Dispatched? && s.log[i].worker == worker
    requires s.log[i].task.operationId == task.operationId
    requires worker !in s.timers && task.operationId !in FinishedOf(s, worker)
    ensures Reopens(s.log, i, k)
  {
    assert Answered(s, i);
    k :| i < k < |s.log| && Answers(s.log[k], worker, s.log[i].task);
    if s.log[k].Finished? {
      assert !HoldsSince(s, worker, task.operationId, k);
      k :| k < |s.log| && i < k
           && (s.log[k] == Cleaned(worker, task.operationId) || s.log[k] == Restarted(worker));
    }
  }

  lemma AtMostOnceStep(s: State, a: Action)
    requires Inv(s) && Enabled(s, a)
    ensures AtMostOnce(Next(s, a).log)
  {
    var log, log' := s.log, Next(s, a).log;
    LogGrows(s, a);
    forall i, j | SameDispatch(log', i, j)
      ensures exists k :: k < j && Reopens(log', i, k)
    {
      if j < |log| {
        assert SameDispatch(log, i, j);
        var k :| k < j && Reopens(log, i, k);
        assert Reopens(log', i, k);
      } else {
        assert a.Check? && a.task in s.written && log'[i] == log[i];
        var k := SecondDispatch(s, i, a.worker, a.task);
        assert Reopens(log', i, k);
      }
    }
  }

  lemma {:induction false} InvOverRuns(s: State, run: seq<Action>, s': State)
    requires Inv(s) && Reaches(s, run, s')
    ensures Inv(s')
    decreases |run|
  {
    if run != [] {
      MeaningStep(s, run[0]);
      FinishedStep(s, run[0]);
      AnsweredStep(s, run[0]);
      AtMostOnceStep(s, run[0]);
      InvOverRuns(Next(s, run[0]), run[1..], s');
    }
  }

  lemma MintedBeforeFinished(s: State, worker: string, operationId: string)
    requires FinishedMatchesLog(s) && RecordsKnown(s)
    ensures operationId in FinishedOf(s, worker) ==> operationId in s.minted
  {
    if operationId in FinishedOf(s, worker) {
      var i :| HoldsSince(s, worker, operationId, i);
      assert s.log[i] in s.log;
    }
  }

  // ----- Results -----

  /** Over every run, an operation id is only ever attached to one task and one status. */
  lemma OneTaskOneStatus(run: seq<Action>, s: State, t: Task, u: Task)
    requires Reaches(INITIAL, run, s) && t in s.written && u in s.written && t.operationId == u.operationId
    ensures t.taskId == u.taskId && t.status == u.status
  {
    InvOverRuns(INITIAL, run, s);
  }

  /** In particular the stored tasks have distinct operation ids, none of them empty. */
  lemma StoredIdsDistinct(run: seq<Action>, s: State, id: string, id': string)
    requires Reaches(INITIAL, run, s) && id in s.store && id' in s.store
    ensures s.store[id].operationId != ""
    ensures s.store[id].operationId == s.store[id'].operationId ==> id == id'
  {
    InvOverRuns(INITIAL, run, s);
  }

  /**
   * A finished entry that suppresses the dispatch of a task, stored now or ever, stands for an event of that same
   * task with that same status which the worker has run.
   */
  lemma FinishedMeansRun(run: seq<Action>, s: State, worker: string, t: Task) returns (i: nat)
    requires Reaches(INITIAL, run, s) && t in s.written && t.operationId in FinishedOf(s, worker)
    ensures i < |s.log| && s.log[i].Finished? && s.log[i].worker == worker
    ensures s.log[i].task.taskId == t.taskId && s.log[i].task.status == t.status
    ensures HoldsSince(s, worker, t.operationId, i)
  {
    InvOverRuns(INITIAL, run, s);
    i :| HoldsSince(s, worker, t.operationId, i);
    assert s.log[i] in s.log;
  }

  /** A status change is never suppressed: right after the write, no worker has its operation id. */
  lemma StatusChangeNotSuppressed(run: seq<Action>, s: State, id: nat, freshId: string, worker: string)
    requires Reaches(INITIAL, run, s) && Enabled(s, Write(id, freshId))
    ensures freshId !in FinishedOf(Next(s, Write(id, freshId)), worker)
    ensures var s' := Next(s, Write(id, freshId));
            s'.written != s.written ==>
              s'.written == s.written + [s'.written[|s.written|]] && s'.written[|s.written|].operationId == freshId
  {
    InvOverRuns(INITIAL, run, s);
    MintedBeforeFinished(s, worker, freshId);
  }

  /**
   * The write of an update stores the requested status under the new id, everything else as it was read, when the
   * status read is another; a request for DELETE goes on to post what is then the record, any other request is done.
   */
  lemma UpdateStoresRequest(s: State, id: nat, freshId: string)
    requires Enabled(s, Write(id, freshId)) && s.requests[id].Updating?
    ensures var s', read, status := Next(s, Write(id, freshId)), s.requests[id].read, s.requests[id].status;
            && (read.status == status ==> (s'.store, s'.written, s'.minted) == (s.store, s.written, s.minted))
            && (read.status != status ==> StoresFrom(s, s', read, status, freshId))
            && s'.requests - {id} == s.requests - {id}
            && (id in s'.requests <==> status == DELETE)
            && (status == DELETE ==> s'.requests[id].Posting? && s'.requests[id].worker == s.requests[id].worker
                                     && s'.requests[id].task == if read.status == DELETE then read
                                                                else s'.store[read.taskId])
            && (s'.timers, s'.finished, s'.log) == (s.timers, s.finished, s.log)
  {
  }

  /** One record is stored: `from`, with the status and the operation id. */
  ghost predicate StoresFrom(s: State, s': State, from: Task, status: Status, operationId: string)
  {
    && from.taskId in s'.store && s'.store - {from.taskId} == s.store - {from.taskId}
    && var t := s'.store[from.taskId];
    && t.status == status && t.operationId == operationId
    && t.(status := from.status, operationId := from.operationId) == from
    && s'.written == s.written + [t] && s'.minted == s.minted + {operationId}
  }

  /** The write of an add stores the request, or resumes the task read; a task that already runs is left alone. */
  lemma AddStoresRequest(s: State, id: nat, freshId: string)
    requires Enabled(s, Write(id, freshId)) && s.requests[id].Adding?
    ensures var s', request, found := Next(s, Write(id, freshId)), s.requests[id].request, s.requests[id].found;
            && (found.Some? && found.value.status == SYNC ==>
                  (s'.store, s'.written, s'.minted) == (s.store, s.written, s.minted))
            && (found.Some? && found.value.status == DELETE ==> StoresFrom(s, s', found.value, SYNC, freshId))
            && (found.None? ==> StoresFrom(s, s', request, SYNC, freshId))
            && s'.requests == s.requests - {id}
            && (s'.timers, s'.finished, s'.log) == (s.timers, s.finished, s.log)
  {
  }

  /** An import stores its task as a running one under the new id; a deletion takes out one record. */
  lemma ImportStoresTask(s: State, task: Task, freshId: string, taskId: string)
    requires Enabled(s, Import(task, freshId))
    ensures StoresFrom(s, Next(s, Import(task, freshId)), task, SYNC, freshId)
    ensures Next(s, Import(task, freshId)).requests == s.requests
    ensures var s' := Next(s, DeleteTask(taskId));
            taskId !in s'.store && (forall id :: id in s.store && id != taskId ==> id in s'.store && s'.store[id] == s.store[id])
            && s'.store.Keys <= s.store.Keys
  {
  }

  /** A request reads the record that is stored when it reads, and keeps it until it writes. */
  lemma RequestsRead(s: State, id: nat, worker: string, taskId: string, status: Status, request: Task)
    requires id !in s.requests
    ensures var s' := Next(s, ReadUpdate(id, worker, taskId, status));
            if taskId in s.store
            then s'.requests == s.requests[id := Updating(worker, s.store[taskId], status)] && s' == s.(requests := s'.requests)
            else s' == s
    ensures var s' := Next(s, ReadAdd(id, worker, request));
            && s' == s.(requests := s'.requests) && s'.requests.Keys == s.requests.Keys + {id}
            && (request.taskId in s.store ==> s'.requests[id] == Adding(worker, request, Some(s.store[request.taskId])))
            && (request.taskId !in s.store ==> s'.requests[id] == Adding(worker, request, None))
  {
  }

  /**
   * A posted event, by a request or a timer, is a run of its task: it is recorded as finished and logged so, or it
   * fails and leaves the finished maps as they were.
   */
  lemma EventsRun(s: State, a: Action, worker: string, task: Task, throws: bool)
    requires Enabled(s, a)
    requires (a.Post? && a.throws == throws && s.requests[a.id] == Posting(worker, task))
             || (a == Handle(worker, throws) && s.timers[worker] == task)
    ensures var s' := Next(s, a);
            && s'.log == s.log + [if throws then Failed(worker, task) else Finished(worker, task)]
            && (forall w, op :: op in FinishedOf(s', w) <==>
                  op in FinishedOf(s, w) || (!throws && w == worker && op == task.operationId))
            && s'.store == s.store && s'.written == s.written && s'.minted == s.minted
            && (a.Post? ==> s'.requests == s.requests - {a.id} && s'.timers == s.timers)
            && (a.Handle? ==> s'.requests == s.requests && s'.timers == s.timers - {worker})
  {
  }

  /** A check dispatches the task unless another worker should run it or this one has; nothing else changes. */
  lemma CheckDispatches(s: State, worker: string, task: Task, owns: bool)
    requires Enabled(s, Check(worker, task, owns))
    ensures var s' := Next(s, Check(worker, task, owns));
            if (task.status == DELETE || owns)
               && (task.operationId == "" || worker !in s.finished || task.operationId !in s.finished[worker])
            then s' == s.(timers := s'.timers, log := s.log + [Dispatched(worker, task)]) && worker in s'.timers
                 && s'.timers[worker] == task && s'.timers - {worker} == s.timers
            else s' == s
  {
  }

  /** A restart forgets the worker's requests, timer and finished map, and nothing of other workers. */
  lemma RestartForgets(s: State, worker: string, w: string, id: nat)
    ensures var s' := Next(s, Restart(worker));
            && s'.store == s.store && s'.written == s.written && s'.minted == s.minted
            && FinishedOf(s', w) == (if w == worker then {} else FinishedOf(s, w))
            && (id in s'.requests <==> id in s.requests && s.requests[id].worker != worker)
            && (id in s'.requests ==> s'.requests[id] == s.requests[id])
            && (w in s'.timers <==> w in s.timers && w != worker)
            && (w in s'.timers ==> s'.timers[w] == s.timers[w])
  {
  }

  /** A request stores a record, and mints an id, exactly when the task it read does not have the requested status. */
  lemma MintsExactlyOnChange(s: State, id: nat, freshId: string)
    requires Enabled(s, Write(id, freshId))
    ensures var p, s' := s.requests[id], Next(s, Write(id, freshId));
            var changes := if p.Updating? then p.read.status != p.status
                           else p.found.None? || p.found.value.status != SYNC;
            && (changes ==> s'.minted == s.minted + {freshId} && |s'.written| == |s.written| + 1)
            && (!changes ==> s'.minted == s.minted && s'.written == s.written && s'.store == s.store)
  {
  }

  /** Over every run, a timer dispatches an operation at most once until it fails, is cleaned or lost in a restart. */
  lemma DispatchedAtMostOnce(run: seq<Action>, s: State, i: nat, j: nat) returns (k: nat)
    requires Reaches(INITIAL, run, s) && i < j < |s.log| && s.log[i].Dispatched? && s.log[j].Dispatched?
    requires s.log[i].worker == s.log[j].worker && s.log[i].task.operationId == s.log[j].task.operationId
    ensures i < k < j
    ensures s.log[k] == Failed(s.log[i].worker, s.log[i].task)
            || s.log[k] == Cleaned(s.log[i].worker, s.log[i].task.operationId)
            || s.log[k] == Restarted(s.log[i].worker)
  {
    InvOverRuns(INITIAL, run, s);
    assert SameDispatch(s.log, i, j);
    k :| k < j && Reopens(s.log, i, k);
  }

  // ----- The processors, one request at a time -----

  datatype Problem = UnknownStatus | NoSuchTask | NoSuchCluster | UnsupportedSyncType

  /** The workers' shared store and their finished maps, as the two request processors see them. */
  class Cluster {
    var store: map<string, Task>
    var finished: map<string, set<string>>
    /** the membership view of the worker serving the request */
    var nodeCaches: set<string>

    constructor ()
      ensures store == map[] && finished == map[] && nodeCaches == {}
    {
      store, finished, nodeCaches := map[], map[], {};
    }

    ghost function FinishedOn(worker: string): set<string>
      reads this
    {
      if worker in finished then finished[worker] else {}
    }

    /**
     * TaskUpdateProcessor.process. A DELETE request that does not come from a peer is passed on to every other
     * node of the view; requests to nodes outside `reachable` fail and are logged. The listeners of the workers in
     * `throwing` catch what their handlers throw and record nothing.
     */
    method Update(localIp: string, taskId: string, code: string, fromPeer: bool, freshId: string,
                  reachable: set<string>, throwing: set<string>)
      returns (r: Result<(), Problem>)
      modifies this`store, this`finished
      ensures r.Err? ==> store == old(store) && finished == old(finished)
      ensures r == (if code != "SYNC" && code != "DELETE" then Err(UnknownStatus)
                    else if taskId !in old(store) then Err(NoSuchTask) else Ok(()))
      ensures r.Ok? ==>
                var read := old(store)[taskId];
                && taskId in store && store == old(store)[taskId := store[taskId]]
                && store[taskId].status == (if code == "SYNC" then SYNC else DELETE)
                && store[taskId].operationId == (if read.status == store[taskId].status then read.operationId else freshId)
                && store[taskId].(status := read.status, operationId := read.operationId) == read
      ensures r.Ok? ==>
                forall w :: FinishedOn(w) == old(FinishedOn(w)) +
                  (if code == "DELETE" && w !in throwing
                      && (w == localIp || (!fromPeer && w in nodeCaches && w in reachable))
                   then {store[taskId].operationId} else {})
      decreases !fromPeer
    {
      if StatusOf(code).None? {
        return Err(UnknownStatus);
      }
      if taskId !in store {
        return Err(NoSuchTask);
      }
      var status := StatusOf(code).value;
      var task := store[taskId];
      if task.status != status {
        task := task.(status := status, operationId := freshId);
        store := store[taskId := task];
      }
      if status == DELETE {
        Finish(localIp, task, localIp in throwing);
        if !fromPeer {
          Forward(nodeCaches - {localIp}, taskId, code, freshId, reachable, throwing);
        }
      }
      return Ok(());
    }

    /** The event listener of a worker ran the event of the task, and recorded it unless the handler threw. */
    method Finish(worker: string, task: Task, throws: bool)
      modifies this`finished
      ensures forall w ::
                FinishedOn(w) == old(FinishedOn(w)) + (if w == worker && !throws then {task.operationId} else {})
    {
      if throws {
        return;
      }
      finished := finished[worker := (if worker in finished then finished[worker] else {}) + {task.operationId}];
    }

    method Forward(nodes: set<string>, taskId: string, code: string, freshId: string, reachable: set<string>,
                   throwing: set<string>)
      requires taskId in store && code == "DELETE" && store[taskId].status == DELETE
      modifies this`store, this`finished
      ensures store == old(store)
      ensures forall w :: FinishedOn(w) ==
                old(FinishedOn(w)) +
                (if w in nodes && w in reachable && w !in throwing then {store[taskId].operationId} else {})
      decreases true, 0
    {
      var tmpNodes := nodes;
      while tmpNodes != {}
        invariant tmpNodes <= nodes && store == old(store)
        invariant forall w :: FinishedOn(w) == old(FinishedOn(w)) +
                    (if w in nodes && w !in tmpNodes && w in reachable && w !in throwing
                     then {store[taskId].operationId} else {})
        decreases tmpNodes
      {
        var node :| node in tmpNodes;
        tmpNodes := tmpNodes - {node};
        if node in reachable {
          var _ := Update(node, taskId, code, true, freshId, reachable, throwing);
        }
      }
    }

    /** TaskAddProcessor.process; true when the task already runs and nothing is done. */
    method Add(request: Task, knownClusters: set<string>, supported: bool, freshId: string)
      returns (r: Result<bool, Problem>)
      modifies this`store
      ensures r == (if request.destClusterId !in knownClusters || request.sourceClusterId !in knownClusters
                    then Err(NoSuchCluster)
                    else if !supported then Err(UnsupportedSyncType)
                    else Ok(request.taskId in old(store) && old(store)[request.taskId].status == SYNC))
      ensures r != Ok(false) ==> store == old(store)
      ensures r == Ok(false) ==>
                var id := request.taskId;
                var from := if id in old(store) then old(store)[id] else request;
                && id in store && store == old(store)[id := store[id]]
                && store[id].status == SYNC && store[id].operationId == freshId
                && store[id].(status := from.status, operationId := from.operationId) == from
    {
      if request.destClusterId !in knownClusters || request.sourceClusterId !in knownClusters {
        return Err(NoSuchCluster);
      }
      if !supported {
        return Err(UnsupportedSyncType);
      }
      if request.taskId !in store {
        var task := request.(status := SYNC);
        task := task.(operationId := freshId);
        store := store[request.taskId := task];
        return Ok(false);
      }
      var task := store[request.taskId];
      if task.status != SYNC {
        task := task.(status := SYNC);
        task := task.(operationId := freshId);
        store := store[request.taskId := task];
        return Ok(false);
      }
      return Ok(true);
    }
  }
}
