/**
 * The bounded worker pool (workerpool/workerpool.go) as a transition system. Every event is one
 * atomic action of one goroutine: a critical section, a channel operation or an atomic add.
 */
module WorkerPool {

  /** A submission and the task and handle that come from it. */
  type Id = nat

  /** Where a `Submit` call is, once it has joined `inFlight`. */
  datatype Submitter =
    | Selecting            // in the select statement
    | Sent                 // the send happened, `accepted` not yet incremented
    | Counted              // `accepted` incremented, `inFlight.Done` pending
    | GaveUp               // took the ctx or closing case, `inFlight.Done` pending
    | Returned(ok: bool)

  /** Where a worker is. */
  datatype Worker =
    | Receiving
    | Got(t: Id)                     // received, `running` not yet incremented
    | Running(t: Id)                 // executing the task
    | Ran(t: Id, err: bool)          // executed, `running` not yet decremented
    | Left(t: Id, err: bool)         // `running` decremented
    | Completed(t: Id, err: bool)    // `completed` incremented
    | Recorded(t: Id, err: bool)     // `failed` incremented if needed, handle not yet set
    | Exited

  /** The goroutine that `Close` starts. */
  datatype Closer = NotStarted | AwaitSubmitters | AwaitWorkers | Finished

  datatype State = State(
    cap: nat, closed: bool, closer: Closer, inFlight: int,
    subs: map<Id, Submitter>, queue: seq<Id>, workers: seq<Worker>,
    executed: multiset<Id>, results: map<Id, bool>,
    running: int, accepted: int, completed: int, failed: int, rejected: int,
    panicked: bool)
  {
    /** `p.tasks` has been closed. */
    predicate TasksClosed() {
      closer == AwaitWorkers || closer == Finished
    }

    /** `p.done` has been closed: every `Close` call may return nil. */
    predicate Done() {
      closer == Finished
    }
  }

  datatype Event =
    | SubmitBegin(id: Id)              // Submit's critical section
    | Send(id: Id)                     // p.tasks <- t into the buffer
    | Handoff(id: Id, w: nat)          // p.tasks <- t straight to a waiting worker
    | Abandon(id: Id, onClose: bool)   // <-p.closing or <-ctx.Done()
    | CountAccepted(id: Id)
    | LeaveSubmit(id: Id)              // deferred inFlight.Done()
    | CloseCall                        // Close's critical section
    | CloseTasks                       // inFlight.Wait() returned; close(p.tasks)
    | CloseDone                        // wg.Wait() returned; close(p.done)
    | Receive(w: nat)
    | Exit(w: nat)
    | StartRun(w: nat)
    | Execute(w: nat, err: bool)       // runTask: the task returns, fails or panics
    | EndRun(w: nat)
    | CountCompleted(w: nat)
    | CountFailed(w: nat)
    | SetResult(w: nat)

  function Init(workers: nat, cap: nat): State {
    State(cap, false, NotStarted, 0, map[], [], seq(workers, _ => Receiving), multiset{}, map[], 0, 0, 0, 0, 0, false)
  }

  predicate IsWorker(s: State, w: nat) {
    w < |s.workers|
  }

  predicate Enabled(s: State, e: Event) {
    match e
    case SubmitBegin(id) => id !in s.subs
    case Send(id) => id in s.subs && s.subs[id] == Selecting && (s.TasksClosed() || |s.queue| < s.cap)
    case Handoff(id, w) => id in s.subs && s.subs[id] == Selecting && s.queue == [] && IsWorker(s, w) && s.workers[w] == Receiving
    case Abandon(id, onClose) => id in s.subs && s.subs[id] == Selecting && (onClose ==> s.closed)
    case CountAccepted(id) => id in s.subs && s.subs[id] == Sent
    case LeaveSubmit(id) => id in s.subs && (s.subs[id] == Counted || s.subs[id] == GaveUp)
    case CloseCall => true
    case CloseTasks => s.closer == AwaitSubmitters && s.inFlight == 0
    case CloseDone => s.closer == AwaitWorkers && forall w | 0 <= w < |s.workers| :: s.workers[w] == Exited
    case Receive(w) => IsWorker(s, w) && s.workers[w] == Receiving && s.queue != []
    case Exit(w) => IsWorker(s, w) && s.workers[w] == Receiving && s.queue == [] && s.TasksClosed()
    case StartRun(w) => IsWorker(s, w) && s.workers[w].Got?
    case Execute(w, _) => IsWorker(s, w) && s.workers[w].Running?
    case EndRun(w) => IsWorker(s, w) && s.workers[w].Ran?
    case CountCompleted(w) => IsWorker(s, w) && s.workers[w].Left?
    case CountFailed(w) => IsWorker(s, w) && s.workers[w].Completed?
    case SetResult(w) => IsWorker(s, w) && s.workers[w].Recorded?
  }

  /** The step. A send on a closed channel, which never blocks, and a second close of a handle's channel are panics. */
  function Apply(s: State, e: Event): State
    requires Enabled(s, e)
  {
    match e
    case SubmitBegin(id) =>
      if s.closed then s.(subs := s.subs[id := Returned(false)], rejected := s.rejected + 1)
      else s.(subs := s.subs[id := Selecting], inFlight := s.inFlight + 1)
    case Send(id) =>
      if s.TasksClosed() then s.(panicked := true)
      else s.(subs := s.subs[id := Sent], queue := s.queue + [id])
    case Handoff(id, w) =>
      if s.TasksClosed() then s.(panicked := true)
      else s.(subs := s.subs[id := Sent], workers := s.workers[w := Got(id)])
    case Abandon(id, _) => s.(subs := s.subs[id := GaveUp], rejected := s.rejected + 1)
    case CountAccepted(id) => s.(subs := s.subs[id := Counted], accepted := s.accepted + 1)
    case LeaveSubmit(id) => s.(subs := s.subs[id := Returned(s.subs[id] == Counted)], inFlight := s.inFlight - 1)
    case CloseCall => if s.closed then s else s.(closed := true, closer := AwaitSubmitters)
    case CloseTasks => s.(closer := AwaitWorkers)
    case CloseDone => s.(closer := Finished)
    case Receive(w) => s.(workers := s.workers[w := Got(s.queue[0])], queue := s.queue[1..])
    case Exit(w) => s.(workers := s.workers[w := Exited])
    case StartRun(w) => s.(workers := s.workers[w := Running(s.workers[w].t)], running := s.running + 1)
    case Execute(w, err) =>
      var t := s.workers[w].t;
      s.(workers := s.workers[w := Ran(t, err)], executed := s.executed + multiset{t})
    case EndRun(w) => s.(workers := s.workers[w := Left(s.workers[w].t, s.workers[w].err)], running := s.running - 1)
    case CountCompleted(w) =>
      s.(workers := s.workers[w := Completed(s.workers[w].t, s.workers[w].err)], completed := s.completed + 1)
    case CountFailed(w) =>
      s.(workers := s.workers[w := Recorded(s.workers[w].t, s.workers[w].err)],
      failed := if s.workers[w].err then s.failed + 1 else s.failed)
    case SetResult(w) =>
      var t := s.workers[w].t;
      if t in s.results then s.(panicked := true)
      else s.(workers := s.workers[w := Receiving], results := s.results[t := s.workers[w].err])
  }

  // ----- Views of a state -----

  function InFlightIds(subs: map<Id, Submitter>): set<Id> {
    set i | i in subs.Keys && !subs[i].Returned?
  }

  /** Tasks that went onto the channel. */
  predicate WasSent(subs: map<Id, Submitter>, t: Id) {
    t in subs && (subs[t] == Sent || subs[t] == Counted || subs[t] == Returned(true))
  }

  function CountedIds(subs: map<Id, Submitter>): set<Id> {
    set i | i in subs.Keys && (subs[i] == Counted || subs[i] == Returned(true))
  }

  function RejectedIds(subs: map<Id, Submitter>): set<Id> {
    set i | i in subs.Keys && (subs[i] == GaveUp || subs[i] == Returned(false))
  }

  predicate Holds(w: Worker) {
    !w.Receiving? && !w.Exited?
  }

  predicate HoldsTask(w: Worker, t: Id) {
    Holds(w) && w.t == t
  }

  /** The worker has executed the task it holds. */
  predicate HasRun(w: Worker) {
    w.Ran? || w.Left? || w.Completed? || w.Recorded?
  }

  predicate Held(workers: seq<Worker>, t: Id) {
    exists w | 0 <= w < |workers| :: HoldsTask(workers[w], t)
  }

  predicate HeldRun(workers: seq<Worker>, t: Id) {
    exists w | 0 <= w < |workers| :: HoldsTask(workers[w], t) && HasRun(workers[w])
  }

  function RunningIdx(workers: seq<Worker>): set<nat> {
    set w | 0 <= w < |workers| && (workers[w].Running? || workers[w].Ran?)
  }

  function CompletedIdx(workers: seq<Worker>): set<nat> {
    set w | 0 <= w < |workers| && (workers[w].Completed? || workers[w].Recorded?)
  }

  function FailedIdx(workers: seq<Worker>): set<nat> {
    set w | 0 <= w < |workers| && workers[w].Recorded? && workers[w].err
  }

  function FailedIds(results: map<Id, bool>): set<Id> {
    set t | t in results.Keys && results[t]
  }

  // ----- The invariant -----

  /** Counters agree with the program counters. */
  ghost predicate Counters(s: State) {
    && s.inFlight == |InFlightIds(s.subs)|
    && s.accepted == |CountedIds(s.subs)|
    && s.running == |RunningIdx(s.workers)|
    && s.rejected == |RejectedIds(s.subs)|
    && s.completed == |s.results| + |CompletedIdx(s.workers)|
    && s.failed == |FailedIds(s.results)| + |FailedIdx(s.workers)|
  }

  /** The close protocol: the channel closes only after the last submitter has left. */
  ghost predicate Protocol(s: State) {
    && !s.panicked
    && (s.closed <==> s.closer != NotStarted)
    && (s.TasksClosed() ==> InFlightIds(s.subs) == {})
    && (forall w | 0 <= w < |s.workers| && s.workers[w] == Exited :: s.queue == [] && s.TasksClosed())
    && (s.Done() ==> forall w | 0 <= w < |s.workers| :: s.workers[w] == Exited)
    && |s.queue| <= s.cap
  }

  /** No task is in two hands. */
  ghost predicate HeldApart(workers: seq<Worker>) {
    forall v, w | 0 <= v < w < |workers| && Holds(workers[v]) && Holds(workers[w]) :: workers[v].t != workers[w].t
  }

  /** Every sent task is in exactly one place: the queue, one worker, or finished. */
  ghost predicate PlacedAt(subs: map<Id, Submitter>, queue: seq<Id>, workers: seq<Worker>, results: map<Id, bool>) {
    && (forall t :: WasSent(subs, t) <==> t in queue || Held(workers, t) || t in results)
    && (forall i, j | 0 <= i < j < |queue| :: queue[i] != queue[j])
    && HeldApart(workers)
    && (forall t | t in queue :: !Held(workers, t) && t !in results)
    && (forall t | Held(workers, t) :: t !in results)
  }

  ghost predicate Placed(s: State) {
    PlacedAt(s.subs, s.queue, s.workers, s.results)
  }

  /** A task has been executed once if it is past its run, and not at all otherwise. */
  ghost predicate ExecutedOnce(s: State) {
    forall t :: s.executed[t] == if t in s.results || HeldRun(s.workers, t) then 1 else 0
  }

  ghost predicate Inv(s: State) {
    Counters(s) && Protocol(s) && Placed(s) && ExecutedOnce(s)
  }

  function Bit(b: bool): int {
    if b then 1 else 0
  }

  lemma CardUpdate<T>(before: set<T>, after: set<T>, x: T)
    requires after - {x} == before - {x}
    ensures |after| == |before| + Bit(x in after) - Bit(x in before)
  {
    assert before == (before - {x}) + if x in before then {x} else {};
    assert after == (after - {x}) + if x in after then {x} else {};
  }

  /** How the counted sets of submitters change when one program counter moves. */
  lemma SubsUpdate(subs: map<Id, Submitter>, id: Id, pc: Submitter)
    ensures var subs' := subs[id := pc];
            && |InFlightIds(subs')| == |InFlightIds(subs)| + Bit(!pc.Returned?) - Bit(id in subs && !subs[id].Returned?)
            && |CountedIds(subs')| == |CountedIds(subs)| + Bit(pc == Counted || pc == Returned(true))
                 - Bit(id in subs && (subs[id] == Counted || subs[id] == Returned(true)))
            && |RejectedIds(subs')| == |RejectedIds(subs)| + Bit(pc == GaveUp || pc == Returned(false))
                 - Bit(id in subs && (subs[id] == GaveUp || subs[id] == Returned(false)))
  {
    var subs' := subs[id := pc];
    CardUpdate(InFlightIds(subs), InFlightIds(subs'), id);
    CardUpdate(CountedIds(subs), CountedIds(subs'), id);
    CardUpdate(RejectedIds(subs), RejectedIds(subs'), id);
  }

  /** How the counted sets of workers change when one program counter moves. */
  lemma WorkersUpdate(workers: seq<Worker>, w: nat, x: Worker)
    requires w < |workers|
    ensures var ws, y := workers[w := x], workers[w];
            && |RunningIdx(ws)| == |RunningIdx(workers)| + Bit(x.Running? || x.Ran?) - Bit(y.Running? || y.Ran?)
            && |CompletedIdx(ws)| == |CompletedIdx(workers)| + Bit(x.Completed? || x.Recorded?) - Bit(y.Completed? || y.Recorded?)
            && |FailedIdx(ws)| == |FailedIdx(workers)| + Bit(x.Recorded? && x.err) - Bit(y.Recorded? && y.err)
  {
    var ws := workers[w := x];
    CardUpdate(RunningIdx(workers), RunningIdx(ws), w);
    CardUpdate(CompletedIdx(workers), CompletedIdx(ws), w);
    CardUpdate(FailedIdx(workers), FailedIdx(ws), w);
  }

  lemma ResultsUpdate(results: map<Id, bool>, t: Id, err: bool)
    requires t !in results
    ensures |results[t := err]| == |results| + 1
    ensures |FailedIds(results[t := err])| == |FailedIds(results)| + Bit(err)
  {
    assert results[t := err].Keys == results.Keys + {t};
    CardUpdate(FailedIds(results), FailedIds(results[t := err]), t);
  }

  /** Only these events touch a submitter's program counter. */
  predicate SubmitterEvent(e: Event) {
    e.SubmitBegin? || e.Send? || e.Handoff? || e.Abandon? || e.CountAccepted? || e.LeaveSubmit?
  }

  predicate CloserEvent(e: Event) {
    e.CloseCall? || e.CloseTasks? || e.CloseDone?
  }

  lemma SubmitterKeepsCounters(s: State, e: Event)
    requires Counters(s) && Enabled(s, e) && SubmitterEvent(e) && !Apply(s, e).panicked
    ensures Counters(Apply(s, e))
  {
    hide InFlightIds, CountedIds, RejectedIds, RunningIdx, CompletedIdx, FailedIdx, FailedIds;
    SubsUpdate(s.subs, e.id, Apply(s, e).subs[e.id]);
    if e.Handoff? {
      WorkersUpdate(s.workers, e.w, Got(e.id));
    }
  }

  lemma CloserKeepsCounters(s: State, e: Event)
    requires Counters(s) && Enabled(s, e) && CloserEvent(e)
    ensures Counters(Apply(s, e))
  {
    hide InFlightIds, CountedIds, RejectedIds, RunningIdx, CompletedIdx, FailedIdx, FailedIds;
  }

  lemma WorkerMoveKeepsCounters(s: State, e: Event)
    requires Counters(s) && Enabled(s, e) && !SubmitterEvent(e) && !CloserEvent(e) && !e.SetResult?
    ensures Counters(Apply(s, e))
  {
    hide InFlightIds, CountedIds, RejectedIds, RunningIdx, CompletedIdx, FailedIdx, FailedIds;
    WorkersUpdate(s.workers, e.w, Apply(s, e).workers[e.w]);
  }

  lemma ResultKeepsCounters(s: State, w: nat)
    requires Counters(s) && Enabled(s, SetResult(w)) && !Apply(s, SetResult(w)).panicked
    ensures Counters(Apply(s, SetResult(w)))
  {
    hide InFlightIds, CountedIds, RejectedIds, RunningIdx, CompletedIdx, FailedIdx, FailedIds;
    WorkersUpdate(s.workers, w, Receiving);
    ResultsUpdate(s.results, s.workers[w].t, s.workers[w].err);
  }

  lemma WorkerKeepsCounters(s: State, e: Event)
    requires Counters(s) && Enabled(s, e) && !SubmitterEvent(e) && !Apply(s, e).panicked
    ensures Counters(Apply(s, e))
  {
    hide Counters, Apply, Enabled;
    if CloserEvent(e) {
      CloserKeepsCounters(s, e);
    } else if e.SetResult? {
      ResultKeepsCounters(s, e.w);
    } else {
      WorkerMoveKeepsCounters(s, e);
    }
  }

  /** No send meets a closed channel and no handle is closed twice; the close protocol is kept. */
  lemma ProtocolKept(s: State, e: Event)
    requires Counters(s) && Protocol(s) && Placed(s) && Enabled(s, e)
    ensures Protocol(Apply(s, e))
  {
    if SubmitterEvent(e) {
      SubmitterKeepsProtocol(s, e);
    } else {
      WorkerKeepsProtocol(s, e);
    }
  }

  lemma SubmitterKeepsProtocol(s: State, e: Event)
    requires Protocol(s) && Enabled(s, e) && SubmitterEvent(e)
    ensures Protocol(Apply(s, e))
  {
    if e.id in s.subs {
      assert !s.subs[e.id].Returned? ==> e.id in InFlightIds(s.subs);
    }
  }

  lemma WorkerKeepsProtocol(s: State, e: Event)
    requires Counters(s) && Protocol(s) && Placed(s) && Enabled(s, e) && !SubmitterEvent(e)
    ensures Protocol(Apply(s, e))
  {
    hide Counters, Protocol, PlacedAt, Apply;
    if CloserEvent(e) {
      CloserKeepsProtocol(s, e);
    } else {
      if e.SetResult? {
        NotSetYet(s.subs, s.queue, s.workers, s.results, e.w);
      }
      WorkerMoveKeepsProtocol(s, e);
    }
  }

  /** A task in a worker's hands has no result yet. */
  lemma NotSetYet(subs: map<Id, Submitter>, queue: seq<Id>, workers: seq<Worker>, results: map<Id, bool>, w: nat)
    requires PlacedAt(subs, queue, workers, results) && w < |workers| && Holds(workers[w])
    ensures workers[w].t !in results
  {
    hide HeldApart, WasSent;
    assert HoldsTask(workers[w], workers[w].t);
  }

  lemma CloserKeepsProtocol(s: State, e: Event)
    requires Counters(s) && Protocol(s) && Enabled(s, e) && CloserEvent(e)
    ensures Protocol(Apply(s, e))
  {
    hide CountedIds, RejectedIds, RunningIdx, CompletedIdx, FailedIdx, FailedIds;
  }

  lemma WorkerMoveKeepsProtocol(s: State, e: Event)
    requires Protocol(s) && Enabled(s, e) && !SubmitterEvent(e) && !CloserEvent(e)
    requires e.SetResult? ==> s.workers[e.w].t !in s.results
    ensures Protocol(Apply(s, e))
  {
    hide InFlightIds;
  }

  lemma HeldUpdate(workers: seq<Worker>, w: nat, x: Worker, t: Id)
    requires w < |workers| && HeldApart(workers)
    ensures Held(workers[w := x], t) <==> HoldsTask(x, t) || (Held(workers, t) && !HoldsTask(workers[w], t))
    ensures HeldRun(workers[w := x], t) <==>
            (HoldsTask(x, t) && HasRun(x)) || (HeldRun(workers, t) && !HoldsTask(workers[w], t))
  {
    var ws := workers[w := x];
    if Held(ws, t) && !HoldsTask(x, t) {
      var v :| 0 <= v < |ws| && HoldsTask(ws[v], t);
      assert workers[v] == ws[v];
    }
    if v :| 0 <= v < |workers| && v != w && HoldsTask(workers[v], t) {
      assert ws[v] == workers[v];
    }
    assert HoldsTask(x, t) ==> HoldsTask(ws[w], t);
  }

  lemma ApartUpdate(workers: seq<Worker>, w: nat, x: Worker)
    requires w < |workers| && HeldApart(workers)
    requires Holds(x) && !HoldsTask(workers[w], x.t) ==> !Held(workers, x.t)
    ensures HeldApart(workers[w := x])
  {
    var ws := workers[w := x];
    forall u, v | 0 <= u < v < |ws| && Holds(ws[u]) && Holds(ws[v]) ensures ws[u].t != ws[v].t {
      if u == w {
        assert !HoldsTask(workers[v], x.t);
      } else if v == w {
        assert !HoldsTask(workers[u], x.t);
      }
    }
  }

  lemma HeldAfter(workers: seq<Worker>, w: nat, x: Worker)
    requires w < |workers| && HeldApart(workers)
    ensures forall t :: Held(workers[w := x], t) <==> HoldsTask(x, t) || (Held(workers, t) && !HoldsTask(workers[w], t))
    ensures Holds(workers[w]) ==> Held(workers, workers[w].t)
  {
    hide Held;
    forall t ensures Held(workers[w := x], t) <==> HoldsTask(x, t) || (Held(workers, t) && !HoldsTask(workers[w], t)) {
      HeldUpdate(workers, w, x, t);
    }
    if Holds(workers[w]) {
      HeldUpdate(workers, w, workers[w], workers[w].t);
      assert workers[w := workers[w]] == workers;
    }
  }

  // What a change of one program counter does to the place of every task.

  lemma PcKeepsPlaced(subs: map<Id, Submitter>, queue: seq<Id>, workers: seq<Worker>, results: map<Id, bool>, id: Id, pc: Submitter)
    requires PlacedAt(subs, queue, workers, results) && (WasSent(subs[id := pc], id) <==> WasSent(subs, id))
    ensures PlacedAt(subs[id := pc], queue, workers, results)
  {
    hide HeldApart, Held;
    assert forall t | t != id :: WasSent(subs[id := pc], t) <==> WasSent(subs, t);
  }

  lemma SendKeepsPlaced(subs: map<Id, Submitter>, queue: seq<Id>, workers: seq<Worker>, results: map<Id, bool>, id: Id)
    requires PlacedAt(subs, queue, workers, results) && !WasSent(subs, id)
    ensures PlacedAt(subs[id := Sent], queue + [id], workers, results)
  {
    hide HeldApart, Held;
    assert id !in queue && !Held(workers, id) && id !in results;
    assert forall t | t != id :: WasSent(subs[id := Sent], t) <==> WasSent(subs, t);
    assert forall t :: t in queue + [id] <==> t in queue || t == id;
  }

  lemma HandoffKeepsPlaced(subs: map<Id, Submitter>, queue: seq<Id>, workers: seq<Worker>, results: map<Id, bool>, id: Id, w: nat)
    requires PlacedAt(subs, queue, workers, results) && !WasSent(subs, id) && w < |workers| && !Holds(workers[w])
    ensures PlacedAt(subs[id := Sent], queue, workers[w := Got(id)], results)
  {
    hide HeldApart, Held;
    assert id !in queue && !Held(workers, id) && id !in results;
    ApartUpdate(workers, w, Got(id));
    HeldAfter(workers, w, Got(id));
    assert forall t :: Held(workers[w := Got(id)], t) <==> Held(workers, t) || t == id;
    var subs' := subs[id := Sent];
    forall t ensures WasSent(subs', t) <==> t in queue || Held(workers[w := Got(id)], t) || t in results {
      assert t != id ==> (WasSent(subs', t) <==> WasSent(subs, t));
    }
    assert forall t | t != id :: WasSent(subs[id := Sent], t) <==> WasSent(subs, t);
  }

  lemma SubmitterKeepsPlaced(s: State, e: Event)
    requires Placed(s) && Enabled(s, e) && SubmitterEvent(e) && !Apply(s, e).panicked
    ensures Placed(Apply(s, e))
  {
    hide PlacedAt;
    if e.Send? {
      SendKeepsPlaced(s.subs, s.queue, s.workers, s.results, e.id);
    } else if e.Handoff? {
      HandoffKeepsPlaced(s.subs, s.queue, s.workers, s.results, e.id, e.w);
    } else {
      PcKeepsPlaced(s.subs, s.queue, s.workers, s.results, e.id, Apply(s, e).subs[e.id]);
    }
  }

  /** The worker holds the task it held before, if any. */
  predicate SameTask(x: Worker, y: Worker) {
    Holds(x) == Holds(y) && (Holds(x) ==> x.t == y.t)
  }

  lemma SameTaskKeepsPlaced(subs: map<Id, Submitter>, queue: seq<Id>, workers: seq<Worker>, results: map<Id, bool>, w: nat, x: Worker)
    requires PlacedAt(subs, queue, workers, results) && w < |workers| && SameTask(x, workers[w])
    ensures PlacedAt(subs, queue, workers[w := x], results)
  {
    hide HeldApart, Held, WasSent;
    ApartUpdate(workers, w, x);
    HeldAfter(workers, w, x);
    assert forall t :: Held(workers[w := x], t) <==> Held(workers, t);
  }

  lemma ReceiveKeepsPlaced(subs: map<Id, Submitter>, queue: seq<Id>, workers: seq<Worker>, results: map<Id, bool>, w: nat)
    requires PlacedAt(subs, queue, workers, results) && w < |workers| && !Holds(workers[w]) && queue != []
    ensures PlacedAt(subs, queue[1..], workers[w := Got(queue[0])], results)
  {
    hide HeldApart, Held, WasSent;
    var t0 := queue[0];
    assert t0 in queue;
    assert forall t :: t in queue[1..] <==> t in queue && t != t0;
    ApartUpdate(workers, w, Got(t0));
    HeldAfter(workers, w, Got(t0));
    assert forall t :: Held(workers[w := Got(t0)], t) <==> Held(workers, t) || t == t0;
  }

  lemma FinishKeepsPlaced(subs: map<Id, Submitter>, queue: seq<Id>, workers: seq<Worker>, results: map<Id, bool>, w: nat, err: bool)
    requires PlacedAt(subs, queue, workers, results) && w < |workers| && Holds(workers[w])
    ensures PlacedAt(subs, queue, workers[w := Receiving], results[workers[w].t := err])
  {
    hide HeldApart, Held, WasSent;
    var t0 := workers[w].t;
    ApartUpdate(workers, w, Receiving);
    HeldAfter(workers, w, Receiving);
    assert forall t :: Held(workers[w := Receiving], t) <==> Held(workers, t) && t != t0;
  }

  lemma WorkerKeepsPlaced(s: State, e: Event)
    requires Placed(s) && Enabled(s, e) && !SubmitterEvent(e) && !Apply(s, e).panicked
    ensures Placed(Apply(s, e))
  {
    hide PlacedAt;
    if e.Receive? {
      ReceiveKeepsPlaced(s.subs, s.queue, s.workers, s.results, e.w);
    } else if e.SetResult? {
      FinishKeepsPlaced(s.subs, s.queue, s.workers, s.results, e.w, s.workers[e.w].err);
    } else if !CloserEvent(e) {
      SameTaskKeepsPlaced(s.subs, s.queue, s.workers, s.results, e.w, Apply(s, e).workers[e.w]);
    }
  }

  /** Task `t` has been executed as often as it should have been. */
  ghost predicate ExecutedAt(executed: multiset<Id>, workers: seq<Worker>, results: map<Id, bool>, t: Id) {
    executed[t] == if t in results || HeldRun(workers, t) then 1 else 0
  }

  predicate RanTask(x: Worker, t: Id) {
    HoldsTask(x, t) && HasRun(x)
  }

  lemma HeldRunAfter(workers: seq<Worker>, w: nat, x: Worker, t: Id)
    requires w < |workers| && HeldApart(workers)
    ensures HeldRun(workers[w := x], t) <==> RanTask(x, t) || (HeldRun(workers, t) && !HoldsTask(workers[w], t))
    ensures HoldsTask(workers[w], t) ==> (HeldRun(workers, t) <==> HasRun(workers[w]))
  {
    hide HeldRun, Held;
    HeldUpdate(workers, w, x, t);
    HeldUpdate(workers, w, workers[w], t);
    assert workers[w := workers[w]] == workers;
  }

  /** A worker's step other than the run itself and the setting of the result. */
  lemma MoveKeepsExecuted(executed: multiset<Id>, workers: seq<Worker>, results: map<Id, bool>, w: nat, x: Worker, t: Id)
    requires w < |workers| && HeldApart(workers) && ExecutedAt(executed, workers, results, t)
    requires (RanTask(x, t) <==> RanTask(workers[w], t)) && (HoldsTask(workers[w], t) ==> HoldsTask(x, t))
    ensures ExecutedAt(executed, workers[w := x], results, t)
  {
    hide HeldRun;
    HeldRunAfter(workers, w, x, t);
  }

  lemma RunCounts(executed: multiset<Id>, workers: seq<Worker>, results: map<Id, bool>, w: nat, err: bool, t: Id)
    requires w < |workers| && HeldApart(workers) && ExecutedAt(executed, workers, results, t)
    requires workers[w].Running? && workers[w].t !in results
    ensures ExecutedAt(executed + multiset{workers[w].t}, workers[w := Ran(workers[w].t, err)], results, t)
  {
    hide HeldRun;
    HeldRunAfter(workers, w, Ran(workers[w].t, err), t);
  }

  lemma ResultCounts(executed: multiset<Id>, workers: seq<Worker>, results: map<Id, bool>, w: nat, err: bool, t: Id)
    requires w < |workers| && HeldApart(workers) && ExecutedAt(executed, workers, results, t)
    requires workers[w].Recorded?
    ensures ExecutedAt(executed, workers[w := Receiving], results[workers[w].t := err], t)
  {
    hide HeldRun;
    HeldRunAfter(workers, w, Receiving, t);
  }

  lemma ExecutedTask(s: State, e: Event, t: Id)
    requires Placed(s) && ExecutedAt(s.executed, s.workers, s.results, t) && Enabled(s, e) && !Apply(s, e).panicked
    requires !CloserEvent(e) && (SubmitterEvent(e) ==> e.Handoff?)
    ensures var s' := Apply(s, e); ExecutedAt(s'.executed, s'.workers, s'.results, t)
  {
    hide ExecutedAt, PlacedAt, HeldApart;
    PlacedApart(s);
    if e.Execute? {
      NotSetYet(s.subs, s.queue, s.workers, s.results, e.w);
      RunCounts(s.executed, s.workers, s.results, e.w, e.err, t);
    } else if e.SetResult? {
      ResultCounts(s.executed, s.workers, s.results, e.w, s.workers[e.w].err, t);
    } else {
      MoveKeepsExecuted(s.executed, s.workers, s.results, e.w, Apply(s, e).workers[e.w], t);
    }
  }

  lemma PlacedApart(s: State)
    requires Placed(s)
    ensures HeldApart(s.workers)
  {
  }

  lemma ExecutedFrame(s: State, e: Event)
    requires Enabled(s, e) && (CloserEvent(e) || (SubmitterEvent(e) && !e.Handoff?))
    ensures var s' := Apply(s, e); s'.workers == s.workers && s'.results == s.results && s'.executed == s.executed
  {
  }

  lemma ExecutedKept(s: State, e: Event)
    requires Placed(s) && ExecutedOnce(s) && Enabled(s, e) && !Apply(s, e).panicked
    ensures ExecutedOnce(Apply(s, e))
  {
    hide HeldRun, Placed, Apply, Enabled;
    if CloserEvent(e) || (SubmitterEvent(e) && !e.Handoff?) {
      ExecutedFrame(s, e);
    } else {
      var s' := Apply(s, e);
      forall t ensures s'.executed[t] == if t in s'.results || HeldRun(s'.workers, t) then 1 else 0 {
        assert ExecutedAt(s.executed, s.workers, s.results, t);
        ExecutedTask(s, e, t);
        assert ExecutedAt(s'.executed, s'.workers, s'.results, t);
      }
    }
  }

  /** Every event keeps the invariant. */
  lemma StepKeepsInv(s: State, e: Event)
    requires Inv(s) && Enabled(s, e)
    ensures Inv(Apply(s, e))
  {
    hide Counters, Placed, ExecutedOnce, Apply;
    ProtocolKept(s, e);
    ExecutedKept(s, e);
    if SubmitterEvent(e) {
      SubmitterKeepsCounters(s, e);
      SubmitterKeepsPlaced(s, e);
    } else {
      WorkerKeepsCounters(s, e);
      WorkerKeepsPlaced(s, e);
    }
  }

  // ----- Whole runs -----

  ghost predicate Feasible(s: State, es: seq<Event>)
    decreases |es|
  {
    es == [] || (Enabled(s, es[0]) && Feasible(Apply(s, es[0]), es[1..]))
  }

  ghost function Exec(s: State, es: seq<Event>): State
    requires Feasible(s, es)
    decreases |es|
  {
    if es == [] then s else Exec(Apply(s, es[0]), es[1..])
  }

  lemma {:induction false} RunKeepsInv(s: State, es: seq<Event>)
    requires Inv(s) && Feasible(s, es)
    ensures Inv(Exec(s, es))
    decreases |es|
  {
    hide Inv, Apply, Enabled;
    if es != [] {
      StepKeepsInv(s, es[0]);
      RunKeepsInv(Apply(s, es[0]), es[1..]);
    }
  }

  lemma InitInv(workers: nat, cap: nat)
    ensures Inv(Init(workers, cap))
  {
    assert RunningIdx(Init(workers, cap).workers) == {};
    assert CompletedIdx(Init(workers, cap).workers) == {};
    assert FailedIdx(Init(workers, cap).workers) == {};
  }

  lemma {:induction false} SizesFixed(s: State, es: seq<Event>)
    requires Feasible(s, es)
    ensures |Exec(s, es).workers| == |s.workers| && Exec(s, es).cap == s.cap
    decreases |es|
  {
    hide Apply, Enabled;
    if es != [] {
      SizesFixedByStep(s, es[0]);
      SizesFixed(Apply(s, es[0]), es[1..]);
    }
  }

  lemma SizesFixedByStep(s: State, e: Event)
    requires Enabled(s, e)
    ensures |Apply(s, e).workers| == |s.workers| && Apply(s, e).cap == s.cap
  {
  }

  /**
   * Safety in every interleaving of any number of submitters, closers and workers: no panic (so no
   * send on the closed channel and no handle set twice), no task executed twice, a task executed
   * before its handle is set, and both limits respected.
   */
  lemma PoolIsSafe(workers: nat, cap: nat, es: seq<Event>)
    requires Feasible(Init(workers, cap), es)
    ensures var s := Exec(Init(workers, cap), es);
            && !s.panicked
            && 0 <= s.running <= workers && |s.queue| <= cap
            && (forall t :: s.executed[t] <= 1)
            && (forall t | t in s.results :: s.executed[t] == 1)
            && (forall t | s.executed[t] == 1 :: WasSent(s.subs, t))
            && 0 <= s.failed <= s.completed
  {
    hide WasSent, Held;
    InitInv(workers, cap);
    RunKeepsInv(Init(workers, cap), es);
    SizesFixed(Init(workers, cap), es);
    var s := Exec(Init(workers, cap), es);
    BoundedIdx(s.workers);
    FailedBelowCompleted(s);
    forall t | s.executed[t] == 1 ensures WasSent(s.subs, t) {
      RunIsHeld(s.workers, t);
    }
  }

  lemma RunIsHeld(workers: seq<Worker>, t: Id)
    ensures HeldRun(workers, t) ==> Held(workers, t)
  {
  }

  lemma {:induction false} BoundedIdx(workers: seq<Worker>)
    ensures |RunningIdx(workers)| <= |workers|
    decreases |workers|
  {
    if workers != [] {
      var n := |workers| - 1;
      BoundedIdx(workers[..n]);
      assert RunningIdx(workers) - {n} == RunningIdx(workers[..n]);
      CardUpdate(RunningIdx(workers[..n]), RunningIdx(workers), n);
    }
  }

  lemma SubsetCard<T>(a: set<T>, b: set<T>)
    requires a <= b
    ensures |a| <= |b|
  {
    assert b == a + (b - a);
  }

  lemma FailedBelowCompleted(s: State)
    requires Counters(s)
    ensures 0 <= s.failed <= s.completed
  {
    SubsetCard(FailedIds(s.results), s.results.Keys);
    SubsetCard(FailedIdx(s.workers), CompletedIdx(s.workers));
  }

  /**
   * When `done` is closed (only then can `Close` return nil) everything that was accepted has run
   * exactly once and its handle is set exactly once, nothing else has run, and the counters agree.
   */
  lemma DrainedWhenDone(workers: nat, cap: nat, es: seq<Event>)
    requires workers > 0 && Feasible(Init(workers, cap), es)
    requires Exec(Init(workers, cap), es).Done()
    ensures var s := Exec(Init(workers, cap), es);
            && s.queue == [] && s.running == 0 && s.inFlight == 0
            && (forall t :: t in s.results <==> t in s.subs && s.subs[t] == Returned(true))
            && (forall t :: s.executed[t] == if t in s.results then 1 else 0)
            && s.accepted == s.completed == |s.results| && s.accepted + s.rejected == |s.subs|
            && s.failed == |FailedIds(s.results)|
  {
    hide Inv, Feasible, Exec;
    InitInv(workers, cap);
    RunKeepsInv(Init(workers, cap), es);
    SizesFixed(Init(workers, cap), es);
    DoneMeansDrained(Exec(Init(workers, cap), es));
    DoneAddsUp(Exec(Init(workers, cap), es));
  }

  lemma DoneMeansDrained(s: State)
    requires Inv(s) && |s.workers| > 0 && s.Done()
    ensures s.queue == [] && s.running == 0 && s.inFlight == 0
    ensures forall t :: t in s.results <==> t in s.subs && s.subs[t] == Returned(true)
    ensures forall t :: s.executed[t] == if t in s.results then 1 else 0
    ensures s.accepted == s.completed == |s.results|
    ensures s.failed == |FailedIds(s.results)|
  {
    assert s.workers[0] == Exited;
    assert forall t :: !Held(s.workers, t) && !HeldRun(s.workers, t);
    assert RunningIdx(s.workers) == {} && CompletedIdx(s.workers) == {} && FailedIdx(s.workers) == {};
    forall t | t in s.subs ensures s.subs[t].Returned? {
      assert t !in InFlightIds(s.subs);
    }
    forall t ensures t in s.results <==> t in s.subs && s.subs[t] == Returned(true) {
      assert t in s.results <==> WasSent(s.subs, t);
    }
    assert CountedIds(s.subs) == s.results.Keys;
  }

  /** Every submission was counted once, as accepted or as rejected. */
  lemma DoneAddsUp(s: State)
    requires Inv(s) && s.Done()
    ensures s.accepted + s.rejected == |s.subs|
  {
    hide Placed, ExecutedOnce, RunningIdx, CompletedIdx, FailedIdx, FailedIds;
    forall t | t in s.subs ensures s.subs[t].Returned? {
      assert t !in InFlightIds(s.subs);
    }
    var a, r := CountedIds(s.subs), RejectedIds(s.subs);
    assert a !! r && a + r == s.subs.Keys;
  }

  /** A task that ran was sent, and it ran once. */
  lemma RanMeansSent(s: State, t: Id)
    requires Inv(s)
    ensures 0 <= s.executed[t] <= 1 && (s.executed[t] == 1 ==> WasSent(s.subs, t))
    ensures forall w | 0 <= w < |s.workers| && Holds(s.workers[w]) :: WasSent(s.subs, s.workers[w].t)
  {
    hide Counters, Protocol, WasSent;
    RunIsHeld(s.workers, t);
    forall w | 0 <= w < |s.workers| && Holds(s.workers[w]) ensures WasSent(s.subs, s.workers[w].t) {
      assert HoldsTask(s.workers[w], s.workers[w].t);
    }
  }

  /** Submissions that are sent but not yet counted. */
  function SentIds(subs: map<Id, Submitter>): set<Id> {
    set i | i in subs.Keys && subs[i] == Sent
  }

  /** The tasks counted as completed whose handle is not set yet. */
  function CompletedTasks(workers: seq<Worker>): set<Id> {
    set w | 0 <= w < |workers| && (workers[w].Completed? || workers[w].Recorded?) :: workers[w].t
  }

  predicate IsCompleted(w: Worker) {
    w.Completed? || w.Recorded?
  }

  lemma InCompleted(workers: seq<Worker>, w: nat)
    requires w < |workers| && IsCompleted(workers[w])
    ensures workers[w].t in CompletedTasks(workers)
  {
  }

  lemma CompletedTasksSnoc(front: seq<Worker>, last: Worker)
    ensures CompletedTasks(front + [last]) == CompletedTasks(front) + if IsCompleted(last) then {last.t} else {}
  {
    var workers := front + [last];
    var n := |front|;
    assert workers[n] == last;
    if IsCompleted(last) {
      InCompleted(workers, n);
    }
    forall t | t in CompletedTasks(front) ensures t in CompletedTasks(workers) {
      var w :| 0 <= w < n && IsCompleted(front[w]) && front[w].t == t;
      assert workers[w] == front[w];
      InCompleted(workers, w);
    }
    forall t | t in CompletedTasks(workers) ensures t in CompletedTasks(front) || (IsCompleted(last) && t == last.t) {
      var w :| 0 <= w <= n && IsCompleted(workers[w]) && workers[w].t == t;
      if w < n {
        assert workers[w] == front[w];
      }
    }
  }

  lemma CompletedIdxSnoc(front: seq<Worker>, last: Worker)
    ensures CompletedIdx(front + [last]) == CompletedIdx(front) + if IsCompleted(last) then {|front|} else {}
    ensures |front| !in CompletedIdx(front)
  {
    var workers := front + [last];
    assert forall w | 0 <= w < |front| :: workers[w] == front[w];
  }

  lemma {:induction false} CompletedApart(workers: seq<Worker>)
    requires HeldApart(workers)
    ensures |CompletedTasks(workers)| == |CompletedIdx(workers)|
  {
    hide CompletedTasks, CompletedIdx;
    if workers == [] {
      NoneCompleted(workers);
    } else {
      var n := |workers| - 1;
      var front, last := workers[..n], workers[n];
      assert workers == front + [last];
      CompletedApart(front);
      CompletedTasksSnoc(front, last);
      CompletedIdxSnoc(front, last);
      if IsCompleted(last) {
        LastIsApart(front, last);
      }
    }
  }

  lemma NoneCompleted(workers: seq<Worker>)
    requires workers == []
    ensures CompletedTasks(workers) == {} && CompletedIdx(workers) == {}
  {
  }

  lemma LastIsApart(front: seq<Worker>, last: Worker)
    requires HeldApart(front + [last]) && IsCompleted(last)
    ensures last.t !in CompletedTasks(front)
  {
    var workers := front + [last];
    forall w | 0 <= w < |front| && IsCompleted(front[w]) ensures front[w].t != last.t {
      assert workers[w] == front[w] && workers[|front|] == last;
    }
  }

  /** The tasks `completed` has counted. */
  function DoneTasks(s: State): set<Id> {
    s.results.Keys + CompletedTasks(s.workers)
  }

  /**
   * In every interleaving: a snapshot shows no more completed than accepted tasks exactly when the
   * completed tasks whose submitter has not counted them yet are no more than the counted ones still
   * to complete; so always when no submitter is between its send and its count, and otherwise
   * `accepted` lags behind by no more than those submitters.
   */
  lemma AcceptedLagsBehind(workers: nat, cap: nat, es: seq<Event>)
    requires Feasible(Init(workers, cap), es)
    ensures var s := Exec(Init(workers, cap), es);
            && (s.completed <= s.accepted <==> |DoneTasks(s) * SentIds(s.subs)| <= |CountedIds(s.subs) - DoneTasks(s)|)
            && (SentIds(s.subs) == {} ==> s.completed <= s.accepted)
            && s.completed <= s.accepted + |SentIds(s.subs)|
  {
    hide Exec, Feasible, Protocol, ExecutedOnce, Counters, Placed, DoneTasks, SentIds, CountedIds;
    InitInv(workers, cap);
    RunKeepsInv(Init(workers, cap), es);
    var s := Exec(Init(workers, cap), es);
    CompletedAre(s);
    CountSplit(DoneTasks(s), CountedIds(s.subs), SentIds(s.subs));
  }

  /** `completed` counts tasks that were sent, so either counted as accepted or not yet. */
  lemma CompletedAre(s: State)
    requires Counters(s) && Placed(s)
    ensures |DoneTasks(s)| == s.completed && |CountedIds(s.subs)| == s.accepted
    ensures DoneTasks(s) <= CountedIds(s.subs) + SentIds(s.subs) && CountedIds(s.subs) !! SentIds(s.subs)
  {
    hide CountedIds, SentIds, CompletedIdx, CompletedTasks, Held, WasSent, FailedIdx, FailedIds, RunningIdx, InFlightIds, RejectedIds;
    CompletedApart(s.workers);
    var held, finished := CompletedTasks(s.workers), s.results.Keys;
    forall t | t in held ensures t !in finished && t in CountedIds(s.subs) + SentIds(s.subs) {
      CompletedIsHeld(s.workers, t);
      SentIsEither(s.subs, t);
    }
    forall t | t in finished ensures t in CountedIds(s.subs) + SentIds(s.subs) {
      SentIsEither(s.subs, t);
    }
    CountedApart(s.subs);
    assert |finished + held| == |finished| + |held|;
  }

  /** A set split over two disjoint ones. */
  lemma CountSplit(done: set<Id>, counted: set<Id>, sent: set<Id>)
    requires done <= counted + sent && counted !! sent
    ensures |done| <= |counted| <==> |done * sent| <= |counted - done|
    ensures |done| <= |counted| + |sent|
    ensures sent == {} ==> |done| <= |counted|
  {
    assert done == (done * counted) + (done * sent);
    assert counted == (done * counted) + (counted - done);
    SubsetCard(done * sent, sent);
  }

  lemma CountedApart(subs: map<Id, Submitter>)
    ensures CountedIds(subs) !! SentIds(subs)
  {
  }

  lemma CompletedIsHeld(workers: seq<Worker>, t: Id)
    requires t in CompletedTasks(workers)
    ensures Held(workers, t)
  {
    var w :| 0 <= w < |workers| && (workers[w].Completed? || workers[w].Recorded?) && workers[w].t == t;
    assert HoldsTask(workers[w], t);
  }

  lemma SentIsEither(subs: map<Id, Submitter>, t: Id)
    requires WasSent(subs, t)
    ensures t in CountedIds(subs) + SentIds(subs)
  {
  }

  /** `accepted` lags behind: in mid-run a snapshot can show more completed tasks than accepted ones. */
  lemma CompletedCanExceedAccepted() returns (es: seq<Event>)
    ensures Feasible(Init(1, 0), es)
    ensures Exec(Init(1, 0), es).completed > Exec(Init(1, 0), es).accepted
  {
    hide Feasible, Exec, Apply, Enabled;
    var t: multiset<Id> := multiset{0};
    es := [];
    RunNone(OneTask(Sent, Completed(0, false), t, 0, 1));
    LoneSubmit();
    LoneRun();
    LoneCount();
    RunOne(OneTask(Sent, Left(0, false), t, 0, 0), CountCompleted(0), es);
    es := [CountCompleted(0)] + es;
    RunOne(OneTask(Sent, Ran(0, false), t, 1, 0), EndRun(0), es);
    es := [EndRun(0)] + es;
    RunOne(OneTask(Sent, Running(0), multiset{}, 1, 0), Execute(0, false), es);
    es := [Execute(0, false)] + es;
    RunOne(OneTask(Sent, Got(0), multiset{}, 0, 0), StartRun(0), es);
    es := [StartRun(0)] + es;
    RunOne(OneTask(Selecting, Receiving, multiset{}, 0, 0), Handoff(0, 0), es);
    es := [Handoff(0, 0)] + es;
    RunOne(Init(1, 0), SubmitBegin(0), es);
    es := [SubmitBegin(0)] + es;
  }

  /** One submitter, one worker, no buffer. */
  function OneTask(sub: Submitter, w: Worker, executed: multiset<Id>, running: int, completed: int): State {
    State(0, false, NotStarted, 1, map[0 := sub], [], [w], executed, map[], running, 0, completed, 0, 0, false)
  }

  predicate Leads(s: State, e: Event, s': State) {
    Enabled(s, e) && Apply(s, e) == s'
  }

  lemma LoneSubmit()
    ensures Leads(Init(1, 0), SubmitBegin(0), OneTask(Selecting, Receiving, multiset{}, 0, 0))
    ensures Leads(OneTask(Selecting, Receiving, multiset{}, 0, 0), Handoff(0, 0), OneTask(Sent, Got(0), multiset{}, 0, 0))
  {
    assert Init(1, 0).workers == [Receiving];
    assert map[0 := Selecting][0 := Sent] == map[0 := Sent];
  }

  lemma LoneRun()
    ensures Leads(OneTask(Sent, Got(0), multiset{}, 0, 0), StartRun(0), OneTask(Sent, Running(0), multiset{}, 1, 0))
    ensures Leads(OneTask(Sent, Running(0), multiset{}, 1, 0), Execute(0, false), OneTask(Sent, Ran(0, false), multiset{0}, 1, 0))
  {
    assert multiset{} + multiset{0} == multiset{0};
  }

  lemma LoneCount()
    ensures Leads(OneTask(Sent, Ran(0, false), multiset{0}, 1, 0), EndRun(0), OneTask(Sent, Left(0, false), multiset{0}, 0, 0))
    ensures Leads(OneTask(Sent, Left(0, false), multiset{0}, 0, 0), CountCompleted(0), OneTask(Sent, Completed(0, false), multiset{0}, 0, 1))
  {
  }

  lemma RunNone(s: State)
    ensures Feasible(s, []) && Exec(s, []) == s
  {
  }

  lemma RunOne(s: State, e: Event, rest: seq<Event>)
    requires Enabled(s, e) && Feasible(Apply(s, e), rest)
    ensures Feasible(s, [e] + rest) && Exec(s, [e] + rest) == Exec(Apply(s, e), rest)
  {
    hide Apply, Enabled;
    assert ([e] + rest)[1..] == rest;
  }

  // ----- Close terminates -----

  /** Everything but new calls from outside. */
  predicate Internal(e: Event) {
    !e.SubmitBegin? && !e.CloseCall?
  }

  function Weight(w: Worker): nat {
    match w
    case Receiving => 1
    case Got(_) => 7
    case Running(_) => 6
    case Ran(_, _) => 5
    case Left(_, _) => 4
    case Completed(_, _) => 3
    case Recorded(_, _) => 2
    case Exited => 0
  }

  function Weights(workers: seq<Worker>): nat {
    if workers == [] then 0 else Weight(workers[0]) + Weights(workers[1..])
  }

  function SelectingIds(subs: map<Id, Submitter>): set<Id> {
    set i | i in subs.Keys && subs[i].Selecting?
  }

  function UncountedIds(subs: map<Id, Submitter>): set<Id> {
    set i | i in subs.Keys && (subs[i].Selecting? || subs[i].Sent?)
  }

  function CloserWeight(c: Closer): nat {
    match c
    case NotStarted => 0
    case AwaitSubmitters => 2
    case AwaitWorkers => 1
    case Finished => 0
  }

  /** The work left before the pool is drained. */
  function Measure(s: State): nat {
    8 * |SelectingIds(s.subs)| + |UncountedIds(s.subs)| + |InFlightIds(s.subs)|
    + 7 * |s.queue| + Weights(s.workers) + CloserWeight(s.closer)
  }

  lemma {:induction false} WeightsUpdate(workers: seq<Worker>, w: nat, x: Worker)
    requires w < |workers|
    ensures Weights(workers[w := x]) == Weights(workers) - Weight(workers[w]) + Weight(x)
    decreases |workers|
  {
    var ws := workers[w := x];
    if w == 0 {
      assert ws[1..] == workers[1..];
    } else {
      assert ws[1..] == workers[1..][w - 1 := x];
      WeightsUpdate(workers[1..], w - 1, x);
    }
  }

  lemma StageUpdate(subs: map<Id, Submitter>, id: Id, pc: Submitter)
    requires id in subs
    ensures var subs' := subs[id := pc];
            && |SelectingIds(subs')| == |SelectingIds(subs)| + Bit(pc.Selecting?) - Bit(subs[id].Selecting?)
            && |UncountedIds(subs')| == |UncountedIds(subs)| + Bit(pc.Selecting? || pc.Sent?) - Bit(subs[id].Selecting? || subs[id].Sent?)
  {
    var subs' := subs[id := pc];
    CardUpdate(SelectingIds(subs), SelectingIds(subs'), id);
    CardUpdate(UncountedIds(subs), UncountedIds(subs'), id);
  }

  lemma SubmitterStepDecreases(s: State, e: Event)
    requires Enabled(s, e) && Internal(e) && SubmitterEvent(e) && !Apply(s, e).panicked
    ensures Measure(Apply(s, e)) < Measure(s)
  {
    hide SelectingIds, UncountedIds, InFlightIds, CountedIds, RejectedIds, Weights;
    var pc := Apply(s, e).subs[e.id];
    SubsUpdate(s.subs, e.id, pc);
    StageUpdate(s.subs, e.id, pc);
    if e.Handoff? {
      WeightsUpdate(s.workers, e.w, Got(e.id));
    }
  }

  lemma WorkerStepDecreases(s: State, e: Event)
    requires Enabled(s, e) && Internal(e) && !SubmitterEvent(e) && !CloserEvent(e) && !Apply(s, e).panicked
    ensures Measure(Apply(s, e)) < Measure(s)
  {
    hide SelectingIds, UncountedIds, InFlightIds, Weights;
    WeightsUpdate(s.workers, e.w, Apply(s, e).workers[e.w]);
  }

  lemma CloserStepDecreases(s: State, e: Event)
    requires Enabled(s, e) && Internal(e) && CloserEvent(e)
    ensures Measure(Apply(s, e)) < Measure(s)
  {
    hide SelectingIds, UncountedIds, InFlightIds, Weights;
  }

  lemma InternalStepDecreases(s: State, e: Event)
    requires Enabled(s, e) && Internal(e) && !Apply(s, e).panicked
    ensures Measure(Apply(s, e)) < Measure(s)
  {
    hide Measure, Apply, Enabled;
    if SubmitterEvent(e) {
      SubmitterStepDecreases(s, e);
    } else if CloserEvent(e) {
      CloserStepDecreases(s, e);
    } else {
      WorkerStepDecreases(s, e);
    }
  }

  /** Once closed, the pool is never stuck before it is drained. */
  lemma NeverStuck(s: State) returns (e: Event)
    requires Inv(s) && s.closed && !s.Done()
    ensures Enabled(s, e) && Internal(e)
  {
    if id :| id in InFlightIds(s.subs) {
      match s.subs[id] {
        case Selecting => e := Abandon(id, true);
        case Sent => e := CountAccepted(id);
        case Counted => e := LeaveSubmit(id);
        case GaveUp => e := LeaveSubmit(id);
      }
    } else if s.closer == AwaitSubmitters {
      assert InFlightIds(s.subs) == {};
      e := CloseTasks;
    } else if w :| 0 <= w < |s.workers| && s.workers[w] != Exited {
      match s.workers[w] {
        case Receiving => e := if s.queue == [] then Exit(w) else Receive(w);
        case Got(_) => e := StartRun(w);
        case Running(_) => e := Execute(w, false);
        case Ran(_, _) => e := EndRun(w);
        case Left(_, _) => e := CountCompleted(w);
        case Completed(_, _) => e := CountFailed(w);
        case Recorded(_, _) => e := SetResult(w);
      }
    } else {
      e := CloseDone;
    }
  }

  /**
   * After `Close` has begun, the goroutines of the pool can take at most `Measure` more steps, and
   * the only state without a next step is the drained one.
   */
  lemma {:induction false} CloseDrains(s: State, es: seq<Event>)
    requires Inv(s) && s.closed && Feasible(s, es) && forall e | e in es :: Internal(e)
    ensures |es| <= Measure(s)
    ensures Exec(s, es).Done() || exists e :: Enabled(Exec(s, es), e) && Internal(e)
    decreases |es|
  {
    hide Inv, Apply, Enabled, Measure;
    if es == [] {
      if !s.Done() {
        var e := NeverStuck(s);
      }
    } else {
      var e := es[0];
      assert e in es;
      StepKeepsInv(s, e);
      InvMeansNoPanic(Apply(s, e));
      InternalStepDecreases(s, e);
      ClosedStays(s, e);
      CloseDrains(Apply(s, e), es[1..]);
    }
  }

  lemma InvMeansNoPanic(s: State)
    requires Inv(s)
    ensures !s.panicked
  {
  }

  lemma ClosedStays(s: State, e: Event)
    requires s.closed && Enabled(s, e)
    ensures Apply(s, e).closed
  {
  }
}
