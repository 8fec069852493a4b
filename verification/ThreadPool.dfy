/** A fixed set of workers draining one queue: every interleaving of the steps taken under the lock. */
module ThreadPool {
  import opened Basics

  type Task = nat

  /** What the mutex protects. */
  datatype Shared = Shared(tasks: seq<Task>, active: nat, closed: bool)

  /** The pool is idle: nothing queued, nothing running. */
  predicate Quiet(s: Shared) { s.tasks == [] && s.active == 0 }

  /** A worker may leave its wait. */
  predicate Ready(s: Shared) { s.closed || s.tasks != [] }

  /** The three changes made under the lock. */
  function Enqueued(s: Shared, task: Task): Shared { s.(tasks := s.tasks + [task]) }

  function Taken(s: Shared): Shared
    requires s.tasks != []
  {
    s.(tasks := s.tasks[1..], active := s.active + 1)
  }

  function Returned(s: Shared): Shared
    requires s.active > 0
  {
    s.(active := s.active - 1)
  }

  /** The critical sections, as the threads execute them. */
  class Pool {
    var tasks: seq<Task>
    var active: nat
    var closed: bool

    function Fields(): Shared
      reads this
    {
      Shared(tasks, active, closed)
    }

    constructor ()
      ensures Fields() == Shared([], 0, false)
    {
      tasks, active, closed := [], 0, false;
    }

    /** Refused exactly when closed. */
    method Enqueue(task: Task) returns (accepted: bool)
      modifies this
      ensures accepted == !old(closed)
      ensures Fields() == if accepted then Enqueued(old(Fields()), task) else old(Fields())
    {
      if closed {
        return false;
      }
      tasks := tasks + [task];
      return true;
    }

    method Close()
      modifies this
      ensures Fields() == old(Fields()).(closed := true)
    {
      closed := true;
    }

    /** A worker past its wait: take the oldest task, or exit when there is none. */
    method Take() returns (task: Option<Task>)
      requires Ready(Fields())
      modifies this
      ensures task == if old(tasks) == [] then None else Some(old(tasks)[0])
      ensures Fields() == if old(tasks) == [] then old(Fields()) else Taken(old(Fields()))
    {
      if tasks == [] {
        return None;
      }
      task := Some(tasks[0]);
      tasks, active := tasks[1..], active + 1;
    }

    /** A worker back from its task; true when the sleepers on `idle` are notified. */
    method Finish() returns (notify: bool)
      requires active > 0
      modifies this
      ensures Fields() == Returned(old(Fields())) && notify == Quiet(Fields())
    {
      active := active - 1;
      notify := tasks == [] && active == 0;
    }
  }

  datatype Status = Looking | Asleep | Running(task: Task) | Exited

  /** The protected fields, the threads' positions, the notifications still owed by threads
      that have left the lock, and the history of tasks.  A waiter maps to whether it sleeps. */
  datatype State = State(
    shared: Shared,
    workers: seq<Status>,
    owedOne: nat,
    owedAll: nat,
    waiters: map<nat, bool>,
    accepted: seq<Task>,
    started: seq<Task>,
    finished: seq<Task>)

  datatype Event =
    | Push(task: Task)
    | Refuse(task: Task)
    | NotifyOne(woken: Option<nat>)
    | SetClosed
    | NotifyAll
    | Look(worker: nat)
    | Spurious(worker: nat)
    | Complete(worker: nat)
    | WaitBegin(waiter: nat)
    | WaitLook(waiter: nat)
    | SpuriousWait(waiter: nat)

  function Initial(workers: nat): State {
    State(Shared([], 0, false), seq(workers, _ => Looking), 0, 0, map[], [], [], [])
  }

  predicate IsWorker(s: State, w: nat, status: Status) {
    w < |s.workers| && s.workers[w] == status
  }

  predicate Enabled(s: State, e: Event) {
    match e
    case Push(_) => !s.shared.closed
    case Refuse(_) => s.shared.closed
    case NotifyOne(woken) =>
      s.owedOne > 0 && (match woken case Some(w) => IsWorker(s, w, Asleep) case None => Asleep !in s.workers)
    case SetClosed => true
    case NotifyAll => s.owedAll > 0
    case Look(w) => IsWorker(s, w, Looking)
    case Spurious(w) => IsWorker(s, w, Asleep)
    case Complete(w) => w < |s.workers| && s.workers[w].Running? && s.shared.active > 0
    case WaitBegin(c) => c !in s.waiters
    case WaitLook(c) => c in s.waiters && !s.waiters[c]
    case SpuriousWait(c) => c in s.waiters && s.waiters[c]
  }

  function WakeAll(workers: seq<Status>): seq<Status> {
    seq(|workers|, i requires 0 <= i < |workers| => if workers[i].Asleep? then Looking else workers[i])
  }

  function Awakened(waiters: map<nat, bool>): map<nat, bool> {
    map c | c in waiters :: false
  }

  function Next(s: State, e: Event): State
    requires Enabled(s, e)
  {
    match e
    case Push(t) => s.(shared := Enqueued(s.shared, t), owedOne := s.owedOne + 1, accepted := s.accepted + [t])
    case Refuse(_) => s
    case NotifyOne(woken) =>
      s.(owedOne := s.owedOne - 1, workers := if woken.Some? then s.workers[woken.value := Looking] else s.workers)
    case SetClosed => s.(shared := s.shared.(closed := true), owedAll := s.owedAll + 1)
    case NotifyAll => s.(owedAll := s.owedAll - 1, workers := WakeAll(s.workers))
    case Look(w) =>
      if !Ready(s.shared) then s.(workers := s.workers[w := Asleep])
      else if s.shared.tasks == [] then s.(workers := s.workers[w := Exited])
      else
        var t := s.shared.tasks[0];
        s.(shared := Taken(s.shared),
           workers := s.workers[w := Running(t)], started := s.started + [t])
    case Spurious(w) => s.(workers := s.workers[w := Looking])
    case Complete(w) =>
      var after := Returned(s.shared);
      s.(shared := after, workers := s.workers[w := Looking], finished := s.finished + [s.workers[w].task],
         waiters := if Quiet(after) then Awakened(s.waiters) else s.waiters)
    case WaitBegin(c) => s.(waiters := s.waiters[c := false])
    case WaitLook(c) => if Quiet(s.shared) then s.(waiters := s.waiters - {c}) else s.(waiters := s.waiters[c := true])
    case SpuriousWait(c) => s.(waiters := s.waiters[c := false])
  }

  /** The run follows the program. */
  predicate Runs(s: State, events: seq<Event>)
    decreases |events|, 0
  {
    events == [] || (Runs(s, events[..|events| - 1]) && Enabled(After(s, events[..|events| - 1]), events[|events| - 1]))
  }

  function After(s: State, events: seq<Event>): State
    requires Runs(s, events)
    decreases |events|, 1
  {
    if events == [] then s else Next(After(s, events[..|events| - 1]), events[|events| - 1])
  }

  predicate Same(a: Status, kind: Status) {
    a == kind || (a.Running? && kind.Running?)
  }

  /** Workers at a position. */
  function Count(workers: seq<Status>, kind: Status): nat {
    if workers == [] then 0 else
    Count(workers[..|workers| - 1], kind) + One(workers[|workers| - 1], kind)
  }

  function Hand(status: Status): multiset<Task> {
    if status.Running? then multiset{status.task} else multiset{}
  }

  function One(status: Status, kind: Status): nat { if Same(status, kind) then 1 else 0 }

  /** Tasks in the workers' hands. */
  function Held(workers: seq<Status>): multiset<Task> {
    if workers == [] then multiset{} else
    Held(workers[..|workers| - 1]) + Hand(workers[|workers| - 1])
  }

  lemma {:induction false} CountUpdate(workers: seq<Status>, w: nat, status: Status, kind: Status)
    requires w < |workers|
    ensures Count(workers[w := status], kind) + One(workers[w], kind) == Count(workers, kind) + One(status, kind)
  {
    var n := |workers| - 1;
    if w == n {
      assert workers[w := status][..n] == workers[..n];
    } else {
      assert workers[w := status][..n] == workers[..n][w := status];
      CountUpdate(workers[..n], w, status, kind);
    }
  }

  lemma {:induction false} HandsCommute(a: multiset<Task>, b: multiset<Task>, c: multiset<Task>, d: multiset<Task>, e: multiset<Task>)
    requires a + b == c + d
    ensures (a + e) + b == (c + e) + d
  {
    forall t ensures ((a + e) + b)[t] == ((c + e) + d)[t] {
      assert (a + b)[t] == (c + d)[t];
    }
  }

  lemma {:induction false} HeldUpdate(workers: seq<Status>, w: nat, status: Status)
    requires w < |workers|
    ensures Held(workers[w := status]) + Hand(workers[w]) == Held(workers) + Hand(status)
  {
    hide Hand;
    var n := |workers| - 1;
    if w == n {
      assert workers[w := status][..n] == workers[..n];
    } else {
      assert workers[w := status][..n] == workers[..n][w := status];
      HeldUpdate(workers[..n], w, status);
      HandsCommute(Held(workers[..n][w := status]), Hand(workers[w]), Held(workers[..n]), Hand(status), Hand(workers[n]));
    }
  }

  lemma {:induction false} WakeAllHeld(workers: seq<Status>)
    ensures Held(WakeAll(workers)) == Held(workers)
  {
    if workers != [] {
      assert WakeAll(workers)[..|workers| - 1] == WakeAll(workers[..|workers| - 1]);
      WakeAllHeld(workers[..|workers| - 1]);
    }
  }

  lemma {:induction false} WakeAllEffect(workers: seq<Status>)
    ensures Count(WakeAll(workers), Asleep) == 0
    ensures Count(WakeAll(workers), Running(0)) == Count(workers, Running(0))
    ensures Count(WakeAll(workers), Exited) == Count(workers, Exited)
    ensures Count(WakeAll(workers), Looking) == Count(workers, Looking) + Count(workers, Asleep)
  {
    if workers != [] {
      var n := |workers| - 1;
      assert WakeAll(workers)[..n] == WakeAll(workers[..n]);
      WakeAllEffect(workers[..n]);
    }
  }

  lemma {:induction false} CountZero(workers: seq<Status>, kind: Status)
    ensures Count(workers, kind) == 0 <==> forall i | 0 <= i < |workers| :: !Same(workers[i], kind)
  {
    if workers != [] {
      CountZero(workers[..|workers| - 1], kind);
    }
  }

  lemma {:induction false} HeldCount(workers: seq<Status>)
    ensures |Held(workers)| == Count(workers, Running(0))
  {
    if workers != [] {
      HeldCount(workers[..|workers| - 1]);
    }
  }

  lemma {:induction false} CountTotal(workers: seq<Status>)
    ensures Count(workers, Looking) + Count(workers, Asleep) + Count(workers, Running(0)) + Count(workers, Exited) == |workers|
  {
    if workers != [] {
      CountTotal(workers[..|workers| - 1]);
    }
  }

  /** Tasks start in the order of acceptance, once each, and none is lost or duplicated. */
  ghost predicate Conserved(s: State) {
    && s.accepted == s.started + s.shared.tasks
    && multiset(s.started) == Held(s.workers) + multiset(s.finished)
    && s.shared.active == Count(s.workers, Running(0))
  }

  /** Workers leave only a closed pool with an empty queue. */
  ghost predicate ExitsLate(s: State) {
    Count(s.workers, Exited) > 0 ==> s.shared.closed && s.shared.tasks == []
  }

  /** While a worker sleeps, every queued task has a notification owed or a worker on its way,
      and a closed pool owes a broadcast. */
  ghost predicate NoLostWakeup(s: State) {
    Count(s.workers, Asleep) > 0 ==>
      |s.shared.tasks| <= s.owedOne + Count(s.workers, Looking) && (s.shared.closed ==> s.owedAll > 0)
  }

  /** Nobody sleeps in `waitIdle` while the pool is idle. */
  ghost predicate NoLostIdle(s: State) {
    Quiet(s.shared) ==> forall c | c in s.waiters :: !s.waiters[c]
  }

  ghost predicate Invariant(s: State) {
    Conserved(s) && ExitsLate(s) && NoLostWakeup(s) && NoLostIdle(s)
  }

  lemma {:induction false} InitialCounts(n: nat)
    ensures var ws := seq(n, _ => Looking);
            Held(ws) == multiset{} && Count(ws, Running(0)) == 0 && Count(ws, Exited) == 0 && Count(ws, Asleep) == 0
  {
    var ws := seq(n, _ => Looking);
    if n > 0 {
      assert ws[..n - 1] == seq(n - 1, _ => Looking);
      InitialCounts(n - 1);
    }
  }

  lemma {:induction false} UpdateWorker(s: State, w: nat, status: Status)
    requires w < |s.workers|
    ensures forall kind :: Count(s.workers[w := status], kind) + One(s.workers[w], kind) == Count(s.workers, kind) + One(status, kind)
    ensures !s.workers[w].Running? && !status.Running? ==> Held(s.workers[w := status]) == Held(s.workers)
    ensures !s.workers[w].Running? && status.Running? ==> Held(s.workers[w := status]) == Held(s.workers) + multiset{status.task}
    ensures s.workers[w].Running? && !status.Running? ==> Held(s.workers[w := status]) + multiset{s.workers[w].task} == Held(s.workers)
  {
    hide Count, Held;
    HeldUpdate(s.workers, w, status);
    var before, after := Held(s.workers), Held(s.workers[w := status]);
    assert before + multiset{} == before && after + multiset{} == after;
    forall kind ensures Count(s.workers[w := status], kind) + One(s.workers[w], kind) == Count(s.workers, kind) + One(status, kind) {
      CountUpdate(s.workers, w, status, kind);
    }
  }

  /** Every step keeps the invariant. */
  lemma {:induction false} StepKeepsInvariant(s: State, e: Event)
    requires Invariant(s) && Enabled(s, e)
    ensures Invariant(Next(s, e))
  {
    hide Count, Held;
    match e
    case Look(w) =>
      var status := Next(s, e).workers[w];
      UpdateWorker(s, w, status);
      LookKeeps(s, w);
    case Complete(w) => CompleteKeeps(s, w);
    case Spurious(w) => UpdateWorker(s, w, Looking);
    case NotifyAll =>
      WakeAllEffect(s.workers);
      WakeAllHeld(s.workers);
    case NotifyOne(woken) =>
      CountZero(s.workers, Asleep);
      if woken.Some? {
        UpdateWorker(s, woken.value, Looking);
      }
    case Push(t) =>
      assert s.accepted + [t] == s.started + (s.shared.tasks + [t]);
    case _ =>
  }

  lemma {:induction false} LookKeeps(s: State, w: nat)
    requires Invariant(s) && Enabled(s, Look(w))
    ensures Invariant(Next(s, Look(w)))
  {
    hide Count, Held;
    var next := Next(s, Look(w));
    UpdateWorker(s, w, next.workers[w]);
    if Ready(s.shared) && s.shared.tasks != [] {
      var t := s.shared.tasks[0];
      assert s.shared.tasks == [t] + s.shared.tasks[1..];
      assert next.started + next.shared.tasks == s.accepted;
      assert multiset(next.started) == multiset(s.started) + multiset{t};
    }
  }

  lemma {:induction false} CompleteKeeps(s: State, w: nat)
    requires Invariant(s) && Enabled(s, Complete(w))
    ensures Invariant(Next(s, Complete(w)))
  {
    hide Count, Held;
    var next := Next(s, Complete(w));
    UpdateWorker(s, w, Looking);
    assert multiset(next.finished) == multiset(s.finished) + multiset{s.workers[w].task};
  }

  /** The invariant holds after every run. */
  lemma {:induction false} InvariantAlways(workers: nat, events: seq<Event>)
    requires Runs(Initial(workers), events)
    ensures Invariant(After(Initial(workers), events))
    decreases |events|
  {
    if events == [] {
      InitialCounts(workers);
    } else {
      InvariantAlways(workers, events[..|events| - 1]);
      StepKeepsInvariant(After(Initial(workers), events[..|events| - 1]), events[|events| - 1]);
    }
  }

  /** The places a task can be. */
  ghost predicate Queued(s: State, t: Task) { t in s.shared.tasks }
  ghost predicate InHand(s: State, t: Task) { t in Held(s.workers) }
  ghost predicate Finished(s: State, t: Task) { t in s.finished }

  /** With distinct tasks, each accepted one is in exactly one place, and no other is anywhere. */
  lemma {:induction false} ExactlyOnePlace(s: State, t: Task)
    requires Invariant(s) && Basics.Distinct(s.accepted)
    ensures t in s.accepted <==> Queued(s, t) || InHand(s, t) || Finished(s, t)
    ensures !(Queued(s, t) && InHand(s, t)) && !(Queued(s, t) && Finished(s, t)) && !(InHand(s, t) && Finished(s, t))
    ensures Held(s.workers)[t] <= 1 && multiset(s.finished)[t] <= 1
  {
    assert multiset(s.accepted) == multiset(s.started) + multiset(s.shared.tasks);
    DistinctOnce(s.accepted, t);
  }

  lemma {:induction false} DistinctOnce(s: seq<Task>, t: Task)
    requires Basics.Distinct(s)
    ensures multiset(s)[t] <= 1
  {
    if s != [] {
      var n := |s| - 1;
      assert s == s[..n] + [s[n]];
      DistinctOnce(s[..n], t);
      assert s[n] !in s[..n];
    }
  }

  /** Nothing queued and nobody running means that every accepted task has finished, and conversely. */
  lemma {:induction false} FinishedAll(s: State)
    requires Invariant(s)
    ensures multiset(s.finished) == multiset(s.accepted) <==>
              s.shared.tasks == [] && forall i | 0 <= i < |s.workers| :: !s.workers[i].Running?
  {
    HeldCount(s.workers);
    CountZero(s.workers, Running(0));
    var queued, held := multiset(s.shared.tasks), Held(s.workers);
    assert multiset(s.accepted) == held + multiset(s.finished) + queued;
    if multiset(s.finished) == multiset(s.accepted) {
      assert |multiset(s.accepted)| == |held| + |multiset(s.finished)| + |queued|;
    }
  }

  /** A thread in `waitIdle` is let go exactly when every task accepted so far has finished;
      then none is queued or running. */
  lemma {:induction false} WaitIdlePasses(workers: nat, events: seq<Event>, c: nat)
    requires Runs(Initial(workers), events) && events != [] && events[|events| - 1] == WaitLook(c)
    ensures var s := After(Initial(workers), events);
            && (c !in s.waiters <==> multiset(s.finished) == multiset(s.accepted))
            && (c !in s.waiters <==> s.shared.tasks == [] && forall i | 0 <= i < |s.workers| :: !s.workers[i].Running?)
            && (c in s.waiters ==> s.waiters[c])
  {
    hide Invariant;
    var before := After(Initial(workers), events[..|events| - 1]);
    InvariantAlways(workers, events[..|events| - 1]);
    InvariantAlways(workers, events);
    FinishedAll(After(Initial(workers), events));
    LookedRight(before, c);
  }

  lemma {:induction false} LookedRight(s: State, c: nat)
    requires Invariant(s) && Enabled(s, WaitLook(c))
    ensures var next := Next(s, WaitLook(c));
            && (c !in next.waiters <==> s.shared.tasks == [] && forall i | 0 <= i < |s.workers| :: !s.workers[i].Running?)
            && (c in next.waiters ==> next.waiters[c])
            && next.shared == s.shared && next.workers == s.workers
  {
    CountZero(s.workers, Running(0));
  }

  /** While somebody waits asleep, some task is queued or running, so that the wait ends with it. */
  lemma {:induction false} SleepersAwaitWork(workers: nat, events: seq<Event>, c: nat)
    requires Runs(Initial(workers), events)
    requires var s := After(Initial(workers), events); c in s.waiters && s.waiters[c]
    ensures var s := After(Initial(workers), events);
            s.shared.tasks != [] || exists i: nat :: i < |s.workers| && s.workers[i].Running?
  {
    InvariantAlways(workers, events);
    CountZero(After(Initial(workers), events).workers, Running(0));
  }

  lemma {:induction false} RunsPrefix(s: State, events: seq<Event>, n: nat)
    requires Runs(s, events) && n <= |events|
    ensures Runs(s, events[..n])
    decreases |events|
  {
    if n < |events| {
      var front := events[..|events| - 1];
      assert front[..n] == events[..n];
      RunsPrefix(s, front, n);
    } else {
      assert events[..n] == events;
    }
  }

  lemma {:induction false} ClosedStep(s: State, e: Event)
    requires Enabled(s, e) && s.shared.closed
    ensures !e.Push? && Next(s, e).shared.closed && Next(s, e).accepted == s.accepted
  {
  }

  /** Close is final: from any moment at which the pool is closed, whatever the run does
      afterwards accepts nothing more and every attempt to enqueue is refused. */
  lemma {:induction false} ClosedForGood(s: State, events: seq<Event>, n: nat)
    requires Runs(s, events) && n <= |events|
    requires Runs(s, events[..n]) && After(s, events[..n]).shared.closed
    ensures After(s, events).shared.closed && After(s, events).accepted == After(s, events[..n]).accepted
    ensures forall k | n <= k < |events| :: !events[k].Push?
    decreases |events|
  {
    hide Next, Enabled;
    if n < |events| {
      var front := events[..|events| - 1];
      assert front[..n] == events[..n];
      ClosedForGood(s, front, n);
      ClosedStep(After(s, front), events[|events| - 1]);
      forall k | n <= k < |events| ensures !events[k].Push? {
        assert k < |front| ==> events[k] == front[k];
      }
    } else {
      assert events[..n] == events;
    }
  }

  /** The moment of closing is such a moment. */
  lemma {:induction false} ClosingCloses(s: State, events: seq<Event>, n: nat)
    requires Runs(s, events) && 0 < n <= |events| && events[n - 1].SetClosed?
    ensures Runs(s, events[..n]) && After(s, events[..n]).shared.closed
    ensures After(s, events).accepted == After(s, events[..n]).accepted
  {
    RunsPrefix(s, events, n);
    assert events[..n][..n - 1] == events[..n - 1] && events[..n][n - 1] == events[n - 1];
    ClosedForGood(s, events, n);
  }

  /** A queue never waits for workers that all sleep, unless a notification is on its way. */
  lemma {:induction false} QueueIsNoticed(s: State)
    requires Invariant(s) && s.shared.tasks != [] && |s.workers| > 0 && forall i | 0 <= i < |s.workers| :: s.workers[i].Asleep?
    ensures s.owedOne >= |s.shared.tasks|
  {
    CountZero(s.workers, Asleep);
    CountZero(s.workers, Looking);
  }

  /** What the destructor's joins wait for: then every accepted task has run. */
  lemma {:induction false} JoinedMeansDrained(s: State)
    requires Invariant(s) && |s.workers| > 0 && forall i | 0 <= i < |s.workers| :: s.workers[i].Exited?
    ensures s.shared.closed && s.shared.tasks == [] && multiset(s.finished) == multiset(s.accepted)
  {
    CountZero(s.workers, Exited);
    CountZero(s.workers, Running(0));
    FinishedAll(s);
  }

  /** Steps left in a closed pool. */
  ghost function Remaining(s: State): nat {
    3 * |s.shared.tasks| + 2 * Count(s.workers, Running(0)) + Count(s.workers, Looking) + 2 * Count(s.workers, Asleep)
    + s.owedOne + s.owedAll
  }

  ghost predicate Internal(e: Event) {
    e.NotifyOne? || e.NotifyAll? || e.Look? || e.Spurious? || e.Complete?
  }

  /** After close, every step of a worker or of an owed notification uses up what remains ... */
  lemma {:induction false} ClosedPoolDrains(s: State, e: Event)
    requires Invariant(s) && s.shared.closed && Enabled(s, e) && Internal(e)
    ensures Remaining(Next(s, e)) < Remaining(s)
  {
    hide Count, Held;
    match e
    case Look(w) => UpdateWorker(s, w, Next(s, e).workers[w]);
    case Complete(w) => UpdateWorker(s, w, Looking);
    case Spurious(w) => UpdateWorker(s, w, Looking);
    case NotifyAll => WakeAllEffect(s.workers);
    case NotifyOne(woken) =>
      if woken.Some? {
        UpdateWorker(s, woken.value, Looking);
      }
  }

  /** ... and until every worker has exited, such a step is possible without a spurious wakeup. */
  lemma {:induction false} ClosedPoolProgresses(s: State)
    requires Invariant(s) && s.shared.closed && exists i :: 0 <= i < |s.workers| && !s.workers[i].Exited?
    ensures exists e :: Enabled(s, e) && Internal(e) && !e.Spurious?
  {
    var i: nat :| i < |s.workers| && !s.workers[i].Exited?;
    match s.workers[i]
    case Looking => assert Enabled(s, Look(i));
    case Running(_) =>
      CountZero(s.workers, Running(0));
      assert Enabled(s, Complete(i));
    case Asleep =>
      CountZero(s.workers, Asleep);
      assert Enabled(s, NotifyAll);
  }
}
