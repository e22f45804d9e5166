/** The N-worker scheduler. Each step is one atomic section of a worker's loop, or something
    the fibers and the outside do in between; the properties hold in every interleaving. */
module Scheduler {
  import opened Collections

  type Fiber = nat
  type Callback = nat

  datatype FiberState = INIT | HOLD | EXEC | TERM | READY | EXCEPT

  datatype Item = FiberItem(f: Fiber) | CallbackItem(cb: Callback)

  /** A task, and the thread it is pinned to; -1 is any thread. */
  datatype Task = Task(item: Item, thread: int)

  const ANY := -1

  /** Where a worker is in the loop of `run`. */
  datatype Phase =
    /** at the top, before the scan */
    | Top
    /** it has taken a task and counted itself active */
    | Took(task: Task)
    /** inside `swapIn` of a fiber, for that task */
    | Running(task: Task, f: Fiber)
    /** `swapIn` has returned */
    | Back(task: Task, f: Fiber)
    /** it no longer counts as active, and looks at the fiber's state */
    | Settling(task: Task, f: Fiber)
    /** the scan found nothing */
    | NoTask
    /** inside the idle fiber, counted idle */
    | Idling
    /** the idle fiber has returned */
    | IdleBack
    /** it has left the loop */
    | Gone

  /** A worker; `cbFiber` is the fiber it keeps for callbacks, `idleDone` says that its idle
      fiber has terminated. */
  datatype Worker = Worker(thread: int, phase: Phase, cbFiber: Option<Fiber>, idleDone: bool)

  /** `fibers` holds the state of every fiber; those in `foreign` are main fibers of threads, which
      are executing all the time. `enqueued` and `finished` keep the books. */
  datatype State = State(
    queue: seq<Task>, workers: seq<Worker>, fibers: map<Fiber, FiberState>, foreign: set<Fiber>,
    active: int, idle: int, stopped: bool, enqueued: multiset<Task>, finished: multiset<Task>)

  // ---- The queue ----

  /** A worker may take a task that is not pinned elsewhere and whose fiber is not executing. */
  predicate Eligible(t: Task, thread: int, fibers: map<Fiber, FiberState>) {
    && (t.thread == ANY || t.thread == thread)
    && !(t.item.FiberItem? && t.item.f in fibers && fibers[t.item.f].EXEC?)
  }

  /** The scan: the first task that is unpinned or pinned to this very thread, and is a callback or a
      fiber that is not executing. It passes over the others, and over nothing else. */
  function FirstEligible(queue: seq<Task>, thread: int, fibers: map<Fiber, FiberState>): (p: Option<nat>)
    ensures p.Some? ==>
              && p.value < |queue|
              && queue[p.value].thread in {-1, thread}
              && (match queue[p.value].item
                  case CallbackItem(_) => true
                  case FiberItem(f) => f in fibers ==> !fibers[f].EXEC?)
    ensures forall k | 0 <= k < (if p.Some? then p.value else |queue|) ::
              || queue[k].thread !in {-1, thread}
              || (queue[k].item.FiberItem? && queue[k].item.f in fibers && fibers[queue[k].item.f].EXEC?)
  {
    if queue == [] then None
    else if Eligible(queue[0], thread, fibers) then Some(0)
    else
      match FirstEligible(queue[1..], thread, fibers)
      case None => None
      case Some(k) => Some(k + 1)
  }

  // ---- Steps ----

  datatype Step =
    /** the locked scan of worker `w` */
    | Scan(w: nat)
    /** it starts what it took; a callback without a kept fiber gets the new fiber `g` */
    | Start(w: nat, g: Fiber)
    /** the running fiber comes back to the worker in this state */
    | Yield(w: nat, to: FiberState)
    /** the active count goes down */
    | Count(w: nat)
    /** a READY fiber is queued again, the others are put away */
    | Settle(w: nat)
    /** with nothing to do: leave when the idle fiber is done, or enter it */
    | Idle(w: nat)
    /** the idle fiber asks `stopping()`; it may end only if the answer is yes */
    | AskStop(w: nat, ends: bool)
    /** the idle count goes down */
    | LeaveIdle(w: nat)
    /** a running or an idle fiber, or anyone outside before the stop, schedules a task */
    | Enqueue(t: Task)
    /** `stop()` sets the flags */
    | Stop

  /** `stopping()` */
  predicate Stopping(s: State) {
    s.stopped && s.queue == [] && s.active == 0
  }

  predicate Dead(st: FiberState) {
    st.TERM? || st.EXCEPT?
  }

  /** Code of a task, or of the idle fiber, is running. */
  predicate MayEnqueue(p: Phase) {
    p.Running? || p.Idling?
  }

  ghost predicate AllGone(s: State) {
    forall k | 0 <= k < |s.workers| :: s.workers[k].phase.Gone?
  }

  /** A new fiber is none that exists, a fiber comes back only by yielding or by ending, and
      after the stop only workers schedule tasks. */
  ghost predicate Enabled(s: State, st: Step) {
    match st
    case Scan(w) => w < |s.workers| && s.workers[w].phase.Top?
    case Start(w, g) =>
      && w < |s.workers| && s.workers[w].phase.Took?
      && (s.workers[w].phase.task.item.FiberItem? ==> s.workers[w].phase.task.item.f in s.fibers)
      && g !in s.fibers
    case Yield(w, to) => w < |s.workers| && s.workers[w].phase.Running? && to in {READY, HOLD, TERM, EXCEPT}
    case Count(w) => w < |s.workers| && s.workers[w].phase.Back?
    case Settle(w) => w < |s.workers| && s.workers[w].phase.Settling? && s.workers[w].phase.f in s.fibers
    case Idle(w) => w < |s.workers| && s.workers[w].phase.NoTask?
    case AskStop(w, ends) => w < |s.workers| && s.workers[w].phase.Idling? && (ends ==> Stopping(s))
    case LeaveIdle(w) => w < |s.workers| && s.workers[w].phase.IdleBack?
    case Enqueue(t) => !s.stopped || exists k | 0 <= k < |s.workers| :: MayEnqueue(s.workers[k].phase)
    case Stop => true
  }

  function At(s: State, w: nat, worker: Worker): State
    requires w < |s.workers|
  {
    s.(workers := s.workers[w := worker])
  }

  /** The task goes to the back of the queue; its fiber may be a new one. */
  function Enqueued(s: State, t: Task): State {
    var unknown := t.item.FiberItem? && t.item.f !in s.fibers;
    s.(queue := s.queue + [t], enqueued := s.enqueued + multiset{t},
       fibers := if unknown then s.fibers[t.item.f := INIT] else s.fibers)
  }

  function DoScan(s: State, w: nat): State
    requires w < |s.workers|
  {
    var me := s.workers[w];
    match FirstEligible(s.queue, me.thread, s.fibers)
    case None => At(s, w, me.(phase := NoTask))
    case Some(k) =>
      At(s.(queue := Without(s.queue, k), active := s.active + 1), w, me.(phase := Took(s.queue[k])))
  }

  function DoStart(s: State, w: nat, g: Fiber): State
    requires w < |s.workers| && s.workers[w].phase.Took?
    requires s.workers[w].phase.task.item.FiberItem? ==> s.workers[w].phase.task.item.f in s.fibers
  {
    var me := s.workers[w];
    var t := me.phase.task;
    match t.item
    case FiberItem(f) =>
      if Dead(s.fibers[f]) then
        At(s.(active := s.active - 1, finished := s.finished + multiset{t}), w, me.(phase := Top))
      else
        At(s.(fibers := s.fibers[f := EXEC]), w, me.(phase := Running(t, f)))
    case CallbackItem(_) =>
      var f := if me.cbFiber.Some? then me.cbFiber.value else g;
      At(s.(fibers := s.fibers[f := EXEC]), w, me.(phase := Running(t, f), cbFiber := Some(f)))
  }

  function DoSettle(s: State, w: nat): State
    requires w < |s.workers| && s.workers[w].phase.Settling? && s.workers[w].phase.f in s.fibers
  {
    var me := s.workers[w];
    var (t, f) := (me.phase.task, me.phase.f);
    var s' := s.(finished := s.finished + multiset{t});
    var callback := t.item.CallbackItem?;
    if s.fibers[f].READY? then
      At(Enqueued(s', Task(FiberItem(f), ANY)), w,
         me.(phase := Top, cbFiber := if callback then None else me.cbFiber))
    else if Dead(s.fibers[f]) then
      At(if callback then s'.(fibers := s.fibers[f := INIT]) else s', w, me.(phase := Top))
    else
      At(s'.(fibers := s.fibers[f := HOLD]), w,
         me.(phase := Top, cbFiber := if callback then None else me.cbFiber))
  }

  ghost function Apply(s: State, st: Step): State
    requires Enabled(s, st)
  {
    match st
    case Scan(w) => DoScan(s, w)
    case Start(w, g) => DoStart(s, w, g)
    case Yield(w, to) =>
      var p := s.workers[w].phase;
      At(s.(fibers := s.fibers[p.f := to]), w, s.workers[w].(phase := Back(p.task, p.f)))
    case Count(w) =>
      var p := s.workers[w].phase;
      At(s.(active := s.active - 1), w, s.workers[w].(phase := Settling(p.task, p.f)))
    case Settle(w) => DoSettle(s, w)
    case Idle(w) =>
      if s.workers[w].idleDone then At(s, w, s.workers[w].(phase := Gone))
      else At(s.(idle := s.idle + 1), w, s.workers[w].(phase := Idling))
    case AskStop(w, ends) => At(s, w, s.workers[w].(phase := IdleBack, idleDone := ends))
    case LeaveIdle(w) => At(s.(idle := s.idle - 1), w, s.workers[w].(phase := Top))
    case Enqueue(t) => Enqueued(s, t)
    case Stop => s.(stopped := true)
  }

  // ---- What the steps do ----

  /** The worker may run this task now: it is unpinned or pinned to its thread, and it is a callback or a
      fiber that is not executing. */
  ghost predicate MayRun(t: Task, w: Worker, fibers: map<Fiber, FiberState>) {
    && t.thread in {-1, w.thread}
    && (t.item.FiberItem? && t.item.f in fibers ==> fibers[t.item.f] != EXEC)
  }

  /** A scan takes the first task that its worker may run, out of its place in the queue, and counts the
      worker active; it finds nothing exactly when the worker may run none of them. */
  lemma ScanMeaning(s: State, w: nat)
    requires Enabled(s, Scan(w))
    ensures var (s', me) := (Apply(s, Scan(w)), s.workers[w]);
            if forall j | 0 <= j < |s.queue| :: !MayRun(s.queue[j], me, s.fibers)
            then s' == s.(workers := s.workers[w := me.(phase := NoTask)])
            else exists i | 0 <= i < |s.queue| && MayRun(s.queue[i], me, s.fibers) ::
                   && (forall j | 0 <= j < i :: !MayRun(s.queue[j], me, s.fibers))
                   && s' == s.(queue := s.queue[..i] + s.queue[i + 1..], active := s.active + 1,
                               workers := s.workers[w := me.(phase := Took(s.queue[i]))])
  {
    hide MayRun, FirstEligible, Eligible, Without;
    var (me, p) := (s.workers[w], FirstEligible(s.queue, s.workers[w].thread, s.fibers));
    FirstMayRun(s.queue, me, s.fibers);
    if p.Some? {
      assert Without(s.queue, p.value) == s.queue[..p.value] + s.queue[p.value + 1..] by {
        WithoutIs(s.queue, p.value);
      }
    }
  }

  lemma WithoutIs(queue: seq<Task>, k: nat)
    requires k < |queue|
    ensures Without(queue, k) == queue[..k] + queue[k + 1..]
  {
  }

  lemma {:induction false} FirstMayRun(queue: seq<Task>, w: Worker, fibers: map<Fiber, FiberState>)
    ensures var p := FirstEligible(queue, w.thread, fibers);
            && (p.Some? ==> p.value < |queue| && MayRun(queue[p.value], w, fibers))
            && forall k | 0 <= k < (if p.Some? then p.value else |queue|) :: !MayRun(queue[k], w, fibers)
  {
    hide FirstEligible;
  }

  /** Started, a fiber that has ended is done with at once, without being run; any other fiber runs,
      and a callback runs in the worker's kept fiber or in a new one, which it then keeps. */
  lemma StartMeaning(s: State, w: nat, g: Fiber)
    requires Enabled(s, Start(w, g))
    ensures var (s', me) := (Apply(s, Start(w, g)), s.workers[w]);
            var t := me.phase.task;
            match t.item
            case FiberItem(f) =>
              if s.fibers[f] in {TERM, EXCEPT}
              then s' == s.(workers := s.workers[w := me.(phase := Top)], active := s.active - 1,
                            finished := s.finished + multiset{t})
              else s' == s.(workers := s.workers[w := me.(phase := Running(t, f))], fibers := s.fibers[f := EXEC])
            case CallbackItem(_) =>
              var f := match me.cbFiber case Some(kept) => kept case None => g;
              s' == s.(workers := s.workers[w := me.(phase := Running(t, f), cbFiber := Some(f))],
                       fibers := s.fibers[f := EXEC])
  {
  }

  /** After a run: a READY fiber goes to the back of the queue, pinned to no thread even if the task was;
      one that has ended is put away, or reset and kept if it ran a callback; any other one holds. A
      worker keeps its callback fiber only when the callback has ended. */
  lemma SettleMeaning(s: State, w: nat)
    requires Enabled(s, Settle(w))
    ensures var (s', me) := (Apply(s, Settle(w)), s.workers[w]);
            var (t, f) := (me.phase.task, me.phase.f);
            var ended := s.fibers[f] in {TERM, EXCEPT};
            var again := if s.fibers[f] == READY then [Task(FiberItem(f), -1)] else [];
            && s'.queue == s.queue + again && s'.enqueued == s.enqueued + multiset(again)
            && s'.finished == s.finished + multiset{t}
            && s'.fibers == (if s.fibers[f] == READY then s.fibers
                             else if !ended then s.fibers[f := HOLD]
                             else if t.item.CallbackItem? then s.fibers[f := INIT] else s.fibers)
            && s'.workers == s.workers[w := me.(phase := Top,
                                                cbFiber := if t.item.CallbackItem? && !ended then None else me.cbFiber)]
            && s'.active == s.active && s'.idle == s.idle && s'.stopped == s.stopped
  {
  }

  /** Anyone may schedule before the stop, and code of a task or of an idle fiber at any time. A task goes to
      the back of the queue and changes no fiber that exists. */
  lemma EnqueueMeaning(s: State, t: Task)
    ensures Enabled(s, Enqueue(t)) <==>
            !s.stopped || exists k | 0 <= k < |s.workers| :: s.workers[k].phase.Running? || s.workers[k].phase.Idling?
    ensures Enabled(s, Enqueue(t)) ==>
            var s' := Apply(s, Enqueue(t));
            && s'.queue == s.queue + [t] && s'.enqueued == s.enqueued + multiset{t}
            && (forall f | f in s.fibers :: f in s'.fibers && s'.fibers[f] == s.fibers[f])
            && (forall f | f in s'.fibers && f !in s.fibers :: t.item == FiberItem(f) && s'.fibers[f] == INIT)
            && s' == s.(queue := s'.queue, enqueued := s'.enqueued, fibers := s'.fibers)
  {
  }

  /** The other steps: a fiber comes back in the state it leaves, the worker stops counting as active, an
      idle fiber is entered, asks and is left, and a worker leaves exactly when it has nothing to do and
      its idle fiber has ended. */
  lemma MoveMeaning(s: State, st: Step)
    requires Enabled(s, st) && (st.Yield? || st.Count? || st.Idle? || st.AskStop? || st.LeaveIdle?)
    ensures var (s', me) := (Apply(s, st), s.workers[st.w]);
            && s'.queue == s.queue && s'.workers == s.workers[st.w := s'.workers[st.w]]
            && (match st
                case Yield(_, to) =>
                  && s'.workers[st.w] == me.(phase := Back(me.phase.task, me.phase.f))
                  && s'.fibers == s.fibers[me.phase.f := to] && s'.active == s.active && s'.idle == s.idle
                case Count(_) =>
                  && s'.workers[st.w] == me.(phase := Settling(me.phase.task, me.phase.f))
                  && s'.fibers == s.fibers && s'.active == s.active - 1 && s'.idle == s.idle
                case Idle(_) =>
                  && s'.workers[st.w] == me.(phase := if me.idleDone then Gone else Idling)
                  && s'.fibers == s.fibers && s'.active == s.active && s'.idle == s.idle + if me.idleDone then 0 else 1
                case AskStop(_, ends) =>
                  && s'.workers[st.w] == me.(phase := IdleBack, idleDone := ends)
                  && s'.fibers == s.fibers && s'.active == s.active && s'.idle == s.idle
                case LeaveIdle(_) =>
                  && s'.workers[st.w] == me.(phase := Top)
                  && s'.fibers == s.fibers && s'.active == s.active && s'.idle == s.idle - 1)
  {
  }

  /** A running fiber comes back ready, on hold, ended or failed, and in no other state. */
  lemma ComesBackIff(s: State, w: nat, to: FiberState)
    requires w < |s.workers| && s.workers[w].phase.Running?
    ensures Enabled(s, Yield(w, to)) <==> to != INIT && to != EXEC
  {
  }

  /** An idle fiber may end exactly when the scheduler has been told to stop, nothing is queued and no
      worker holds a task that it counts; and it may go on at any time. */
  lemma IdleMayEndIff(s: State, w: nat)
    requires Accounts(s) && w < |s.workers| && s.workers[w].phase.Idling?
    ensures Enabled(s, AskStop(w, false))
    ensures Enabled(s, AskStop(w, true)) <==>
            && s.stopped && s.queue == []
            && forall k | 0 <= k < |s.workers| ::
                 !s.workers[k].phase.Took? && !s.workers[k].phase.Running? && !s.workers[k].phase.Back?
  {
    NoneActiveIff(s.workers);
  }

  lemma {:induction false} NoneActiveIff(ws: seq<Worker>)
    ensures Active(ws) == 0 <==> forall k | 0 <= k < |ws| :: !Holding(ws[k].phase)
  {
    if ws != [] {
      NoneActiveIff(ws[1..]);
      assert forall k | 0 < k < |ws| :: ws[1..][k - 1] == ws[k];
      if forall k | 0 <= k < |ws[1..]| :: !Holding(ws[1..][k].phase) {
        assert forall k | 0 < k < |ws| :: !Holding(ws[k].phase);
      } else {
        var k :| 0 <= k < |ws[1..]| && Holding(ws[1..][k].phase);
        assert Holding(ws[k + 1].phase);
      }
    }
  }

  // ---- Accounting ----

  predicate Holding(p: Phase) {
    p.Took? || p.Running? || p.Back?
  }

  predicate InIdle(p: Phase) {
    p.Idling? || p.IdleBack?
  }

  function Active(ws: seq<Worker>): nat {
    if ws == [] then 0 else (if Holding(ws[0].phase) then 1 else 0) + Active(ws[1..])
  }

  function IdleCount(ws: seq<Worker>): nat {
    if ws == [] then 0 else (if InIdle(ws[0].phase) then 1 else 0) + IdleCount(ws[1..])
  }

  /** The task a worker in this phase has in hand. */
  function InHand(p: Phase): Option<Task> {
    match p
    case Took(t) => Some(t)
    case Running(t, _) => Some(t)
    case Back(t, _) => Some(t)
    case Settling(t, _) => Some(t)
    case _ => None
  }

  function Bag(t: Option<Task>): multiset<Task> {
    if t.Some? then multiset{t.value} else multiset{}
  }

  /** The tasks in the hands of workers. */
  function Held(ws: seq<Worker>): multiset<Task> {
    if ws == [] then multiset{} else Bag(InHand(ws[0].phase)) + Held(ws[1..])
  }

  /** One worker moves: the sums change by its part. */
  lemma {:induction false} CountsMoved(ws: seq<Worker>, k: nat, w: Worker)
    requires k < |ws|
    ensures Active(ws[k := w]) + (if Holding(ws[k].phase) then 1 else 0) ==
            Active(ws) + (if Holding(w.phase) then 1 else 0)
    ensures IdleCount(ws[k := w]) + (if InIdle(ws[k].phase) then 1 else 0) ==
            IdleCount(ws) + (if InIdle(w.phase) then 1 else 0)
  {
    if k > 0 {
      CountsMoved(ws[1..], k - 1, w);
      assert ws[k := w][1..] == ws[1..][k - 1 := w];
    } else {
      assert ws[k := w][1..] == ws[1..];
    }
  }

  lemma {:induction false} HeldMoved(ws: seq<Worker>, k: nat, w: Worker)
    requires k < |ws|
    ensures Held(ws[k := w]) + Bag(InHand(ws[k].phase)) == Held(ws) + Bag(InHand(w.phase))
  {
    if k > 0 {
      HeldMoved(ws[1..], k - 1, w);
      assert ws[k := w][1..] == ws[1..][k - 1 := w];
      Shuffle(Bag(InHand(ws[0].phase)), Held(ws[1..][k - 1 := w]), Bag(InHand(ws[k].phase)),
              Held(ws[1..]), Bag(InHand(w.phase)));
    } else {
      assert ws[k := w][1..] == ws[1..];
    }
  }

  lemma Shuffle(a: multiset<Task>, b: multiset<Task>, c: multiset<Task>, d: multiset<Task>, e: multiset<Task>)
    requires b + c == d + e
    ensures (a + b) + c == (a + d) + e
  {
    assert (a + b) + c == a + (b + c);
  }

  /** The counters are what they are meant to count, and every task ever scheduled is queued, in
      the hands of a worker, or done with. */
  ghost predicate Accounts(s: State) {
    && s.active == Active(s.workers)
    && s.idle == IdleCount(s.workers)
    && s.enqueued == multiset(s.queue) + Held(s.workers) + s.finished
  }

  /** The counts of worker `w` move with its phase, and no other worker changes. */
  ghost predicate OneMoves(s: State, s': State, w: nat) {
    && w < |s.workers| == |s'.workers|
    && (forall k | 0 <= k < |s.workers| && k != w :: s'.workers[k] == s.workers[k])
    && s'.active + (if Holding(s.workers[w].phase) then 1 else 0) ==
       s.active + (if Holding(s'.workers[w].phase) then 1 else 0)
    && s'.idle + (if InIdle(s.workers[w].phase) then 1 else 0) ==
       s.idle + (if InIdle(s'.workers[w].phase) then 1 else 0)
  }

  /** One worker moves, takes tasks off the queue, puts tasks on it and is done with tasks. */
  lemma Balanced(s: State, s': State, w: nat, took: multiset<Task>, put: multiset<Task>, done: multiset<Task>)
    requires Accounts(s) && OneMoves(s, s', w)
    requires Bag(InHand(s'.workers[w].phase)) + done == Bag(InHand(s.workers[w].phase)) + took
    requires multiset(s'.queue) + took == multiset(s.queue) + put
    requires s'.enqueued == s.enqueued + put && s'.finished == s.finished + done
    ensures Accounts(s')
  {
    var (was, now) := (Bag(InHand(s.workers[w].phase)), Bag(InHand(s'.workers[w].phase)));
    assert s'.workers == s.workers[w := s'.workers[w]];
    CountsMoved(s.workers, w, s'.workers[w]);
    HeldMoved(s.workers, w, s'.workers[w]);
    hide Held, Active, IdleCount, Bag, InHand;
    SumsAgree(multiset(s.queue), Held(s.workers), s.finished, multiset(s'.queue), Held(s'.workers),
              was, now, took, put, done);
  }

  /** The sums behind it: `q`, `h` and `d` before, `q'`, `h'` and `d + done` afterwards. */
  lemma SumsAgree(q: multiset<Task>, h: multiset<Task>, d: multiset<Task>, q': multiset<Task>, h': multiset<Task>,
                  was: multiset<Task>, now: multiset<Task>,
                  took: multiset<Task>, put: multiset<Task>, done: multiset<Task>)
    requires now + done == was + took
    requires q' + took == q + put
    requires h' + was == h + now
    ensures q + h + d + put == q' + h' + (d + done)
  {
    forall t
      ensures (q + h + d + put)[t] == (q' + h' + (d + done))[t]
    {
      assert (now + done)[t] == (was + took)[t];
      assert (q' + took)[t] == (q + put)[t];
      assert (h' + was)[t] == (h + now)[t];
    }
  }

  lemma KeepsItsTask(s: State, s': State, w: nat)
    requires Accounts(s) && OneMoves(s, s', w)
    requires InHand(s'.workers[w].phase) == InHand(s.workers[w].phase)
    requires s'.queue == s.queue && s'.enqueued == s.enqueued && s'.finished == s.finished
    ensures Accounts(s')
  {
    Balanced(s, s', w, multiset{}, multiset{}, multiset{});
  }

  lemma TakesTask(s: State, s': State, w: nat, k: nat)
    requires Accounts(s) && OneMoves(s, s', w) && k < |s.queue|
    requires InHand(s.workers[w].phase) == None && InHand(s'.workers[w].phase) == Some(s.queue[k])
    requires s'.queue == Without(s.queue, k) && s'.enqueued == s.enqueued && s'.finished == s.finished
    ensures Accounts(s')
  {
    WithoutOne(s.queue, k);
    Balanced(s, s', w, multiset{s.queue[k]}, multiset{}, multiset{});
  }

  lemma FinishesTask(s: State, s': State, w: nat, t: Task, again: Option<Task>)
    requires Accounts(s) && OneMoves(s, s', w)
    requires InHand(s.workers[w].phase) == Some(t) && InHand(s'.workers[w].phase) == None
    requires s'.finished == s.finished + multiset{t}
    requires again.None? ==> s'.queue == s.queue && s'.enqueued == s.enqueued
    requires again.Some? ==> s'.queue == s.queue + [again.value] && s'.enqueued == s.enqueued + multiset{again.value}
    ensures Accounts(s')
  {
    Balanced(s, s', w, multiset{}, Bag(again), multiset{t});
  }

  lemma ScanBalances(s: State, w: nat)
    requires Accounts(s) && Enabled(s, Scan(w))
    ensures Accounts(DoScan(s, w))
  {
    match FirstEligible(s.queue, s.workers[w].thread, s.fibers) {
      case None => KeepsItsTask(s, DoScan(s, w), w);
      case Some(k) => TakesTask(s, DoScan(s, w), w, k);
    }
  }

  lemma StartBalances(s: State, w: nat, g: Fiber)
    requires Accounts(s) && Enabled(s, Start(w, g))
    ensures Accounts(DoStart(s, w, g))
  {
    if DoStart(s, w, g).workers[w].phase.Top? {
      FinishesTask(s, DoStart(s, w, g), w, s.workers[w].phase.task, None);
    } else {
      KeepsItsTask(s, DoStart(s, w, g), w);
    }
  }

  lemma SettleMoves(s: State, w: nat)
    requires Enabled(s, Settle(w))
    ensures OneMoves(s, DoSettle(s, w), w) && DoSettle(s, w).workers[w].phase == Top
  {
  }

  lemma SettleQueues(s: State, w: nat)
    requires Enabled(s, Settle(w))
    ensures var (s', p) := (DoSettle(s, w), s.workers[w].phase);
            && s'.finished == s.finished + multiset{p.task}
            && (if s.fibers[p.f].READY?
                then s'.queue == s.queue + [Task(FiberItem(p.f), ANY)]
                     && s'.enqueued == s.enqueued + multiset{Task(FiberItem(p.f), ANY)}
                else s'.queue == s.queue && s'.enqueued == s.enqueued)
  {
  }

  lemma SettleBalances(s: State, w: nat)
    requires Accounts(s) && Enabled(s, Settle(w))
    ensures Accounts(DoSettle(s, w))
  {
    var f := s.workers[w].phase.f;
    SettleMoves(s, w);
    SettleQueues(s, w);
    FinishesTask(s, DoSettle(s, w), w, s.workers[w].phase.task,
                 if s.fibers[f].READY? then Some(Task(FiberItem(f), ANY)) else None);
  }

  predicate OnlyMoves(st: Step) {
    st.Yield? || st.Count? || st.Idle? || st.AskStop? || st.LeaveIdle?
  }

  lemma MoveCounts(s: State, st: Step)
    requires Enabled(s, st) && OnlyMoves(st)
    ensures OneMoves(s, Apply(s, st), st.w)
  {
  }

  /** The other steps of a worker touch neither the queue nor the task it holds. */
  lemma MoveKeepsTask(s: State, st: Step)
    requires Enabled(s, st) && OnlyMoves(st)
    ensures var s' := Apply(s, st);
            && |s'.workers| == |s.workers| && InHand(s'.workers[st.w].phase) == InHand(s.workers[st.w].phase)
            && s'.queue == s.queue && s'.enqueued == s.enqueued && s'.finished == s.finished
  {
  }

  lemma AccountsKept(s: State, st: Step)
    requires Accounts(s) && Enabled(s, st)
    ensures Accounts(Apply(s, st))
  {
    match st {
      case Enqueue(_) =>
      case Stop =>
      case Scan(w) => ScanBalances(s, w);
      case Start(w, g) => StartBalances(s, w, g);
      case Settle(w) => SettleBalances(s, w);
      case _ =>
        MoveCounts(s, st);
        MoveKeepsTask(s, st);
        KeepsItsTask(s, Apply(s, st), st.w);
    }
  }

  /** Nothing in hand: the books have two columns left. */
  lemma {:induction false} NothingHeld(ws: seq<Worker>)
    requires forall k | 0 <= k < |ws| :: ws[k].phase.Gone?
    ensures Active(ws) == 0 && IdleCount(ws) == 0 && Held(ws) == multiset{}
  {
    if ws != [] {
      NothingHeld(ws[1..]);
    }
  }

  /** The active count is zero only when no worker holds a task it counted. */
  lemma {:induction false} NoneActive(ws: seq<Worker>, k: nat)
    requires k < |ws| && Active(ws) == 0
    ensures !Holding(ws[k].phase)
  {
    if k > 0 {
      NoneActive(ws[1..], k - 1);
    }
  }

  // ---- Who executes ----

  ghost predicate Runs(s: State, k: int, f: Fiber) {
    0 <= k < |s.workers| && s.workers[k].phase.Running? && s.workers[k].phase.f == f
  }

  ghost predicate Known(s: State, t: Task) {
    t.item.FiberItem? ==> t.item.f in s.fibers
  }

  /** The worker refers to fibers that exist, and to no main fiber; and the task in its hands may
      run on its thread. */
  ghost predicate Clear(s: State, w: Worker) {
    && (InHand(w.phase).Some? ==> InHand(w.phase).value.thread in {ANY, w.thread})
    && (w.cbFiber.Some? ==> w.cbFiber.value in s.fibers && w.cbFiber.value !in s.foreign)
    && (match w.phase
        case Took(t) => Known(s, t) && (t.item.FiberItem? ==> t.item.f !in s.foreign)
        case Running(_, f) => f !in s.foreign && f in s.fibers
        case Back(_, f) => f !in s.foreign && f in s.fibers
        case Settling(_, f) => f !in s.foreign && f in s.fibers
        case _ => true)
  }

  /** A fiber that is executing is inside some worker, or is the main fiber of a thread. Main
      fibers stay executing, and workers never hold one. */
  ghost predicate Executing(s: State) {
    && (forall f | f in s.fibers && s.fibers[f].EXEC? && f !in s.foreign :: exists k :: Runs(s, k, f))
    && (forall f | f in s.foreign :: f in s.fibers && s.fibers[f].EXEC?)
    && (forall k | 0 <= k < |s.workers| :: Clear(s, s.workers[k]))
    && (forall k | 0 <= k < |s.queue| :: Known(s, s.queue[k]))
  }

  /** A step moves one worker at most. */
  lemma OthersStay(s: State, st: Step, k: nat)
    requires Enabled(s, st) && k < |s.workers| && (st.Enqueue? || st.Stop? || k != st.w)
    ensures |Apply(s, st).workers| == |s.workers| && Apply(s, st).workers[k] == s.workers[k]
  {
  }

  lemma RunsOn(s: State, st: Step, k: nat, f: Fiber)
    requires Enabled(s, st) && Runs(s, k, f)
    requires f in Apply(s, st).fibers && Apply(s, st).fibers[f].EXEC?
    ensures Runs(Apply(s, st), k, f)
  {
    if st.Enqueue? || st.Stop? || k != st.w {
      OthersStay(s, st, k);
    }
  }

  lemma RunningKept(s: State, st: Step, f: Fiber)
    requires Executing(s) && Enabled(s, st)
    requires f in Apply(s, st).fibers && Apply(s, st).fibers[f].EXEC? && f !in s.foreign
    ensures exists k :: Runs(Apply(s, st), k, f)
  {
    if f in s.fibers && s.fibers[f].EXEC? {
      hide Apply;
      var k :| Runs(s, k, f);
      RunsOn(s, st, k, f);
    } else {
      hide DoScan, DoSettle;
      StartsRunning(s, st, f);
    }
  }

  /** Only starting makes a fiber execute. */
  lemma StartsRunning(s: State, st: Step, f: Fiber)
    requires Enabled(s, st) && !(f in s.fibers && s.fibers[f].EXEC?)
    requires f in Apply(s, st).fibers && Apply(s, st).fibers[f].EXEC?
    ensures st.Start? && Runs(Apply(s, st), st.w, f)
  {
  }

  /** The worker's last scan is behind it. */
  predicate Leaving(w: Worker) {
    w.phase.Gone? || (w.phase.NoTask? && w.idleDone)
  }

  /** The workers, the main fibers and the stop stay, and no fiber is forgotten. */
  ghost predicate SameShape(s: State, s': State) {
    && |s'.workers| == |s.workers| && s'.foreign == s.foreign && (s.stopped ==> s'.stopped)
    && (forall k | 0 <= k < |s.workers| :: s'.workers[k].thread == s.workers[k].thread)
    && forall f | f in s.fibers :: f in s'.fibers
  }

  lemma ScanShape(s: State, w: nat)
    requires Enabled(s, Scan(w))
    ensures SameShape(s, DoScan(s, w))
  {
  }

  lemma StartShape(s: State, w: nat, g: Fiber)
    requires Enabled(s, Start(w, g))
    ensures SameShape(s, DoStart(s, w, g)) && !Leaving(DoStart(s, w, g).workers[w])
    ensures DoStart(s, w, g).queue == s.queue
  {
  }

  lemma SettleKeepsShape(s: State, w: nat)
    requires Enabled(s, Settle(w))
    ensures SameShape(s, DoSettle(s, w)) && !Leaving(DoSettle(s, w).workers[w])
  {
  }

  lemma ShapeKept(s: State, st: Step)
    requires Enabled(s, st)
    ensures SameShape(s, Apply(s, st))
  {
    hide DoScan, DoStart, DoSettle;
    match st {
      case Scan(w) => ScanShape(s, w);
      case Start(w, g) => StartShape(s, w, g);
      case Settle(w) => SettleKeepsShape(s, w);
      case _ =>
    }
  }

  lemma ClearKept(s: State, st: Step, k: nat)
    requires Executing(s) && Enabled(s, st) && k < |s.workers|
    ensures |Apply(s, st).workers| == |s.workers| && Clear(Apply(s, st), Apply(s, st).workers[k])
  {
    hide Apply;
    ShapeKept(s, st);
    assert Clear(s, s.workers[k]);
    if st.Enqueue? || st.Stop? || k != st.w {
      OthersStay(s, st, k);
    } else {
      MoverClear(s, st);
    }
  }

  lemma ScanClear(s: State, w: nat)
    requires Executing(s) && Enabled(s, Scan(w))
    ensures Clear(DoScan(s, w), DoScan(s, w).workers[w])
  {
    assert Clear(s, s.workers[w]);
    match FirstEligible(s.queue, s.workers[w].thread, s.fibers) {
      case None =>
      case Some(k) => assert Known(s, s.queue[k]);
    }
  }

  lemma StartClear(s: State, w: nat, g: Fiber)
    requires Executing(s) && Enabled(s, Start(w, g))
    ensures Clear(DoStart(s, w, g), DoStart(s, w, g).workers[w])
  {
    assert Clear(s, s.workers[w]);
  }

  lemma SettleClear(s: State, w: nat)
    requires Executing(s) && Enabled(s, Settle(w))
    ensures Clear(DoSettle(s, w), DoSettle(s, w).workers[w])
  {
    assert Clear(s, s.workers[w]);
  }

  lemma MoverClear(s: State, st: Step)
    requires Executing(s) && Enabled(s, st) && !st.Enqueue? && !st.Stop?
    ensures |Apply(s, st).workers| == |s.workers| && Clear(Apply(s, st), Apply(s, st).workers[st.w])
  {
    hide DoScan, DoStart, DoSettle;
    ShapeKept(s, st);
    if st.Scan? {
      ScanClear(s, st.w);
    } else if st.Start? {
      StartClear(s, st.w, st.g);
    } else if st.Settle? {
      SettleClear(s, st.w);
    } else {
      assert Clear(s, s.workers[st.w]);
    }
  }

  lemma KnownKept(s: State, st: Step, t: Task)
    requires Executing(s) && Enabled(s, st) && t in Apply(s, st).queue
    ensures Known(Apply(s, st), t)
  {
    hide DoStart, DoSettle;
    ShapeKept(s, st);
    if st.Start? {
      StartShape(s, st.w, st.g);
    } else if st.Settle? {
      SettleQueues(s, st.w);
    }
    if t in s.queue {
      assert Known(s, t);
    }
  }

  lemma StartKeepsMain(s: State, w: nat, g: Fiber, f: Fiber)
    requires Executing(s) && Enabled(s, Start(w, g)) && f in s.foreign
    ensures f in DoStart(s, w, g).fibers && DoStart(s, w, g).fibers[f].EXEC?
  {
    assert Clear(s, s.workers[w]);
  }

  lemma SettleKeepsMain(s: State, w: nat, f: Fiber)
    requires Executing(s) && Enabled(s, Settle(w)) && f in s.foreign
    ensures f in DoSettle(s, w).fibers && DoSettle(s, w).fibers[f].EXEC?
  {
    assert Clear(s, s.workers[w]);
  }

  lemma MainFibersKept(s: State, st: Step, f: Fiber)
    requires Executing(s) && Enabled(s, st) && f in s.foreign
    ensures f in Apply(s, st).fibers && Apply(s, st).fibers[f].EXEC?
  {
    hide DoStart, DoSettle;
    if st.Start? {
      StartKeepsMain(s, st.w, st.g, f);
    } else if st.Settle? {
      SettleKeepsMain(s, st.w, f);
    } else if st.Yield? {
      assert Clear(s, s.workers[st.w]);
    }
  }

  lemma ExecutingKept(s: State, st: Step)
    requires Executing(s) && Enabled(s, st)
    ensures Executing(Apply(s, st)) && Apply(s, st).foreign == s.foreign
  {
    var s' := Apply(s, st);
    hide Apply;
    ShapeKept(s, st);
    forall f | f in s'.fibers && s'.fibers[f].EXEC? && f !in s'.foreign
      ensures exists k :: Runs(s', k, f)
    {
      RunningKept(s, st, f);
    }
    forall f | f in s'.foreign
      ensures f in s'.fibers && s'.fibers[f].EXEC?
    {
      MainFibersKept(s, st, f);
    }
    forall k | 0 <= k < |s'.workers|
      ensures Clear(s', s'.workers[k])
    {
      ClearKept(s, st, k);
    }
    forall k | 0 <= k < |s'.queue|
      ensures Known(s', s'.queue[k])
    {
      KnownKept(s, st, s'.queue[k]);
    }
  }

  // ---- Leaving ----

  /** A task that no worker would take in its last scan: it is pinned to a thread, or is the main
      fiber of one. */
  predicate Stuck(t: Task, foreign: set<Fiber>) {
    t.thread != ANY || (t.item.FiberItem? && t.item.f in foreign)
  }

  /** Everything queued is pinned to another thread than this one, or is a main fiber. */
  ghost predicate LeftBy(queue: seq<Task>, thread: int, foreign: set<Fiber>) {
    forall j | 0 <= j < |queue| ::
      || queue[j].thread !in {-1, thread}
      || (queue[j].item.FiberItem? && queue[j].item.f in foreign)
  }

  /** Idle fibers end, and workers leave, only after the stop. */
  predicate Orderly(w: Worker, stopped: bool) {
    && (w.idleDone ==> stopped && !w.phase.Idling?)
    && (w.phase.Gone? ==> w.idleDone)
  }

  /** When the last worker is leaving it has left no task it could have taken. */
  ghost predicate Drained(s: State) {
    && s.workers != []
    && (forall k | 0 <= k < |s.workers| :: Orderly(s.workers[k], s.stopped))
    && ((exists k | 0 <= k < |s.workers| :: !Leaving(s.workers[k]))
        || (exists k | 0 <= k < |s.workers| :: LeftBy(s.queue, s.workers[k].thread, s.foreign)))
  }

  lemma OrderlyKept(s: State, st: Step, k: nat)
    requires Drained(s) && Enabled(s, st) && k < |s.workers|
    ensures |Apply(s, st).workers| == |s.workers| && Orderly(Apply(s, st).workers[k], Apply(s, st).stopped)
  {
    assert Orderly(s.workers[k], s.stopped);
    if st.Enqueue? || st.Stop? || k != st.w {
      hide Apply;
      OthersStay(s, st, k);
      ShapeKept(s, st);
    }
  }

  /** The last scan of the last worker: a task that it passes over although it may run on its thread is
      executing, nobody is left to execute it, so it is a main fiber. */
  lemma LastScan(s: State, w: nat)
    requires Executing(s) && w < |s.workers| && s.workers[w].phase.Top?
    requires forall k | 0 <= k < |s.workers| && k != w :: Leaving(s.workers[k])
    requires FirstEligible(s.queue, s.workers[w].thread, s.fibers).None?
    ensures LeftBy(s.queue, s.workers[w].thread, s.foreign)
  {
  }

  lemma DrainedKept(s: State, st: Step)
    requires Executing(s) && Drained(s) && Enabled(s, st)
    ensures Drained(Apply(s, st))
  {
    hide Apply;
    var s' := Apply(s, st);
    ShapeKept(s, st);
    forall k | 0 <= k < |s'.workers|
      ensures Orderly(s'.workers[k], s'.stopped)
    {
      OrderlyKept(s, st, k);
    }
    if forall k | 0 <= k < |s'.workers| :: Leaving(s'.workers[k]) {
      AllLeaving(s, st);
    }
  }

  /** After a step that leaves no worker behind, what is queued stays queued. */
  lemma AllLeaving(s: State, st: Step)
    requires Executing(s) && Drained(s) && Enabled(s, st)
    requires forall k | 0 <= k < |Apply(s, st).workers| :: Leaving(Apply(s, st).workers[k])
    ensures var s' := Apply(s, st);
            exists k | 0 <= k < |s'.workers| :: LeftBy(s'.queue, s'.workers[k].thread, s.foreign)
  {
    hide DoStart, DoSettle;
    var s' := Apply(s, st);
    if st.Start? { StartShape(s, st.w, st.g); }
    if st.Settle? { SettleKeepsShape(s, st.w); }
    ShapeKept(s, st);
    forall k | 0 <= k < |s.workers| && !(st.Scan? && k == st.w)
      ensures Leaving(s.workers[k])
    {
      assert Leaving(s'.workers[k]);
    }
    if st.Scan? {
      assert Leaving(s'.workers[st.w]);
      LastScan(s, st.w);
      assert LeftBy(s'.queue, s'.workers[st.w].thread, s.foreign);
    } else {
      assert Leaving(s.workers[0]);
      var k :| 0 <= k < |s.workers| && LeftBy(s.queue, s.workers[k].thread, s.foreign);
      assert LeftBy(s'.queue, s'.workers[k].thread, s.foreign);
    }
  }

  // ---- Runs ----

  ghost predicate Inv(s: State) {
    Accounts(s) && Executing(s) && Drained(s)
  }

  /** A scheduler before its first step, with `threads` and the main fibers `foreign`. */
  function Initial(threads: seq<int>, foreign: set<Fiber>): State {
    State([], seq(|threads|, k requires 0 <= k < |threads| => Worker(threads[k], Top, None, false)),
          map f | f in foreign :: EXEC, foreign, 0, 0, false, multiset{}, multiset{})
  }

  lemma {:induction false} NoneHeldAtTop(ws: seq<Worker>)
    requires forall k | 0 <= k < |ws| :: ws[k].phase.Top?
    ensures Active(ws) == 0 && IdleCount(ws) == 0 && Held(ws) == multiset{}
  {
    if ws != [] {
      NoneHeldAtTop(ws[1..]);
    }
  }

  lemma InitialInv(threads: seq<int>, foreign: set<Fiber>)
    requires threads != []
    ensures Inv(Initial(threads, foreign))
  {
    var s := Initial(threads, foreign);
    NoneHeldAtTop(s.workers);
    assert !Leaving(s.workers[0]);
  }

  ghost predicate EnabledRun(s: State, run: seq<Step>)
    decreases |run|
  {
    run == [] || (Enabled(s, run[0]) && EnabledRun(Apply(s, run[0]), run[1..]))
  }

  ghost function After(s: State, run: seq<Step>): State
    requires EnabledRun(s, run)
    decreases |run|
  {
    if run == [] then s else After(Apply(s, run[0]), run[1..])
  }

  lemma {:induction false} RunKeepsInv(s: State, run: seq<Step>)
    requires Inv(s) && EnabledRun(s, run)
    ensures Inv(After(s, run)) && After(s, run).foreign == s.foreign
    ensures var ws := After(s, run).workers;
            |ws| == |s.workers| && forall k | 0 <= k < |ws| :: ws[k].thread == s.workers[k].thread
    decreases |run|
  {
    if run != [] {
      ShapeKept(s, run[0]);
      AccountsKept(s, run[0]);
      ExecutingKept(s, run[0]);
      DrainedKept(s, run[0]);
      RunKeepsInv(Apply(s, run[0]), run[1..]);
    }
  }

  /** In every interleaving the two counters count what they are meant to count, and no task is
      lost or done twice. */
  lemma {:induction false} BooksAlwaysBalance(threads: seq<int>, foreign: set<Fiber>, run: seq<Step>)
    requires threads != [] && EnabledRun(Initial(threads, foreign), run)
    ensures var s := After(Initial(threads, foreign), run);
            && s.active == Active(s.workers) && s.idle == IdleCount(s.workers)
            && s.enqueued == multiset(s.queue) + Held(s.workers) + s.finished
  {
    InitialInv(threads, foreign);
    RunKeepsInv(Initial(threads, foreign), run);
  }

  /** In every interleaving, a task pinned to a thread is in no other thread's hands. */
  lemma {:induction false} PinnedTasksStay(threads: seq<int>, foreign: set<Fiber>, run: seq<Step>, k: nat)
    requires threads != [] && EnabledRun(Initial(threads, foreign), run)
    requires k < |After(Initial(threads, foreign), run).workers|
    ensures var w := After(Initial(threads, foreign), run).workers[k];
            InHand(w.phase).Some? && InHand(w.phase).value.thread != ANY ==> InHand(w.phase).value.thread == w.thread
  {
    InitialInv(threads, foreign);
    RunKeepsInv(Initial(threads, foreign), run);
    assert Clear(After(Initial(threads, foreign), run), After(Initial(threads, foreign), run).workers[k]);
  }

  /** No worker ever gets stuck before it has left. */
  lemma {:induction false} WorkersCanMove(threads: seq<int>, foreign: set<Fiber>, run: seq<Step>, k: nat, g: Fiber)
    requires threads != [] && EnabledRun(Initial(threads, foreign), run)
    requires k < |After(Initial(threads, foreign), run).workers|
    requires !After(Initial(threads, foreign), run).workers[k].phase.Gone?
    requires g !in After(Initial(threads, foreign), run).fibers
    ensures var s := After(Initial(threads, foreign), run);
            exists st | st in [Scan(k), Start(k, g), Yield(k, TERM), Count(k), Settle(k), Idle(k),
                               AskStop(k, false), LeaveIdle(k)] :: Enabled(s, st)
  {
    InitialInv(threads, foreign);
    RunKeepsInv(Initial(threads, foreign), run);
    hide Inv, EnabledRun, After, Initial, Enabled;
    var st := WorkerCanMove(After(Initial(threads, foreign), run), k, g);
  }

  lemma WorkerCanMove(s: State, k: nat, g: Fiber) returns (st: Step)
    requires Inv(s) && k < |s.workers| && !s.workers[k].phase.Gone? && g !in s.fibers
    ensures st in [Scan(k), Start(k, g), Yield(k, TERM), Count(k), Settle(k), Idle(k), AskStop(k, false), LeaveIdle(k)]
    ensures Enabled(s, st)
  {
    hide Accounts, Drained;
    assert Clear(s, s.workers[k]);
    st := match s.workers[k].phase
              case Top => Scan(k)
              case Took(_) => Start(k, g)
              case Running(_, _) => Yield(k, TERM)
              case Back(_, _) => Count(k)
              case Settling(_, _) => Settle(k)
              case NoTask => Idle(k)
              case Idling => AskStop(k, false)
              case _ => LeaveIdle(k);
  }

  /** Drain on exit: in every interleaving, once all workers have left `run`, nothing is counted
      active or idle, every task ever scheduled is done with or still queued, and those still
      queued are main fibers or pinned, and not to the thread of the worker that scanned last. */
  lemma {:induction false} DrainOnExit(threads: seq<int>, foreign: set<Fiber>, run: seq<Step>)
    requires threads != [] && EnabledRun(Initial(threads, foreign), run)
    requires AllGone(After(Initial(threads, foreign), run))
    ensures var s := After(Initial(threads, foreign), run);
            && s.stopped && s.active == 0 && s.idle == 0
            && s.enqueued == multiset(s.queue) + s.finished
            && (forall j | 0 <= j < |s.queue| :: Stuck(s.queue[j], foreign))
            && (exists k | 0 <= k < |threads| :: LeftBy(s.queue, threads[k], foreign))
  {
    InitialInv(threads, foreign);
    RunKeepsInv(Initial(threads, foreign), run);
    var s := After(Initial(threads, foreign), run);
    NothingHeld(s.workers);
    assert s.workers[0].phase.Gone?;
    assert forall k | 0 <= k < |s.workers| :: Leaving(s.workers[k]);
    var k :| 0 <= k < |s.workers| && LeftBy(s.queue, s.workers[k].thread, s.foreign);
    assert LeftBy(s.queue, threads[k], foreign);
  }

  /** A single worker does everything that is pinned to it: what is left when it leaves is pinned to
      other threads, or main fibers. */
  lemma {:induction false} OneWorkerDoesItsOwn(thread: int, foreign: set<Fiber>, run: seq<Step>, t: Task)
    requires EnabledRun(Initial([thread], foreign), run) && AllGone(After(Initial([thread], foreign), run))
    requires t.thread in {-1, thread} && !(t.item.FiberItem? && t.item.f in foreign)
    ensures var s := After(Initial([thread], foreign), run);
            t !in s.queue && s.finished[t] == s.enqueued[t]
  {
    DrainOnExit([thread], foreign, run);
    var s := After(Initial([thread], foreign), run);
    assert t !in s.queue;
    assert multiset(s.queue)[t] == 0;
  }

  lemma FrontIsStuck(queue: seq<Task>, finished: multiset<Task>, foreign: set<Fiber>)
    requires forall j | 0 <= j < |queue| :: Stuck(queue[j], foreign)
    ensures queue == [] || exists t | t in multiset(queue) + finished :: Stuck(t, foreign)
  {
    if queue != [] {
      assert queue[0] in multiset(queue);
    }
  }

  /** With no pinned task and no main fiber among them, all tasks ever scheduled are done with. */
  lemma {:induction false} EverythingIsDone(threads: seq<int>, foreign: set<Fiber>, run: seq<Step>)
    requires threads != [] && EnabledRun(Initial(threads, foreign), run)
    requires AllGone(After(Initial(threads, foreign), run))
    requires forall t | t in After(Initial(threads, foreign), run).enqueued :: !Stuck(t, foreign)
    ensures var s := After(Initial(threads, foreign), run);
            s.queue == [] && s.finished == s.enqueued
  {
    DrainOnExit(threads, foreign, run);
    var s := After(Initial(threads, foreign), run);
    FrontIsStuck(s.queue, s.finished, foreign);
  }

  // ---- stopping() is not stable ----

  /** Once `stopping()` says yes, exactly two kinds of step make it say no again: something is
      scheduled, or a worker that no longer counts as active puts a READY fiber back. */
  lemma StoppingLostIff(s: State, st: Step)
    requires Inv(s) && Enabled(s, st) && Stopping(s)
    ensures !Stopping(Apply(s, st)) <==>
            st.Enqueue? || (st.Settle? && s.fibers[s.workers[st.w].phase.f].READY?)
  {
    if !st.Enqueue? && !st.Stop? {
      NoneActive(s.workers, st.w);
    }
  }

  /** Two workers and one task: the first worker runs it, the second is in its idle fiber. */
  function OneRunsOneIdles(): State {
    var t := Task(FiberItem(0), ANY);
    State([], [Worker(10, Running(t, 0), None, false), Worker(11, Idling, None, false)],
          map[0 := EXEC], {}, 1, 1, false, multiset{t}, multiset{})
  }

  /** The first worker has taken the task. */
  function OneTaken(): State {
    var t := Task(FiberItem(0), ANY);
    State([], [Worker(10, Took(t), None, false), Worker(11, Top, None, false)],
          map[0 := INIT], {}, 1, 0, false, multiset{t}, multiset{})
  }

  lemma FirstSteps() returns (s1: State)
    ensures var t := Task(FiberItem(0), ANY);
            && Enabled(Initial([10, 11], {}), Enqueue(t)) && s1 == Apply(Initial([10, 11], {}), Enqueue(t))
            && Enabled(s1, Scan(0)) && Apply(s1, Scan(0)) == OneTaken()
  {
    var t := Task(FiberItem(0), ANY);
    s1 := Apply(Initial([10, 11], {}), Enqueue(t));
    assert s1.queue == [t] && s1.fibers == map[0 := INIT];
    assert Eligible(t, 10, s1.fibers);
    assert Apply(s1, Scan(0)) == OneTaken();
  }

  lemma NextSteps() returns (s3: State, s4: State)
    ensures && Enabled(OneTaken(), Start(0, 1)) && s3 == Apply(OneTaken(), Start(0, 1))
            && Enabled(s3, Scan(1)) && s4 == Apply(s3, Scan(1))
            && Enabled(s4, Idle(1)) && Apply(s4, Idle(1)) == OneRunsOneIdles()
  {
    var t := Task(FiberItem(0), ANY);
    s3 := Apply(OneTaken(), Start(0, 1));
    assert s3.workers == [Worker(10, Running(t, 0), None, false), Worker(11, Top, None, false)];
    s4 := Apply(s3, Scan(1));
    assert s4.workers == [Worker(10, Running(t, 0), None, false), Worker(11, NoTask, None, false)];
    assert Apply(s4, Idle(1)) == OneRunsOneIdles();
  }

  lemma OneRunsOneIdlesIsReached()
    ensures var run := [Enqueue(Task(FiberItem(0), ANY)), Scan(0), Start(0, 1), Scan(1), Idle(1)];
            EnabledRun(Initial([10, 11], {}), run) && After(Initial([10, 11], {}), run) == OneRunsOneIdles()
  {
    hide EnabledRun, After, Apply, Enabled, Initial, OneTaken, OneRunsOneIdles;
    var (t, s0, s2) := (Task(FiberItem(0), ANY), Initial([10, 11], {}), OneTaken());
    var s1 := FirstSteps();
    var s3, s4 := NextSteps();
    NoSteps(OneRunsOneIdles());
    Compose(s4, Idle(1), [], [Idle(1)]);
    Compose(s3, Scan(1), [Idle(1)], [Scan(1), Idle(1)]);
    Compose(s2, Start(0, 1), [Scan(1), Idle(1)], [Start(0, 1), Scan(1), Idle(1)]);
    Compose(s1, Scan(0), [Start(0, 1), Scan(1), Idle(1)], [Scan(0), Start(0, 1), Scan(1), Idle(1)]);
    Compose(s0, Enqueue(t), [Scan(0), Start(0, 1), Scan(1), Idle(1)],
            [Enqueue(t), Scan(0), Start(0, 1), Scan(1), Idle(1)]);
  }

  lemma LastSteps() returns (s1: State, s2: State, s3: State, s4: State)
    ensures && Enabled(OneRunsOneIdles(), Stop) && s1 == Apply(OneRunsOneIdles(), Stop)
            && Enabled(s1, Yield(0, READY)) && s2 == Apply(s1, Yield(0, READY))
            && Enabled(s2, Count(0)) && s3 == Apply(s2, Count(0))
            && Enabled(s3, AskStop(1, true)) && s4 == Apply(s3, AskStop(1, true))
            && Stopping(s4) && |s4.workers| == 2 && s4.workers[1].idleDone
            && Enabled(s4, Settle(0)) && !Stopping(Apply(s4, Settle(0)))
  {
    s1 := Apply(OneRunsOneIdles(), Stop);
    s2 := Apply(s1, Yield(0, READY));
    s3 := Apply(s2, Count(0));
    assert Stopping(s3);
    s4 := Apply(s3, AskStop(1, true));
    assert s4.workers[0].phase == Settling(Task(FiberItem(0), ANY), 0) && s4.fibers[0] == READY;
    assert |Apply(s4, Settle(0)).queue| == 1;
  }

  /** From there the task yields to READY: the second worker's idle fiber sees a stopped scheduler
      and ends, then the first worker puts the fiber back and the answer changes. */
  lemma StoppingIsNotStable()
    ensures var run := [Stop, Yield(0, READY), Count(0), AskStop(1, true)];
            && EnabledRun(OneRunsOneIdles(), run)
            && var s := After(OneRunsOneIdles(), run);
               && Stopping(s) && |s.workers| == 2 && s.workers[1].idleDone
               && Enabled(s, Settle(0)) && !Stopping(Apply(s, Settle(0)))
  {
    hide EnabledRun, After, Apply, Enabled, Stopping, OneRunsOneIdles;
    var s1, s2, s3, s4 := LastSteps();
    NoSteps(s4);
    Compose(s3, AskStop(1, true), [], [AskStop(1, true)]);
    Compose(s2, Count(0), [AskStop(1, true)], [Count(0), AskStop(1, true)]);
    Compose(s1, Yield(0, READY), [Count(0), AskStop(1, true)], [Yield(0, READY), Count(0), AskStop(1, true)]);
    Compose(OneRunsOneIdles(), Stop, [Yield(0, READY), Count(0), AskStop(1, true)],
            [Stop, Yield(0, READY), Count(0), AskStop(1, true)]);
  }

  lemma {:induction false} NoSteps(s: State)
    ensures EnabledRun(s, []) && After(s, []) == s
  {
  }

  lemma {:induction false} Compose(s: State, st: Step, rest: seq<Step>, run: seq<Step>)
    requires run == [st] + rest && Enabled(s, st) && EnabledRun(Apply(s, st), rest)
    ensures EnabledRun(s, run) && After(s, run) == After(Apply(s, st), rest)
  {
    assert run[1..] == rest;
  }
}

/** The queue object of the scheduler. */
module TaskQueues {
  import opened Collections
  import opened Scheduler

  /** The items handed over, without the empty ones. */
  function Present(items: seq<Option<Item>>): (r: seq<Task>)
    ensures |r| <= |items|
  {
    if items == [] then []
    else Present(items[..|items| - 1]) +
         (match items[|items| - 1] case None => [] case Some(i) => [Task(i, ANY)])
  }

  class TaskQueue {
    var m_fibers: seq<Task>
    var m_activateThreadCount: nat

    constructor ()
      ensures m_fibers == [] && m_activateThreadCount == 0
    {
      m_fibers, m_activateThreadCount := [], 0;
    }

    /** `scheduleNoLock`: an empty task is dropped; the answer says whether the queue was empty. */
    method ScheduleNoLock(item: Option<Item>, thread: int) returns (needTickle: bool)
      modifies this`m_fibers
      ensures needTickle == (old(m_fibers) == [])
      ensures m_fibers == old(m_fibers) + if item.Some? then [Task(item.value, thread)] else []
    {
      needTickle := m_fibers == [];
      if item.Some? {
        m_fibers := m_fibers + [Task(item.value, thread)];
      }
    }

    /** `schedule` of one task: the answer of `scheduleNoLock` is dropped, so nobody is ever woken
        for it, whatever the queue held. */
    method Schedule(item: Option<Item>, thread: int) returns (tickled: bool)
      modifies this`m_fibers
      ensures !tickled
      ensures m_fibers == old(m_fibers) + if item.Some? then [Task(item.value, thread)] else []
    {
      var needTickle := false;
      var _ := ScheduleNoLock(item, thread);
      tickled := needTickle;
    }

    /** `schedule(begin, end)`: the items are moved out of the caller's storage. */
    method ScheduleRange(items: array<Option<Item>>) returns (needTickle: bool)
      modifies this`m_fibers, items
      ensures m_fibers == old(m_fibers) + Present(old(items[..]))
      ensures forall k | 0 <= k < items.Length :: items[k] == None
      ensures needTickle == (old(m_fibers) == [] && items.Length > 0)
    {
      needTickle := false;
      var begin := 0;
      while begin != items.Length
        invariant 0 <= begin <= items.Length
        invariant m_fibers == old(m_fibers) + Present(old(items[..])[..begin])
        invariant forall k | 0 <= k < begin :: items[k] == None
        invariant forall k | begin <= k < items.Length :: items[k] == old(items[k])
        invariant needTickle == (old(m_fibers) == [] && begin > 0)
      {
        var item := items[begin];
        items[begin] := None;
        assert old(items[..])[..begin + 1][..begin] == old(items[..])[..begin];
        var t := ScheduleNoLock(item, ANY);
        needTickle := t || needTickle;
        begin := begin + 1;
      }
      assert old(items[..])[..begin] == old(items[..]);
    }

    /** The locked scan of `run`: it takes the first task this thread may run, and says whether it
        passed over a task pinned to another thread. */
    method TakeTask(thread: int, fibers: map<Fiber, FiberState>) returns (ft: Option<Task>, tickleMe: bool)
      modifies this
      ensures var p := FirstEligible(old(m_fibers), thread, fibers);
              && (p.None? ==> ft == None && m_fibers == old(m_fibers)
                              && m_activateThreadCount == old(m_activateThreadCount))
              && (p.Some? ==> ft == Some(old(m_fibers)[p.value]) && m_fibers == Without(old(m_fibers), p.value)
                              && m_activateThreadCount == old(m_activateThreadCount) + 1)
              && (tickleMe <==> exists k | 0 <= k < (if p.Some? then p.value else |old(m_fibers)|) ::
                                  old(m_fibers)[k].thread != ANY && old(m_fibers)[k].thread != thread)
      ensures ft.Some? ==> && ft.value.thread in {-1, thread}
                           && (ft.value.item.FiberItem? && ft.value.item.f in fibers ==>
                                 fibers[ft.value.item.f] != EXEC)
      ensures ft.None? ==> forall k | 0 <= k < |m_fibers| ::
                             || m_fibers[k].thread !in {-1, thread}
                             || (m_fibers[k].item.FiberItem? && m_fibers[k].item.f in fibers
                                 && fibers[m_fibers[k].item.f] == EXEC)
    {
      ft, tickleMe := None, false;
      var it := 0;
      while it != |m_fibers|
        invariant 0 <= it <= |m_fibers| && m_fibers == old(m_fibers)
        invariant m_activateThreadCount == old(m_activateThreadCount) && ft == None
        invariant forall k | 0 <= k < it :: !Eligible(m_fibers[k], thread, fibers)
        invariant tickleMe <==> exists k | 0 <= k < it ::
                    m_fibers[k].thread != ANY && m_fibers[k].thread != thread
      {
        var task := m_fibers[it];
        if task.thread != ANY && task.thread != thread {
          tickleMe := true;
          it := it + 1;
          continue;
        }
        if task.item.FiberItem? && task.item.f in fibers && fibers[task.item.f].EXEC? {
          it := it + 1;
          continue;
        }
        ft := Some(task);
        m_fibers := Without(m_fibers, it);
        m_activateThreadCount := m_activateThreadCount + 1;
        return;
      }
    }
  }
}
