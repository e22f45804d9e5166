/** The event slots of the IO manager as a value, with the kernel's interest set beside them.
    Each operation is a function; the class in IOManager.dfy is proved to compute it. */
module IoSpec {
  import opened Collections

  datatype Event = Read | Write

  type Fd = nat
  type Fiber = nat
  type Callback = nat

  /** Who is to run when an event comes: a callback, or the fiber that registered it. */
  datatype Task = FiberTask(fiber: Fiber) | CallbackTask(cb: Callback)

  /** `EventContext`; `scheduler` says whether the pointer is set. */
  datatype Context = Context(scheduler: bool, fiber: Option<Fiber>, cb: Option<Callback>) {
    /** What `triggerEvent` hands to `schedule`, which drops a task that is nothing. */
    function Tasks(): seq<Task> {
      if cb.Some? then [CallbackTask(cb.value)]
      else if fiber.Some? then [FiberTask(fiber.value)]
      else []
    }
  }

  const EMPTY := Context(false, None, None)

  datatype FdContext = FdContext(events: set<Event>, read: Context, write: Context) {
    function Slot(ev: Event): Context {
      if ev == Read then read else write
    }

    function WithSlot(ev: Event, c: Context): FdContext {
      if ev == Read then this.(read := c) else this.(write := c)
    }
  }

  const FRESH := FdContext({}, EMPTY, EMPTY)

  /** `fds` and `pending` are the fields of the manager, `kernel` the interest mask of every fd
      in the epoll set, `log` all tasks that triggers have scheduled; `added`, `deleted`
      and `waiting` keep the books: registrations made and withdrawn, and for whom each
      event that is set was registered. */
  datatype State = State(
    fds: seq<FdContext>, kernel: map<Fd, set<Event>>, pending: int, log: seq<Task>,
    added: nat, deleted: nat, waiting: map<(Fd, Event), Task>)

  // ---- The kernel ----

  datatype CtlOp = CtlAdd | CtlMod | CtlDel

  /** The kernel refuses ADD for an fd in the set and MOD or DEL for one outside it. */
  predicate Legal(kernel: map<Fd, set<Event>>, op: CtlOp, fd: Fd) {
    op.CtlAdd? <==> fd !in kernel
  }

  /** `epoll_ctl`; it may also fail for reasons of its own. */
  function EpollCtl(kernel: map<Fd, set<Event>>, op: CtlOp, fd: Fd, mask: set<Event>, fails: bool)
    : Option<map<Fd, set<Event>>>
  {
    if fails || !Legal(kernel, op, fd) then None
    else if op.CtlDel? then Some(kernel - {fd})
    else Some(kernel[fd := mask])
  }

  /** It refuses to add an fd that it has and to change or drop one that it has not; otherwise the fd ends up
      with this mask, or gone, and no other is touched. */
  lemma CtlMeaning(kernel: map<Fd, set<Event>>, op: CtlOp, fd: Fd, mask: set<Event>)
    ensures var r := EpollCtl(kernel, op, fd, mask, false);
            && EpollCtl(kernel, op, fd, mask, true) == None
            && (r == None <==> if op == CtlAdd then fd in kernel else fd !in kernel)
            && (r.Some? ==> (fd in r.value <==> op != CtlDel) && (op != CtlDel ==> r.value[fd] == mask)
                            && forall k | k != fd ::
                                 (k in r.value <==> k in kernel) && (k in kernel ==> r.value[k] == kernel[k]))
  {
  }

  // ---- The operations ----

  /** How an operation ends: normally, with its answer, or with a null scheduler pointer. */
  datatype Outcome = Done(s: State, ok: bool) | Crash

  /** `contextResize(fd * 2)` when the table is too short. */
  function Resized(fds: seq<FdContext>, fd: Fd): (r: seq<FdContext>)
    requires |fds| >= 1
    ensures fd < |r| && fds <= r
    ensures forall k | |fds| <= k < |r| :: r[k] == FRESH
  {
    if fd < |fds| then fds else fds + seq(2 * fd - |fds|, _ => FRESH)
  }

  function AddOp(events: set<Event>): CtlOp {
    if events != {} then CtlMod else CtlAdd
  }

  function LeaveOp(left: set<Event>): CtlOp {
    if left != {} then CtlMod else CtlDel
  }

  /** The slot after `addEvent`: a callback replaces a callback, but a fiber leaves one that
      is there in place. */
  function Registered(c: Context, w: Task): Context {
    match w
    case CallbackTask(cb) => c.(scheduler := true, cb := Some(cb))
    case FiberTask(f) => c.(scheduler := true, fiber := Some(f))
  }

  /** `addEvent` for the waiter `w`. The checks that the event is not set and its slot is
      empty only log in a release build. */
  function AddEvent(s: State, fd: Fd, ev: Event, w: Task, fails: bool): Outcome
    requires |s.fds| >= 1
  {
    var s0 := s.(fds := Resized(s.fds, fd));
    var c := s0.fds[fd];
    match EpollCtl(s.kernel, AddOp(c.events), fd, c.events + {ev}, fails)
    case None => Done(s0, false)
    case Some(kernel) =>
      var c' := c.(events := c.events + {ev}).WithSlot(ev, Registered(c.Slot(ev), w));
      Done(s0.(fds := s0.fds[fd := c'], kernel := kernel, pending := s.pending + 1,
               added := s.added + 1, waiting := s.waiting[(fd, ev) := w]), true)
  }

  /** `delEvent`: the registration is withdrawn and its slot emptied. */
  function DelEvent(s: State, fd: Fd, ev: Event, fails: bool): Outcome {
    if fd >= |s.fds| || ev !in s.fds[fd].events then Done(s, false)
    else
      var c := s.fds[fd];
      var left := c.events - {ev};
      match EpollCtl(s.kernel, LeaveOp(left), fd, left, fails)
      case None => Done(s, false)
      case Some(kernel) =>
        Done(s.(fds := s.fds[fd := c.(events := left).WithSlot(ev, EMPTY)], kernel := kernel,
                pending := s.pending - 1, deleted := s.deleted + 1, waiting := s.waiting - {(fd, ev)}), true)
  }

  /** `triggerEvent` and the count: the event is cleared and its slot's task scheduled. The
      slot keeps what it holds. */
  function Trigger(s: State, fd: Fd, ev: Event): Option<State>
    requires fd < |s.fds|
  {
    var c := s.fds[fd];
    if !c.Slot(ev).scheduler then None
    else Some(s.(fds := s.fds[fd := c.(events := c.events - {ev})], pending := s.pending - 1,
                 log := s.log + c.Slot(ev).Tasks(), waiting := s.waiting - {(fd, ev)}))
  }

  /** Triggers reading and then writing, as far as they are in `evs`. */
  function TriggerAll(s: State, fd: Fd, evs: set<Event>): Option<State>
    requires fd < |s.fds|
  {
    var s1 :- if Read in evs then Trigger(s, fd, Read) else Some(s);
    if Write in evs then Trigger(s1, fd, Write) else Some(s1)
  }

  function Finish(s: Option<State>): Outcome {
    if s.Some? then Done(s.value, true) else Crash
  }

  /** `cancelEvent`: the event is triggered early. The mask it hands to the kernel still
      holds the event. */
  function CancelEvent(s: State, fd: Fd, ev: Event, fails: bool): Outcome {
    if fd >= |s.fds| || ev !in s.fds[fd].events then Done(s, false)
    else
      var c := s.fds[fd];
      match EpollCtl(s.kernel, LeaveOp(c.events - {ev}), fd, c.events, fails)
      case None => Done(s, false)
      case Some(kernel) => Finish(Trigger(s.(kernel := kernel), fd, ev))
  }

  /** `cancelAll`: every event that is set is triggered. */
  function CancelAll(s: State, fd: Fd, fails: bool): Outcome {
    if fd >= |s.fds| || s.fds[fd].events == {} then Done(s, false)
    else
      match EpollCtl(s.kernel, CtlDel, fd, {}, fails)
      case None => Done(s, false)
      case Some(kernel) => Finish(TriggerAll(s.(kernel := kernel), fd, s.fds[fd].events))
  }

  /** What `epoll_wait` says about an fd. */
  datatype Report = Report(fd: Fd, input: bool, output: bool, error: bool) {
    /** An error or a hang-up counts as both events. */
    function Events(): (evs: set<Event>)
      ensures Read in evs <==> input || error
      ensures Write in evs <==> output || error
    {
      (if input || error then {Read} else {}) + (if output || error then {Write} else {})
    }
  }

  /** One round of the dispatch loop of `idle`. The events are not masked by those that
      are registered. */
  function Dispatch(s: State, rep: Report, fails: bool): Outcome
    requires rep.fd < |s.fds|
  {
    var c := s.fds[rep.fd];
    var got := rep.Events();
    if c.events * got == {} then Done(s, false)
    else
      var left := c.events - got;
      match EpollCtl(s.kernel, LeaveOp(left), rep.fd, left, fails)
      case None => Done(s, false)
      case Some(kernel) => Finish(TriggerAll(s.(kernel := kernel), rep.fd, got))
  }

  /** The dispatch loop over everything that one `epoll_wait` reports. */
  function DispatchEach(s: State, reps: seq<Report>, fails: seq<bool>): Outcome
    requires |fails| == |reps| && forall k | 0 <= k < |reps| :: reps[k].fd < |s.fds|
    decreases reps
  {
    if reps == [] then Done(s, true)
    else
      match Dispatch(s, reps[0], fails[0])
      case Crash => Crash
      case Done(s', _) => DispatchEach(s', reps[1..], fails[1..])
  }

  // ---- What the operations do ----

  /** A registration sets its event and no other bit, in the table and in the kernel's mask, fills its
      slot, where a fiber leaves an earlier callback in place, and touches nothing else. */
  lemma AddMeaning(s: State, fd: Fd, ev: Event, w: Task)
    requires |s.fds| >= 1 && AddEvent(s, fd, ev, w, false).ok
    ensures var s' := AddEvent(s, fd, ev, w, false).s;
            var c := if fd < |s.fds| then s.fds[fd] else FRESH;
            && |s'.fds| == (if fd < |s.fds| then |s.fds| else 2 * fd)
            && s'.fds[fd].events == c.events + {ev} && s'.kernel == s.kernel[fd := c.events + {ev}]
            && s'.fds[fd].Slot(ev) == (match w
                                       case CallbackTask(cb) => Context(true, c.Slot(ev).fiber, Some(cb))
                                       case FiberTask(f) => Context(true, Some(f), c.Slot(ev).cb))
            && (forall e | e != ev :: s'.fds[fd].Slot(e) == c.Slot(e))
            && (forall k | 0 <= k < |s'.fds| && k != fd :: s'.fds[k] == if k < |s.fds| then s.fds[k] else FRESH)
            && s'.pending == s.pending + 1 && s'.added == s.added + 1
            && s'.deleted == s.deleted && s'.log == s.log && s'.waiting == s.waiting[(fd, ev) := w]
  {
  }

  /** A trigger needs a scheduler in the slot. It schedules the slot's callback if there is one, and
      otherwise its fiber; it clears the event, and the slot keeps what it holds. */
  lemma TriggerMeaning(s: State, fd: Fd, ev: Event)
    requires fd < |s.fds|
    ensures var (t, c) := (Trigger(s, fd, ev), s.fds[fd].Slot(ev));
            && (t.Some? <==> c.scheduler)
            && (t.Some? ==>
                  && t.value.log == s.log + (if c.cb.Some? then [CallbackTask(c.cb.value)]
                                             else if c.fiber.Some? then [FiberTask(c.fiber.value)] else [])
                  && t.value.fds[fd].events == s.fds[fd].events - {ev}
                  && (forall e :: t.value.fds[fd].Slot(e) == s.fds[fd].Slot(e))
                  && (forall k | 0 <= k < |s.fds| && k != fd :: |t.value.fds| == |s.fds| && t.value.fds[k] == s.fds[k])
                  && t.value.pending == s.pending - 1 && t.value.kernel == s.kernel)
  {
  }

  /** Where there is nothing to withdraw or to trigger, the answer is no and nothing changes. */
  lemma NothingSet(s: State, fd: Fd, ev: Event, rep: Report, fails: bool)
    ensures fd >= |s.fds| || ev !in s.fds[fd].events ==>
              DelEvent(s, fd, ev, fails) == Done(s, false) && CancelEvent(s, fd, ev, fails) == Done(s, false)
    ensures fd >= |s.fds| || s.fds[fd].events == {} ==> CancelAll(s, fd, fails) == Done(s, false)
    ensures rep.fd < |s.fds| && (forall e | e in s.fds[rep.fd].events ::
                                   !rep.error && !(if e == Read then rep.input else rep.output)) ==>
              Dispatch(s, rep, fails) == Done(s, false)
  {
  }

  /** The kernel's mask of `fd`, or none. */
  function Mask(kernel: map<Fd, set<Event>>, fd: Fd): Option<set<Event>> {
    if fd in kernel then Some(kernel[fd]) else None
  }

  /** After a withdrawal the kernel watches exactly the events that are left, or not the fd at all;
      `cancelEvent` leaves the mask as it was while another event is set. */
  lemma KernelAfterOne(s: State, fd: Fd, ev: Event)
    requires fd < |s.fds|
    ensures var (o, left) := (DelEvent(s, fd, ev, false), s.fds[fd].events - {ev});
            o.Done? && o.ok ==> Mask(o.s.kernel, fd) == if left == {} then None else Some(left)
    ensures var (o, left) := (CancelEvent(s, fd, ev, false), s.fds[fd].events - {ev});
            o.Done? && o.ok ==> Mask(o.s.kernel, fd) == if left == {} then None else Some(s.fds[fd].events)
  {
  }

  /** After `cancelAll` it does not watch the fd, after a dispatch exactly the events that are left. */
  lemma KernelAfterMany(s: State, fd: Fd, rep: Report)
    requires fd < |s.fds| && rep.fd == fd
    ensures var o := CancelAll(s, fd, false); o.Done? && o.ok ==> Mask(o.s.kernel, fd) == None
    ensures var (o, left) := (Dispatch(s, rep, false), s.fds[fd].events - rep.Events());
            o.Done? && o.ok ==> Mask(o.s.kernel, fd) == if left == {} then None else Some(left)
  {
    TriggerAllEvents(s.(kernel := s.kernel - {fd}), fd, s.fds[fd].events);
    var left := s.fds[fd].events - rep.Events();
    match EpollCtl(s.kernel, LeaveOp(left), fd, left, false)
    case None =>
    case Some(kernel) => TriggerAllEvents(s.(kernel := kernel), fd, rep.Events());
  }

  // ---- Agreement with the kernel ----

  /** An fd is in the epoll set exactly when some event is set, and the kernel watches at least
      the events that are set. */
  ghost predicate KernelAgrees(s: State) {
    && (forall fd | fd in s.kernel :: fd < |s.fds|)
    && (forall fd | 0 <= fd < |s.fds| :: fd in s.kernel <==> s.fds[fd].events != {})
    && (forall fd | 0 <= fd < |s.fds| && fd in s.kernel :: s.fds[fd].events <= s.kernel[fd])
  }

  /** The operation that each branch chooses is one the kernel accepts, so only a failure of
      its own makes `epoll_ctl` fail. */
  lemma ChosenOpIsLegal(s: State, fd: Fd)
    requires KernelAgrees(s) && |s.fds| >= 1
    ensures Legal(s.kernel, AddOp(Resized(s.fds, fd)[fd].events), fd)
    ensures fd < |s.fds| && s.fds[fd].events != {} ==>
              forall left :: Legal(s.kernel, LeaveOp(left), fd)
  {
  }

  /** Every outcome of every operation keeps the agreement, duplicates and unregistered
      reports included. */
  lemma AddAgrees(s: State, fd: Fd, ev: Event, w: Task, fails: bool)
    requires KernelAgrees(s) && |s.fds| >= 1
    ensures var o := AddEvent(s, fd, ev, w, fails);
            o.Done? && KernelAgrees(o.s) && (o.ok <==> !fails)
  {
    var fds := Resized(s.fds, fd);
    assert forall k | |s.fds| <= k < |fds| :: fds[k] == FRESH && k !in s.kernel;
  }

  lemma DelAgrees(s: State, fd: Fd, ev: Event, fails: bool)
    requires KernelAgrees(s)
    ensures var o := DelEvent(s, fd, ev, fails); o.Done? && KernelAgrees(o.s)
  {
  }

  lemma TriggerAllEvents(s: State, fd: Fd, evs: set<Event>)
    requires fd < |s.fds|
    ensures var t := TriggerAll(s, fd, evs);
            t.Some? ==>
              && |t.value.fds| == |s.fds| && t.value.kernel == s.kernel
              && t.value.fds[fd].events == s.fds[fd].events - evs
              && forall k | 0 <= k < |s.fds| && k != fd :: t.value.fds[k] == s.fds[k]
  {
    forall e | e in evs
      ensures e in {Read, Write}
    {
      match e
      case Read =>
      case Write =>
    }
  }

  lemma CancelAgrees(s: State, fd: Fd, ev: Event, fails: bool)
    requires KernelAgrees(s)
    ensures var o := CancelEvent(s, fd, ev, fails); o.Done? ==> KernelAgrees(o.s)
  {
  }

  lemma CancelAllAgrees(s: State, fd: Fd, fails: bool)
    requires KernelAgrees(s)
    ensures var o := CancelAll(s, fd, fails); o.Done? ==> KernelAgrees(o.s)
  {
    if fd < |s.fds| {
      TriggerAllEvents(s.(kernel := s.kernel - {fd}), fd, s.fds[fd].events);
    }
  }

  lemma DispatchAgrees(s: State, rep: Report, fails: bool)
    requires KernelAgrees(s) && rep.fd < |s.fds|
    ensures var o := Dispatch(s, rep, fails); o.Done? ==> KernelAgrees(o.s)
  {
    var c := s.fds[rep.fd];
    var left := c.events - rep.Events();
    match EpollCtl(s.kernel, LeaveOp(left), rep.fd, left, fails)
    case None =>
    case Some(kernel) => TriggerAllEvents(s.(kernel := kernel), rep.fd, rep.Events());
  }

  // ---- The books ----

  function Bits(events: set<Event>): nat {
    (if Read in events then 1 else 0) + (if Write in events then 1 else 0)
  }

  /** How many events are set over all fds. */
  function TotalBits(fds: seq<FdContext>): nat {
    if fds == [] then 0 else Bits(fds[0].events) + TotalBits(fds[1..])
  }

  lemma {:induction false} TotalUpdate(fds: seq<FdContext>, k: nat, c: FdContext)
    requires k < |fds|
    ensures TotalBits(fds[k := c]) == TotalBits(fds) - Bits(fds[k].events) + Bits(c.events)
  {
    if k > 0 {
      TotalUpdate(fds[1..], k - 1, c);
      assert fds[k := c][1..] == fds[1..][k - 1 := c];
    } else {
      assert fds[k := c][1..] == fds[1..];
    }
  }

  lemma {:induction false} TotalResized(fds: seq<FdContext>, more: seq<FdContext>)
    requires forall k | 0 <= k < |more| :: more[k] == FRESH
    ensures TotalBits(fds + more) == TotalBits(fds)
  {
    if fds == [] {
      assert fds + more == more;
      if more != [] {
        TotalResized([], more[1..]);
        assert [] + more[1..] == more[1..];
      }
    } else {
      assert (fds + more)[1..] == fds[1..] + more;
      TotalResized(fds[1..], more);
    }
  }

  /** The pending count is the number of events that are set, and every registration has been
      withdrawn, or consumed by a trigger that scheduled one task, or is pending. */
  ghost predicate Ledger(s: State) {
    && s.pending == TotalBits(s.fds)
    && s.added == s.deleted + |s.log| + s.pending
  }

  ghost predicate IsSet(s: State, fd: Fd, ev: Event) {
    fd < |s.fds| && ev in s.fds[fd].events
  }

  /** Every event that is set has a slot with one task to schedule, and a waiter on record. */
  ghost predicate Filled(s: State) {
    && (forall fd: Fd, ev: Event :: (fd, ev) in s.waiting <==> IsSet(s, fd, ev))
    && (forall fd: Fd, ev: Event | IsSet(s, fd, ev) ::
          s.fds[fd].Slot(ev).scheduler && |s.fds[fd].Slot(ev).Tasks()| == 1)
  }

  /** Every event that is set will schedule the task that waits for it. */
  ghost predicate Owned(s: State) {
    forall fd: Fd, ev: Event | IsSet(s, fd, ev) ::
      (fd, ev) in s.waiting && s.fds[fd].Slot(ev).Tasks() == [s.waiting[(fd, ev)]]
  }

  ghost predicate Inv(s: State) {
    |s.fds| >= 1 && KernelAgrees(s) && Ledger(s) && Filled(s)
  }

  // ---- What keeps the books ----

  /** A registration keeps the books exactly when it does not repeat one that is pending. */
  lemma AddKeepsLedgerIff(s: State, fd: Fd, ev: Event, w: Task, fails: bool)
    requires |s.fds| >= 1 && Ledger(s) && AddEvent(s, fd, ev, w, fails).ok
    ensures Ledger(AddEvent(s, fd, ev, w, fails).s) <==> !(fd < |s.fds| && ev in s.fds[fd].events)
  {
    var fds := Resized(s.fds, fd);
    var c := fds[fd];
    assert fds == s.fds + fds[|s.fds|..];
    TotalResized(s.fds, fds[|s.fds|..]);
    TotalUpdate(fds, fd, c.(events := c.events + {ev}).WithSlot(ev, Registered(c.Slot(ev), w)));
  }

  lemma AddKeepsFilled(s: State, fd: Fd, ev: Event, w: Task, fails: bool)
    requires Inv(s)
    ensures var o := AddEvent(s, fd, ev, w, fails); o.Done? && Filled(o.s)
  {
    var o := AddEvent(s, fd, ev, w, fails);
    forall fd': Fd, ev': Event
      ensures (fd', ev') in o.s.waiting <==> IsSet(o.s, fd', ev')
      ensures IsSet(o.s, fd', ev') && !(fd' == fd && ev' == ev) ==>
                IsSet(s, fd', ev') && o.s.fds[fd'].Slot(ev') == s.fds[fd'].Slot(ev')
    {
      assert (fd', ev') in s.waiting <==> IsSet(s, fd', ev');
    }
  }

  /** A fiber that registers on a slot in which an earlier callback was left behind will not be
      woken by the event: the slot schedules the old callback. In every other case the
      event schedules whoever registered. */
  lemma AddKeepsOwnedIff(s: State, fd: Fd, ev: Event, w: Task)
    requires Inv(s) && Owned(s) && !IsSet(s, fd, ev)
    ensures var o := AddEvent(s, fd, ev, w, false);
            o.Done? && o.ok &&
            (Owned(o.s) <==> (w.FiberTask? ==> Resized(s.fds, fd)[fd].Slot(ev).cb.None?))
  {
    AddAgrees(s, fd, ev, w, false);
    var o := AddEvent(s, fd, ev, w, false);
    forall fd': Fd, ev': Event | IsSet(o.s, fd', ev') && !(fd' == fd && ev' == ev)
      ensures IsSet(s, fd', ev') && o.s.fds[fd'].Slot(ev') == s.fds[fd'].Slot(ev')
      ensures o.s.waiting[(fd', ev')] == s.waiting[(fd', ev')]
    {
      assert (fd', ev') in s.waiting <==> IsSet(s, fd', ev');
    }
    assert IsSet(o.s, fd, ev) && (fd, ev) in o.s.waiting;
  }

  lemma DelKeepsInv(s: State, fd: Fd, ev: Event, fails: bool)
    requires Inv(s)
    ensures var o := DelEvent(s, fd, ev, fails);
            && o.Done? && Inv(o.s) && (Owned(s) ==> Owned(o.s)) && o.s.log == s.log
            && o.ok == (IsSet(s, fd, ev) && !fails) && (!o.ok ==> o.s == s)
            && (o.ok ==> && o.s.deleted == s.deleted + 1 && o.s.pending == s.pending - 1
                         && o.s.waiting == s.waiting - {(fd, ev)} && o.s.fds[fd].Slot(ev) == EMPTY
                         && forall fd', ev' ::
                             IsSet(o.s, fd', ev') <==> IsSet(s, fd', ev') && !(fd' == fd && ev' == ev))
  {
    DelAgrees(s, fd, ev, fails);
    if IsSet(s, fd, ev) {
      var c := s.fds[fd];
      TotalUpdate(s.fds, fd, c.(events := c.events - {ev}).WithSlot(ev, EMPTY));
      var s' := DelEvent(s, fd, ev, fails).s;
      forall fd': Fd, ev': Event | IsSet(s', fd', ev')
        ensures IsSet(s, fd', ev') && s'.fds[fd'].Slot(ev') == s.fds[fd'].Slot(ev')
      {
      }
    }
  }

  /** Triggering an event that is set: one registration less pending, one task more scheduled. */
  lemma TriggerKeepsBooks(s: State, fd: Fd, ev: Event)
    requires Ledger(s) && Filled(s) && IsSet(s, fd, ev)
    ensures var t := Trigger(s, fd, ev);
            && t.Some? && Ledger(t.value) && Filled(t.value)
            && t.value.log == s.log + s.fds[fd].Slot(ev).Tasks()
            && (Owned(s) ==> Owned(t.value) && t.value.log == s.log + [s.waiting[(fd, ev)]])
            && (forall fd', ev' :: IsSet(t.value, fd', ev') <==> IsSet(s, fd', ev') && !(fd' == fd && ev' == ev))
  {
    var c := s.fds[fd];
    TotalUpdate(s.fds, fd, c.(events := c.events - {ev}));
    var t := Trigger(s, fd, ev).value;
    assert forall fd', ev' :: IsSet(t, fd', ev') <==> IsSet(s, fd', ev') && !(fd' == fd && ev' == ev);
  }

  /** Who waits for these events of an fd, reading before writing. */
  ghost function Waiters(s: State, fd: Fd, evs: set<Event>): seq<Task> {
    (if Read in evs && (fd, Read) in s.waiting then [s.waiting[(fd, Read)]] else [])
    + (if Write in evs && (fd, Write) in s.waiting then [s.waiting[(fd, Write)]] else [])
  }

  /** Triggering these events has cleared them, freed the slots of their waiters and no others, and
      scheduled one task for each: the waiters themselves, when the slots are theirs. */
  ghost predicate Released(s: State, fd: Fd, evs: set<Event>, s': State) {
    && fd < |s.fds| == |s'.fds| && s'.fds[fd].events == s.fds[fd].events - evs
    && (forall slot :: slot in s'.waiting <==> slot in s.waiting && !(slot.0 == fd && slot.1 in evs))
    && (forall slot | slot in s'.waiting :: s'.waiting[slot] == s.waiting[slot])
    && s.log <= s'.log && |s'.log| == |s.log| + Bits(evs)
    && (Owned(s) ==> s'.log == s.log + Waiters(s, fd, evs))
  }

  lemma TriggerReleasesOne(s: State, fd: Fd, ev: Event)
    requires Filled(s) && IsSet(s, fd, ev)
    ensures var t := Trigger(s, fd, ev); t.Some? && Released(s, fd, {ev}, t.value)
  {
    var t := Trigger(s, fd, ev).value;
    assert (fd, ev) in s.waiting;
    assert s.fds[fd].Slot(ev).scheduler && |s.fds[fd].Slot(ev).Tasks()| == 1;
    assert Bits({ev}) == 1;
  }

  lemma ReleasedBoth(s: State, fd: Fd, s1: State, s2: State)
    requires Released(s, fd, {Read}, s1) && Released(s1, fd, {Write}, s2)
    requires Owned(s) ==> Owned(s1)
    ensures Released(s, fd, {Read, Write}, s2)
  {
    assert Bits({Read, Write}) == Bits({Read}) + Bits({Write});
    assert (fd, Write) in s1.waiting <==> (fd, Write) in s.waiting;
    if Owned(s) {
      assert Waiters(s, fd, {Read, Write}) == Waiters(s, fd, {Read}) + Waiters(s1, fd, {Write});
    }
  }

  /** The kernel's set plays no part in who is released. */
  lemma ReleasedAside(s: State, kernel: map<Fd, set<Event>>, fd: Fd, evs: set<Event>, s': State)
    requires Released(s.(kernel := kernel), fd, evs, s')
    ensures Released(s, fd, evs, s')
  {
  }

  lemma EventSets(evs: set<Event>)
    ensures evs == {} || evs == {Read} || evs == {Write} || evs == {Read, Write}
  {
    forall e | e in evs
      ensures e in {Read, Write}
    {
      match e
      case Read =>
      case Write =>
    }
    if Read in evs && Write in evs {
      assert evs == {Read, Write};
    } else if Read in evs {
      assert evs == {Read};
    } else if Write in evs {
      assert evs == {Write};
    } else {
      assert evs == {};
    }
  }

  lemma TriggerAllKeepsBooks(s: State, fd: Fd, evs: set<Event>)
    requires fd < |s.fds| && Ledger(s) && Filled(s) && evs <= s.fds[fd].events
    ensures var t := TriggerAll(s, fd, evs);
            && t.Some? && Ledger(t.value) && Filled(t.value)
            && (Owned(s) ==> Owned(t.value))
            && (evs != {} ==> Released(s, fd, evs, t.value))
  {
    EventSets(evs);
    assert Read in evs ==> IsSet(s, fd, Read);
    hide Trigger, Ledger, Filled, Owned, Released;
    var s1 := s;
    if Read in evs {
      TriggerKeepsBooks(s, fd, Read);
      TriggerReleasesOne(s, fd, Read);
      s1 := Trigger(s, fd, Read).value;
    }
    if Write in evs {
      assert IsSet(s, fd, Write) && IsSet(s1, fd, Write);
      TriggerKeepsBooks(s1, fd, Write);
      TriggerReleasesOne(s1, fd, Write);
      if Read in evs {
        ReleasedBoth(s, fd, s1, Trigger(s1, fd, Write).value);
      }
    }
  }

  lemma CancelKeepsInv(s: State, fd: Fd, ev: Event, fails: bool)
    requires Inv(s)
    ensures var o := CancelEvent(s, fd, ev, fails);
            && o.Done? && Inv(o.s) && (Owned(s) ==> Owned(o.s))
            && o.ok == (IsSet(s, fd, ev) && !fails)
            && (if o.ok then Released(s, fd, {ev}, o.s) else o.s == s)
  {
    CancelAgrees(s, fd, ev, fails);
    if IsSet(s, fd, ev) {
      var c := s.fds[fd];
      assert Legal(s.kernel, LeaveOp(c.events - {ev}), fd);
      match EpollCtl(s.kernel, LeaveOp(c.events - {ev}), fd, c.events, fails)
      case None =>
      case Some(kernel) =>
        assert IsSet(s.(kernel := kernel), fd, ev);
        hide Trigger, Ledger, Filled, Owned, Released, KernelAgrees;
        TriggerKeepsBooks(s.(kernel := kernel), fd, ev);
        TriggerReleasesOne(s.(kernel := kernel), fd, ev);
        ReleasedAside(s, kernel, fd, {ev}, Trigger(s.(kernel := kernel), fd, ev).value);
    }
  }

  lemma CancelAllKeepsInv(s: State, fd: Fd, fails: bool)
    requires Inv(s)
    ensures var o := CancelAll(s, fd, fails);
            && o.Done? && Inv(o.s) && (Owned(s) ==> Owned(o.s))
            && o.ok == (fd < |s.fds| && s.fds[fd].events != {} && !fails)
            && (if o.ok then Released(s, fd, s.fds[fd].events, o.s) else o.s == s)
  {
    CancelAllAgrees(s, fd, fails);
    if fd < |s.fds| && s.fds[fd].events != {} && !fails {
      var kernel := s.kernel - {fd};
      var s1 := s.(kernel := kernel);
      assert fd in s.kernel && Ledger(s1) && Filled(s1) && (Owned(s) ==> Owned(s1));
      hide TriggerAll, Ledger, Filled, Owned, Released, KernelAgrees;
      TriggerAllKeepsBooks(s1, fd, s.fds[fd].events);
      ReleasedAside(s, kernel, fd, s.fds[fd].events, TriggerAll(s1, fd, s.fds[fd].events).value);
    }
  }

  /** Cancelling all events of an fd leaves none set. */
  lemma CancelAllClears(s: State, fd: Fd)
    requires Inv(s) && fd < |s.fds|
    ensures var o := CancelAll(s, fd, false);
            && o.Done? && fd < |o.s.fds| && o.s.fds[fd].events == {}
            && |o.s.log| == |s.log| + Bits(s.fds[fd].events)
  {
    CancelAllKeepsInv(s, fd, false);
  }

  /** A report of events that are all registered, or of none that is. */
  predicate Expected(s: State, rep: Report)
    requires rep.fd < |s.fds|
  {
    var c := s.fds[rep.fd];
    rep.Events() <= c.events || c.events * rep.Events() == {}
  }

  lemma DispatchKeepsInv(s: State, rep: Report, fails: bool)
    requires Inv(s) && rep.fd < |s.fds| && Expected(s, rep)
    ensures var o := Dispatch(s, rep, fails);
            && o.Done? && Inv(o.s) && (Owned(s) ==> Owned(o.s))
            && o.ok == (s.fds[rep.fd].events * rep.Events() != {} && !fails)
            && (if o.ok then Released(s, rep.fd, rep.Events(), o.s) else o.s == s)
  {
    DispatchAgrees(s, rep, fails);
    var c := s.fds[rep.fd];
    var (evs, left) := (rep.Events(), c.events - rep.Events());
    if c.events * evs != {} && !fails {
      assert Legal(s.kernel, LeaveOp(left), rep.fd) && evs != {};
      var kernel := EpollCtl(s.kernel, LeaveOp(left), rep.fd, left, fails).value;
      var s1 := s.(kernel := kernel);
      assert Ledger(s1) && Filled(s1) && (Owned(s) ==> Owned(s1));
      hide TriggerAll, Ledger, Filled, Owned, Released, KernelAgrees;
      TriggerAllKeepsBooks(s1, rep.fd, evs);
      ReleasedAside(s, kernel, rep.fd, evs, TriggerAll(s1, rep.fd, evs).value);
    }
  }

  /** One `epoll_wait` reports each fd once. */
  ghost predicate Distinct(reps: seq<Report>) {
    forall j, k | 0 <= j < k < |reps| :: reps[j].fd != reps[k].fd
  }

  ghost predicate AllExpected(s: State, reps: seq<Report>) {
    forall k | 0 <= k < |reps| :: reps[k].fd < |s.fds| && Expected(s, reps[k])
  }

  ghost predicate Reported(reps: seq<Report>, fails: seq<bool>, slot: (Fd, Event))
    requires |fails| == |reps|
  {
    exists k | 0 <= k < |reps| :: !fails[k] && reps[k].fd == slot.0 && slot.1 in reps[k].Events()
  }

  /** Who waits for the reported events, report by report. */
  ghost function AllWaiters(s: State, reps: seq<Report>, fails: seq<bool>): seq<Task>
    requires |fails| == |reps|
    decreases |reps|
  {
    if reps == [] then []
    else
      (if fails[0] then [] else Waiters(s, reps[0].fd, reps[0].Events())) + AllWaiters(s, reps[1..], fails[1..])
  }

  lemma {:induction false} SameWaiters(s: State, s': State, reps: seq<Report>, fails: seq<bool>)
    requires |fails| == |reps|
    requires forall k, e | 0 <= k < |reps| ::
               && ((reps[k].fd, e) in s.waiting <==> (reps[k].fd, e) in s'.waiting)
               && ((reps[k].fd, e) in s.waiting ==> s.waiting[(reps[k].fd, e)] == s'.waiting[(reps[k].fd, e)])
    ensures AllWaiters(s', reps, fails) == AllWaiters(s, reps, fails)
    decreases |reps|
  {
    if reps != [] {
      assert Waiters(s, reps[0].fd, reps[0].Events()) == Waiters(s', reps[0].fd, reps[0].Events());
      SameWaiters(s, s', reps[1..], fails[1..]);
    }
  }

  /** One report leaves every other fd as it was. */
  lemma DispatchAside(s: State, rep: Report, fails: bool, fd: Fd)
    requires Inv(s) && rep.fd < |s.fds| && Expected(s, rep) && fd < |s.fds| && fd != rep.fd
    ensures var o := Dispatch(s, rep, fails);
            && o.Done? && |o.s.fds| == |s.fds| && o.s.fds[fd].events == s.fds[fd].events
            && forall e :: && ((fd, e) in o.s.waiting <==> (fd, e) in s.waiting)
                           && ((fd, e) in s.waiting ==> o.s.waiting[(fd, e)] == s.waiting[(fd, e)])
  {
    DispatchKeepsInv(s, rep, fails);
    hide Dispatch;
    var s' := Dispatch(s, rep, fails).s;
    forall e: Event
      ensures (fd, e) in s'.waiting <==> (fd, e) in s.waiting
      ensures e in s'.fds[fd].events <==> e in s.fds[fd].events
    {
      assert (fd, e) in s'.waiting <==> IsSet(s', fd, e);
      assert (fd, e) in s.waiting <==> IsSet(s, fd, e);
    }
  }

  /** What is released by one report. */
  lemma DispatchWaiters(s: State, rep: Report, fails: bool)
    requires Inv(s) && Owned(s) && rep.fd < |s.fds| && Expected(s, rep)
    ensures var o := Dispatch(s, rep, fails);
            && o.Done? && Inv(o.s) && Owned(o.s) && |o.s.fds| == |s.fds|
            && o.s.log == s.log + (if fails then [] else Waiters(s, rep.fd, rep.Events()))
            && (forall slot :: slot in o.s.waiting <==>
                  slot in s.waiting && !(!fails && slot.0 == rep.fd && slot.1 in rep.Events()))
  {
    DispatchKeepsInv(s, rep, fails);
    hide Dispatch;
    if !Dispatch(s, rep, fails).ok && !fails {
      forall e | e in rep.Events()
        ensures (rep.fd, e) !in s.waiting
      {
        assert (rep.fd, e) in s.waiting <==> IsSet(s, rep.fd, e);
        assert e !in s.fds[rep.fd].events * rep.Events();
      }
    }
  }

  /** The whole dispatch loop: exactly the waiters of the reported events are scheduled, report by
      report and reading before writing, and nobody else is touched. */
  lemma {:induction false} DispatchEachReleases(s: State, reps: seq<Report>, fails: seq<bool>)
    requires Inv(s) && Owned(s) && |fails| == |reps| && Distinct(reps) && AllExpected(s, reps)
    ensures var o := DispatchEach(s, reps, fails);
            && o.Done? && Inv(o.s) && Owned(o.s) && o.s.log == s.log + AllWaiters(s, reps, fails)
            && forall slot :: slot in o.s.waiting <==> slot in s.waiting && !Reported(reps, fails, slot)
    decreases |reps|
  {
    hide Inv, Owned, Dispatch, Waiters, Expected, Reported, Distinct, AllExpected;
    ReportedSplit(reps, fails);
    if reps != [] {
      FrontExpected(s, reps);
      DispatchWaiters(s, reps[0], fails[0]);
      OthersExpected(s, reps, fails);
      DispatchEachReleases(Dispatch(s, reps[0], fails[0]).s, reps[1..], fails[1..]);
    }
  }

  lemma FrontExpected(s: State, reps: seq<Report>)
    requires AllExpected(s, reps) && reps != []
    ensures reps[0].fd < |s.fds| && Expected(s, reps[0])
    ensures forall k | 0 <= k < |reps| :: reps[k].fd < |s.fds|
  {
  }

  /** The first report changes nothing for the others. */
  lemma {:induction false} OthersExpected(s: State, reps: seq<Report>, fails: seq<bool>)
    requires Inv(s) && |fails| == |reps| && Distinct(reps) && AllExpected(s, reps) && reps != []
    ensures var o := Dispatch(s, reps[0], fails[0]);
            && o.Done? && Distinct(reps[1..]) && AllExpected(o.s, reps[1..])
            && AllWaiters(o.s, reps[1..], fails[1..]) == AllWaiters(s, reps[1..], fails[1..])
            && (forall k | 0 <= k < |reps[1..]| :: reps[1..][k].fd < |o.s.fds|)
  {
    hide Dispatch, Inv, AllWaiters;
    DispatchKeepsInv(s, reps[0], fails[0]);
    var s' := Dispatch(s, reps[0], fails[0]).s;
    forall k | 0 <= k < |reps[1..]|
      ensures reps[1..][k].fd < |s'.fds| && Expected(s', reps[1..][k])
      ensures forall e :: && ((reps[1..][k].fd, e) in s.waiting <==> (reps[1..][k].fd, e) in s'.waiting)
                          && ((reps[1..][k].fd, e) in s.waiting ==>
                                s.waiting[(reps[1..][k].fd, e)] == s'.waiting[(reps[1..][k].fd, e)])
    {
      assert reps[1..][k] == reps[k + 1];
      DispatchAside(s, reps[0], fails[0], reps[k + 1].fd);
    }
    SameWaiters(s, s', reps[1..], fails[1..]);
  }

  lemma ReportedSplit(reps: seq<Report>, fails: seq<bool>)
    requires |fails| == |reps|
    ensures reps == [] ==> forall slot :: !Reported(reps, fails, slot)
    ensures reps != [] ==> forall slot :: Reported(reps, fails, slot) <==>
              (!fails[0] && reps[0].fd == slot.0 && slot.1 in reps[0].Events()) || Reported(reps[1..], fails[1..], slot)
  {
    forall slot: (Fd, Event) | reps != []
      ensures Reported(reps, fails, slot) <==>
              (!fails[0] && reps[0].fd == slot.0 && slot.1 in reps[0].Events()) || Reported(reps[1..], fails[1..], slot)
    {
      if Reported(reps[1..], fails[1..], slot) {
        var k :| 0 <= k < |reps[1..]| && !fails[1..][k] && reps[1..][k].fd == slot.0 && slot.1 in reps[1..][k].Events();
        assert reps[k + 1] == reps[1..][k] && fails[k + 1] == fails[1..][k];
      }
      if Reported(reps, fails, slot) {
        var k :| 0 <= k < |reps| && !fails[k] && reps[k].fd == slot.0 && slot.1 in reps[k].Events();
        assert k > 0 ==> reps[1..][k - 1] == reps[k] && fails[1..][k - 1] == fails[k];
      }
    }
  }

  /** How the pending count and the bits part when a report is not masked. */
  lemma UnmaskedTriggers(s: State, fd: Fd, evs: set<Event>)
    requires fd < |s.fds|
    ensures var t := TriggerAll(s, fd, evs);
            t.Some? ==>
              && t.value.pending == s.pending - Bits(evs)
              && TotalBits(t.value.fds) == TotalBits(s.fds) - Bits(evs * s.fds[fd].events)
  {
    var s1 := s;
    if Read in evs && Trigger(s, fd, Read).Some? {
      var c := s.fds[fd];
      TotalUpdate(s.fds, fd, c.(events := c.events - {Read}));
      s1 := Trigger(s, fd, Read).value;
    }
    if Write in evs && Trigger(s1, fd, Write).Some? {
      var c := s1.fds[fd];
      TotalUpdate(s1.fds, fd, c.(events := c.events - {Write}));
    }
  }

  /** A dispatch that reaches the triggers ends without a null pointer and with the books in
      order exactly when every reported event is registered. An error report on an fd
      with one registered event is the case in which it is not. */
  lemma DispatchKeepsBooksIff(s: State, rep: Report)
    requires Inv(s) && rep.fd < |s.fds| && s.fds[rep.fd].events * rep.Events() != {}
    ensures var o := Dispatch(s, rep, false);
            o.Done? && Ledger(o.s) <==> rep.Events() <= s.fds[rep.fd].events
  {
    var evs, events := rep.Events(), s.fds[rep.fd].events;
    if evs <= events {
      DispatchKeepsInv(s, rep, false);
    } else {
      var left := events - evs;
      var kernel := EpollCtl(s.kernel, LeaveOp(left), rep.fd, left, false).value;
      UnmaskedTriggers(s.(kernel := kernel), rep.fd, evs);
    }
  }

  // ---- Runs ----

  datatype Op =
    | OAdd(fd: Fd, ev: Event, w: Task)
    | ODel(fd: Fd, ev: Event)
    | OCancel(fd: Fd, ev: Event)
    | OCancelAll(fd: Fd)
    | ODispatch(rep: Report)

  /** An operation, and whether `epoll_ctl` fails in it. */
  datatype Step = Step(op: Op, fails: bool)

  function Apply(s: State, st: Step): Outcome
    requires |s.fds| >= 1 && (st.op.ODispatch? ==> st.op.rep.fd < |s.fds|)
  {
    match st.op
    case OAdd(fd, ev, w) => AddEvent(s, fd, ev, w, st.fails)
    case ODel(fd, ev) => DelEvent(s, fd, ev, st.fails)
    case OCancel(fd, ev) => CancelEvent(s, fd, ev, st.fails)
    case OCancelAll(fd) => CancelAll(s, fd, st.fails)
    case ODispatch(rep) => Dispatch(s, rep, st.fails)
  }

  /** No pending registration is repeated and no report goes beyond the registrations. */
  ghost predicate Good(s: State, st: Step) {
    match st.op
    case OAdd(fd, ev, w) => !IsSet(s, fd, ev)
    case ODispatch(rep) => rep.fd < |s.fds| && Expected(s, rep)
    case _ => true
  }

  lemma ApplyKeepsInv(s: State, st: Step)
    requires Inv(s) && Good(s, st)
    ensures Apply(s, st).Done? && Inv(Apply(s, st).s)
  {
    match st.op {
      case OAdd(fd, ev, w) =>
        AddAgrees(s, fd, ev, w, st.fails);
        AddKeepsFilled(s, fd, ev, w, st.fails);
        if !st.fails {
          AddKeepsLedgerIff(s, fd, ev, w, st.fails);
        } else {
          var fds := Resized(s.fds, fd);
          assert fds == s.fds + fds[|s.fds|..];
          TotalResized(s.fds, fds[|s.fds|..]);
        }
      case ODel(fd, ev) => DelKeepsInv(s, fd, ev, st.fails);
      case OCancel(fd, ev) => CancelKeepsInv(s, fd, ev, st.fails);
      case OCancelAll(fd) => CancelAllKeepsInv(s, fd, st.fails);
      case ODispatch(rep) => DispatchKeepsInv(s, rep, st.fails);
    }
  }

  ghost predicate GoodRun(s: State, run: seq<Step>)
    requires Inv(s)
    decreases run
  {
    run == [] ||
    (Good(s, run[0]) && (ApplyKeepsInv(s, run[0]); GoodRun(Apply(s, run[0]).s, run[1..])))
  }

  ghost function After(s: State, run: seq<Step>): State
    requires Inv(s) && GoodRun(s, run)
    decreases run
  {
    if run == [] then s
    else
      ApplyKeepsInv(s, run[0]);
      After(Apply(s, run[0]).s, run[1..])
  }

  const INITIAL := State(seq(32, _ => FRESH), map[], 0, [], 0, 0, map[])

  lemma InitialInv()
    ensures Inv(INITIAL) && Owned(INITIAL)
  {
    TotalResized([], INITIAL.fds);
    assert [] + INITIAL.fds == INITIAL.fds;
  }

  /** Over every run: no null pointer, the kernel agrees, and each registration has been
      withdrawn, triggered, or is one of the events that are set. */
  lemma {:induction false} RunKeepsInv(s: State, run: seq<Step>)
    requires Inv(s) && GoodRun(s, run)
    ensures var s' := After(s, run);
            && Inv(s')
            && s'.added == s'.deleted + |s'.log| + TotalBits(s'.fds)
            && s'.pending >= 0
    decreases run
  {
    if run != [] {
      ApplyKeepsInv(s, run[0]);
      RunKeepsInv(Apply(s, run[0]).s, run[1..]);
    }
  }

  /** A callback on an fd's read event is triggered; then fiber 7 waits for the same event:
      when it comes, the callback runs again and the fiber is left waiting. */
  lemma StaleCallback()
    ensures var s1 := AddEvent(INITIAL, 5, Read, CallbackTask(1), false).s;
            var s2 := Dispatch(s1, Report(5, true, false, false), false).s;
            var s3 := AddEvent(s2, 5, Read, FiberTask(7), false).s;
            var s4 := Dispatch(s3, Report(5, true, false, false), false).s;
            s4.log == [CallbackTask(1), CallbackTask(1)] && s4.pending == 0 && s3.waiting[(5, Read)] == FiberTask(7)
  {
    var s1 := AddEvent(INITIAL, 5, Read, CallbackTask(1), false).s;
    assert s1.fds[5] == FdContext({Read}, Context(true, None, Some(1)), EMPTY) && s1.kernel == map[5 := {Read}];
    var s2 := Dispatch(s1, Report(5, true, false, false), false).s;
    assert s2.fds[5] == FdContext({}, Context(true, None, Some(1)), EMPTY) && s2.kernel == map[];
    var s3 := AddEvent(s2, 5, Read, FiberTask(7), false).s;
    assert s3.fds[5] == FdContext({Read}, Context(true, Some(7), Some(1)), EMPTY) && s3.kernel == map[5 := {Read}];
  }

  /** A fiber waits to read from fd 5, and the kernel reports an error on it: the dispatch triggers
      writing as well, for which nobody registered, and calls a null scheduler. */
  lemma ErrorReportCrashes()
    ensures var s := AddEvent(INITIAL, 5, Read, FiberTask(7), false).s;
            && Inv(s) && Report(5, false, false, true).Events() == {Read, Write}
            && s.fds[5].events == {Read} && Dispatch(s, Report(5, false, false, true), false) == Crash
  {
    InitialInv();
    var st := Step(OAdd(5, Read, FiberTask(7)), false);
    ApplyKeepsInv(INITIAL, st);
    var s := AddEvent(INITIAL, 5, Read, FiberTask(7), false).s;
    assert s.fds[5] == FdContext({Read}, Context(true, Some(7), None), EMPTY) && s.kernel == map[5 := {Read}];
  }
}
