/** The blocking calls as a protocol: a fiber that would block arms a timer, registers for its
    event, yields, and is resumed by readiness or by the timeout. Any number of fibers
    take part; each step is one atomic section of the source. */
module Hook {
  import opened Collections
  import opened IoSpec

  /** Where a blocking call is: about to register, or registered and to be resumed. */
  datatype Phase = Armed | Parked

  /** A blocking call in progress; `cancelled` is the flag in its `timer_info`. */
  datatype Wait = Wait(fd: Fd, ev: Event, phase: Phase, cancelled: bool)

  /** The slots, the scheduler's queue, the blocking calls by fiber, and the `cancelEvent` calls
      that timeouts are about to make. */
  datatype System = System(io: State, queue: seq<Task>, waits: map<Fiber, Wait>, due: multiset<(Fd, Event)>)

  datatype Action =
    /** The call fails with EAGAIN for the first time; the timer is armed. */
    | Block(f: Fiber, fd: Fd, ev: Event)
    /** `addEvent` for the current fiber, and the yield. */
    | Register(f: Fiber, fails: bool)
    /** The timer of this call fires: its callback, in some worker, sets the flag. */
    | Fire(f: Fiber)
    /** A callback that has found the flag clear sets it when that no longer matters, because another
        one has set it in between or the call has returned. It too goes on to cancel its event. */
    | Late(slot: (Fd, Event))
    /** A callback that has set the flag goes on to cancel the event it was given. */
    | Cancel(slot: (Fd, Event), fails: bool)
    /** A worker takes the fiber off the queue; without a timeout the call is made again and
        may block again. */
    | Resume(f: Fiber, at: nat, again: bool)
    /** Any other use of the slots, readiness dispatch among it. */
    | Other(st: Step)
    /** A worker takes a callback off the queue. */
    | Take(at: nat)

  /** The tasks that an operation on the slots has scheduled go to the end of the queue. */
  function Enqueued(s: System, io: State): seq<Task>
    requires |s.io.log| <= |io.log|
  {
    s.queue + io.log[|s.io.log|..]
  }

  type Waiting = map<(Fd, Event), Task>
  type Waits = map<Fiber, Wait>

  ghost predicate IsParked(waits: Waits, f: Fiber) {
    f in waits && waits[f].phase.Parked?
  }

  /** The fiber waits in the slot of its event. */
  ghost predicate InSlot(waiting: Waiting, waits: Waits, f: Fiber) {
    && IsParked(waits, f)
    && (waits[f].fd, waits[f].ev) in waiting
    && waiting[(waits[f].fd, waits[f].ev)] == FiberTask(f)
  }

  /** A fiber in a slot is parked for that very event, and a parked fiber is in its slot or
      in the queue, once; any other fiber is in neither. */
  ghost predicate Exclusive(waiting: Waiting, queue: seq<Task>, waits: Waits) {
    && (forall slot | slot in waiting && waiting[slot].FiberTask? ::
          var f := waiting[slot].fiber;
          IsParked(waits, f) && slot == (waits[f].fd, waits[f].ev))
    && (forall f: Fiber ::
          multiset(queue)[FiberTask(f)] == if IsParked(waits, f) && !InSlot(waiting, waits, f) then 1 else 0)
  }

  ghost predicate Inv(s: System) {
    && IoSpec.Inv(s.io) && Owned(s.io)
    && Exclusive(s.io.waiting, s.queue, s.waits)
  }

  // ---- The steps ----

  /** When a step can happen. Fibers register through the protocol only, on slots that are free
      and hold no callback from earlier use; nobody withdraws a fiber's registration
      with `delEvent`; reports stay within the registered events. */
  ghost predicate Enabled(s: System, a: Action) {
    match a
    case Block(f, fd, ev) => f !in s.waits
    case Register(f, _) =>
      && f in s.waits && s.waits[f].phase.Armed? && |s.io.fds| >= 1
      && !IsSet(s.io, s.waits[f].fd, s.waits[f].ev)
      && Resized(s.io.fds, s.waits[f].fd)[s.waits[f].fd].Slot(s.waits[f].ev).cb.None?
    case Fire(f) => f in s.waits
    case Late(_) => true
    case Cancel(slot, _) => slot in s.due
    case Resume(f, at, _) => IsParked(s.waits, f) && at < |s.queue| && s.queue[at] == FiberTask(f)
    case Other(st) =>
      && Good(s.io, st)
      && (st.op.OAdd? ==> st.op.w.CallbackTask?)
      && (st.op.ODel? ==> !exists f :: InSlot(s.io.waiting, s.waits, f) &&
                                  s.waits[f].fd == st.op.fd && s.waits[f].ev == st.op.ev)
    case Take(at) => at < |s.queue| && s.queue[at].CallbackTask?
  }

  /** The state after a step; None when a null pointer is used. */
  ghost function Apply(s: System, a: Action): Option<System>
    requires Enabled(s, a) && |s.io.fds| >= 1
  {
    match a
    case Block(f, fd, ev) => Some(s.(waits := s.waits[f := Wait(fd, ev, Armed, false)]))
    case Register(f, fails) =>
      var w := s.waits[f];
      (match AddEvent(s.io, w.fd, w.ev, FiberTask(f), fails)
       case Crash => None
       case Done(io, ok) =>
         Some(s.(io := io, waits := if ok then s.waits[f := w.(phase := Parked)] else s.waits - {f})))
    case Fire(f) =>
      var w := s.waits[f];
      if w.cancelled then Some(s)
      else Some(s.(waits := s.waits[f := w.(cancelled := true)], due := s.due + multiset{(w.fd, w.ev)}))
    case Late(slot) => Some(s.(due := s.due + multiset{slot}))
    case Cancel(slot, fails) =>
      (match CancelEvent(s.io, slot.0, slot.1, fails)
       case Crash => None
       case Done(io, _) =>
         if |s.io.log| <= |io.log| then
           Some(s.(io := io, queue := Enqueued(s, io), due := s.due - multiset{slot}))
         else None)
    case Resume(f, at, again) =>
      var w := s.waits[f];
      Some(s.(queue := Without(s.queue, at),
              waits := if w.cancelled || !again then s.waits - {f} else s.waits[f := w.(phase := Armed)]))
    case Other(st) =>
      (match IoSpec.Apply(s.io, st)
       case Crash => None
       case Done(io, _) =>
         if |s.io.log| <= |io.log| then Some(s.(io := io, queue := Enqueued(s, io))) else None)
    case Take(at) => Some(s.(queue := Without(s.queue, at)))
  }

  // ---- Leaving a slot is entering the queue ----

  lemma QueueAppend(queue: seq<Task>, t: Task)
    ensures multiset(queue + [t]) == multiset(queue)[t := multiset(queue)[t] + 1]
  {
  }

  /** A trigger takes the waiter of a slot to the queue. */
  lemma ReleaseOne(waiting: Waiting, queue: seq<Task>, waits: Waits, slot: (Fd, Event))
    requires Exclusive(waiting, queue, waits) && slot in waiting
    ensures Exclusive(waiting - {slot}, queue + [waiting[slot]], waits)
  {
    QueueAppend(queue, waiting[slot]);
    forall f: Fiber
      ensures InSlot(waiting - {slot}, waits, f) <==> InSlot(waiting, waits, f) && waiting[slot] != FiberTask(f)
    {
    }
  }

  /** Who is queued is who is parked and not in a slot. */
  lemma QueuedIff(waiting: Waiting, queue: seq<Task>, waits: Waits, f: Fiber)
    requires Exclusive(waiting, queue, waits)
    ensures FiberTask(f) in queue <==> IsParked(waits, f) && !InSlot(waiting, waits, f)
  {
    assert FiberTask(f) in queue <==> multiset(queue)[FiberTask(f)] > 0;
  }

  /** Released waiters go from their slots to the queue, all of them and nobody else. */
  lemma ReleaseMoves(io: State, fd: Fd, evs: set<Event>, io': State, queue: seq<Task>, waits: Waits)
    requires Filled(io) && Owned(io) && Released(io, fd, evs, io') && evs <= io.fds[fd].events
    requires Exclusive(io.waiting, queue, waits)
    ensures io.log <= io'.log && Exclusive(io'.waiting, queue + io'.log[|io.log|..], waits)
    ensures io'.log[|io.log|..] == Waiters(io, fd, evs)
  {
    EventSets(evs);
    assert forall e | e in evs :: IsSet(io, fd, e);
    var moved := Waiters(io, fd, evs);
    assert io'.log[|io.log|..] == moved;
    var waiting1, queue1 := io.waiting, queue;
    if Read in evs {
      ReleaseOne(io.waiting, queue, waits, (fd, Read));
      waiting1, queue1 := io.waiting - {(fd, Read)}, queue + [io.waiting[(fd, Read)]];
    }
    if Write in evs {
      ReleaseOne(waiting1, queue1, waits, (fd, Write));
      waiting1, queue1 := waiting1 - {(fd, Write)}, queue1 + [io.waiting[(fd, Write)]];
    }
    assert io'.waiting == waiting1 && queue + moved == queue1;
  }

  /** Nobody has been put into a slot. */
  ghost predicate Fewer(waiting: Waiting, waiting': Waiting) {
    forall slot | slot in waiting' :: slot in waiting && waiting'[slot] == waiting[slot]
  }

  lemma NothingMoves(io: State, queue: seq<Task>)
    ensures queue + io.log[|io.log|..] == queue
  {
  }

  // ---- What the steps do, and that they keep the invariant ----

  /** Registering parks the fiber in its slot, or gives the call up; it queues nobody. */
  lemma RegisterKeepsInv(s: System, f: Fiber, fails: bool)
    requires Inv(s) && Enabled(s, Register(f, fails))
    ensures var r := Apply(s, Register(f, fails));
            && r.Some? && Inv(r.value) && r.value.queue == s.queue
            && (if fails then r.value.waits == s.waits - {f} && r.value.io.waiting == s.io.waiting
                else InSlot(r.value.io.waiting, r.value.waits, f)
                     && r.value.waits == s.waits[f := s.waits[f].(phase := Parked)])
  {
    var w := s.waits[f];
    var st := Step(OAdd(w.fd, w.ev, FiberTask(f)), fails);
    IoSpec.ApplyKeepsInv(s.io, st);
    AddAgrees(s.io, w.fd, w.ev, FiberTask(f), fails);
    var s' := Apply(s, Register(f, fails)).value;
    if fails {
      AddFailureKeepsOwned(s.io, w.fd, w.ev, FiberTask(f));
      assert forall g: Fiber :: IsParked(s'.waits, g) <==> IsParked(s.waits, g);
    } else {
      AddKeepsOwnedIff(s.io, w.fd, w.ev, FiberTask(f));
      assert forall g: Fiber :: IsParked(s'.waits, g) <==> g == f || IsParked(s.waits, g);
      assert (w.fd, w.ev) !in s.io.waiting;
    }
  }

  lemma AddFailureKeepsOwned(io: State, fd: Fd, ev: Event, t: Task)
    requires IoSpec.Inv(io) && Owned(io)
    ensures var o := AddEvent(io, fd, ev, t, true);
            o.Done? && Owned(o.s) && o.s.waiting == io.waiting && o.s.log == io.log && !o.ok
  {
    var s' := AddEvent(io, fd, ev, t, true).s;
    assert forall fd', ev' :: IsSet(s', fd', ev') <==> IsSet(io, fd', ev');
  }

  /** The first timeout of a call sets its flag and makes one `cancelEvent` due; a later one does
      nothing. */
  lemma FireKeepsInv(s: System, f: Fiber)
    requires Inv(s) && Enabled(s, Fire(f))
    ensures var r := Apply(s, Fire(f));
            && r.Some? && Inv(r.value) && r.value.waits[f] == s.waits[f].(cancelled := true)
            && r.value.io == s.io && r.value.queue == s.queue
            && r.value.due == s.due + (if s.waits[f].cancelled then multiset{}
                                       else multiset{(s.waits[f].fd, s.waits[f].ev)})
  {
    if !s.waits[f].cancelled {
      SameWaits(s.io.waiting, s.queue, s.waits, Apply(s, Fire(f)).value.waits);
    } else {
      assert s.due + multiset{} == s.due;
    }
  }

  /** The flag plays no part in who waits for what. */
  lemma SameWaits(waiting: Waiting, queue: seq<Task>, waits: Waits, waits': Waits)
    requires Exclusive(waiting, queue, waits) && waits.Keys == waits'.Keys
    requires forall f | f in waits :: waits'[f] == waits[f].(cancelled := waits'[f].cancelled)
    ensures Exclusive(waiting, queue, waits')
  {
    assert forall f: Fiber :: IsParked(waits', f) <==> IsParked(waits, f);
    assert forall f: Fiber :: InSlot(waiting, waits', f) <==> InSlot(waiting, waits, f);
  }

  /** `cancelEvent` moves the waiter of an event that is set from its slot to the queue, unless the
      kernel fails; otherwise it does nothing. */
  lemma CancelReleases(io: State, fd: Fd, ev: Event, fails: bool, queue: seq<Task>, waits: Waits)
    requires IoSpec.Inv(io) && Owned(io) && Exclusive(io.waiting, queue, waits)
    ensures var o := CancelEvent(io, fd, ev, fails);
            && o.Done? && IoSpec.Inv(o.s) && Owned(o.s)
            && io.log <= o.s.log && Exclusive(o.s.waiting, queue + o.s.log[|io.log|..], waits)
            && (if IsSet(io, fd, ev) && !fails
                then o.s.log == io.log + Waiters(io, fd, {ev}) && (fd, ev) !in o.s.waiting
                else o.s == io)
            && (forall slot | slot in io.waiting :: slot in o.s.waiting <==> !(slot == (fd, ev) && !fails))
            && Fewer(io.waiting, o.s.waiting)
  {
    CancelKeepsInv(io, fd, ev, fails);
    NothingMoves(io, queue);
    if IsSet(io, fd, ev) && !fails {
      ReleaseMoves(io, fd, {ev}, CancelEvent(io, fd, ev, fails).s, queue, waits);
    }
  }

  /** `cancelAll` moves all waiters of an fd to the queue. */
  lemma CancelAllReleases(io: State, fd: Fd, fails: bool, queue: seq<Task>, waits: Waits)
    requires IoSpec.Inv(io) && Owned(io) && Exclusive(io.waiting, queue, waits)
    ensures var o := CancelAll(io, fd, fails);
            && o.Done? && IoSpec.Inv(o.s) && Owned(o.s)
            && io.log <= o.s.log && Exclusive(o.s.waiting, queue + o.s.log[|io.log|..], waits)
            && (forall slot | slot in io.waiting :: slot in o.s.waiting <==> !(slot.0 == fd && !fails))
            && Fewer(io.waiting, o.s.waiting)
  {
    CancelAllKeepsInv(io, fd, fails);
    NothingMoves(io, queue);
    forall slot | slot in io.waiting
      ensures IsSet(io, slot.0, slot.1)
    {
      assert (slot.0, slot.1) in io.waiting;
    }
    if CancelAll(io, fd, fails).ok {
      ReleaseMoves(io, fd, io.fds[fd].events, CancelAll(io, fd, fails).s, queue, waits);
    }
  }

  /** Readiness moves exactly the waiters of the reported events from their slots to the queue. */
  lemma DispatchReleases(io: State, rep: Report, fails: bool, queue: seq<Task>, waits: Waits)
    requires IoSpec.Inv(io) && Owned(io) && rep.fd < |io.fds| && Expected(io, rep)
    requires Exclusive(io.waiting, queue, waits)
    ensures var o := Dispatch(io, rep, fails);
            && o.Done? && IoSpec.Inv(o.s) && Owned(o.s)
            && io.log <= o.s.log && Exclusive(o.s.waiting, queue + o.s.log[|io.log|..], waits)
            && (forall slot | slot in io.waiting ::
                  slot in o.s.waiting <==> !(slot.0 == rep.fd && slot.1 in rep.Events() && !fails))
            && Fewer(io.waiting, o.s.waiting)
  {
    DispatchKeepsInv(io, rep, fails);
    NothingMoves(io, queue);
    forall slot | slot in io.waiting
      ensures IsSet(io, slot.0, slot.1)
    {
      assert (slot.0, slot.1) in io.waiting;
    }
    if Dispatch(io, rep, fails).ok {
      ReleaseMoves(io, rep.fd, rep.Events(), Dispatch(io, rep, fails).s, queue, waits);
    }
  }

  lemma CancelStepKeepsInv(s: System, slot: (Fd, Event), fails: bool)
    requires Inv(s) && Enabled(s, Cancel(slot, fails))
    ensures var r := Apply(s, Cancel(slot, fails));
            && r.Some? && Inv(r.value)
            && r.value.due == s.due - multiset{slot} && r.value.waits == s.waits && s.queue <= r.value.queue
  {
    CancelReleases(s.io, slot.0, slot.1, fails, s.queue, s.waits);
  }

  /** The resumed fiber leaves the queue, and its call returns, or is made again and may block
      again: it returns if the flag is set. */
  lemma ResumeKeepsInv(s: System, f: Fiber, at: nat, again: bool)
    requires Inv(s) && Enabled(s, Resume(f, at, again))
    ensures var s' := Apply(s, Resume(f, at, again)).value;
            && Inv(s') && s'.io == s.io && multiset(s'.queue) == multiset(s.queue) - multiset{FiberTask(f)}
            && FiberTask(f) !in s'.queue
            && (if s.waits[f].cancelled || !again then f !in s'.waits
                else f in s'.waits && s'.waits[f] == s.waits[f].(phase := Armed))
  {
    WithoutOne(s.queue, at);
    var s' := Apply(s, Resume(f, at, again)).value;
    assert multiset(s.queue)[FiberTask(f)] > 0 by {
      assert s.queue[at] in multiset(s.queue);
    }
    assert !InSlot(s.io.waiting, s.waits, f);
    assert forall g: Fiber :: IsParked(s'.waits, g) <==> g != f && IsParked(s.waits, g);
    QueuedIff(s'.io.waiting, s'.queue, s'.waits, f);
  }

  lemma OtherAddKeepsInv(s: System, st: Step)
    requires Inv(s) && Enabled(s, Other(st)) && st.op.OAdd?
    ensures var r := Apply(s, Other(st)); r.Some? && Inv(r.value)
  {
    IoSpec.ApplyKeepsInv(s.io, st);
    NothingMoves(s.io, s.queue);
    if st.fails {
      AddFailureKeepsOwned(s.io, st.op.fd, st.op.ev, st.op.w);
    } else {
      AddKeepsOwnedIff(s.io, st.op.fd, st.op.ev, st.op.w);
      assert (st.op.fd, st.op.ev) !in s.io.waiting;
    }
  }

  lemma OtherDelKeepsInv(s: System, st: Step)
    requires Inv(s) && Enabled(s, Other(st)) && st.op.ODel?
    ensures var r := Apply(s, Other(st)); r.Some? && Inv(r.value)
  {
    NothingMoves(s.io, s.queue);
    DelKeepsInv(s.io, st.op.fd, st.op.ev, st.fails);
  }

  lemma OtherKeepsInv(s: System, st: Step)
    requires Inv(s) && Enabled(s, Other(st))
    ensures var r := Apply(s, Other(st)); r.Some? && Inv(r.value)
  {
    match st.op {
      case OAdd(_, _, _) => OtherAddKeepsInv(s, st);
      case ODel(_, _) => OtherDelKeepsInv(s, st);
      case OCancel(fd, ev) =>
        hide CancelEvent, Exclusive;
        CancelReleases(s.io, fd, ev, st.fails, s.queue, s.waits);
      case OCancelAll(fd) =>
        hide CancelAll, Exclusive;
        CancelAllReleases(s.io, fd, st.fails, s.queue, s.waits);
      case ODispatch(rep) =>
        hide Dispatch, Exclusive;
        DispatchReleases(s.io, rep, st.fails, s.queue, s.waits);
    }
  }

  lemma ApplyKeepsInv(s: System, a: Action)
    requires Inv(s) && Enabled(s, a)
    ensures Apply(s, a).Some? && Inv(Apply(s, a).value)
  {
    assert |s.io.fds| >= 1;
    hide Apply, Inv, Enabled;
    match a {
      case Block(f, fd, ev) => BlockKeepsInv(s, f, fd, ev);
      case Register(f, fails) => RegisterKeepsInv(s, f, fails);
      case Fire(f) => FireKeepsInv(s, f);
      case Late(slot) => LateKeepsInv(s, slot);
      case Cancel(slot, fails) => CancelStepKeepsInv(s, slot, fails);
      case Resume(f, at, again) => ResumeKeepsInv(s, f, at, again);
      case Other(st) => OtherKeepsInv(s, st);
      case Take(at) => TakeKeepsInv(s, at);
    }
  }

  /** When a step can happen: a fiber that is not in a call may block, one that is about to wait may register
      for an event that nobody has set, on a slot without a callback; its timer may fire at any time of the
      call; and a fiber that is queued may be resumed. */
  lemma MayHappen(s: System, f: Fiber, fd: Fd, ev: Event, fails: bool, at: nat, again: bool)
    requires Inv(s)
    ensures Enabled(s, Block(f, fd, ev)) <==> f !in s.waits
    ensures Enabled(s, Register(f, fails)) <==>
            && f in s.waits && s.waits[f].phase == Armed
            && (var w := s.waits[f]; w.fd < |s.io.fds| ==>
                  w.ev !in s.io.fds[w.fd].events && s.io.fds[w.fd].Slot(w.ev).cb == None)
    ensures Enabled(s, Fire(f)) <==> f in s.waits
    ensures Enabled(s, Cancel((fd, ev), fails)) <==> (fd, ev) in s.due
    ensures Enabled(s, Resume(f, at, again)) <==> at < |s.queue| && s.queue[at] == FiberTask(f)
    ensures Enabled(s, Other(Step(ODel(fd, ev), fails))) <==>
            ((fd, ev) in s.io.waiting ==> s.io.waiting[(fd, ev)].CallbackTask?)
  {
    if at < |s.queue| {
      assert s.queue[at] in multiset(s.queue);
    }
    if (fd, ev) in s.io.waiting && s.io.waiting[(fd, ev)].FiberTask? {
      assert InSlot(s.io.waiting, s.waits, s.io.waiting[(fd, ev)].fiber);
    }
  }

  lemma BlockKeepsInv(s: System, f: Fiber, fd: Fd, ev: Event)
    requires Inv(s) && Enabled(s, Block(f, fd, ev))
    ensures var r := Apply(s, Block(f, fd, ev));
            && r.Some? && Inv(r.value)
            && r.value == s.(waits := s.waits[f := Wait(fd, ev, Armed, false)])
  {
    var waits := Apply(s, Block(f, fd, ev)).value.waits;
    assert forall g: Fiber :: IsParked(waits, g) <==> IsParked(s.waits, g);
  }

  lemma LateKeepsInv(s: System, slot: (Fd, Event))
    requires Inv(s)
    ensures Enabled(s, Late(slot))
    ensures var r := Apply(s, Late(slot));
            && r.Some? && Inv(r.value) && r.value.due == s.due + multiset{slot}
            && r.value.io == s.io && r.value.queue == s.queue && r.value.waits == s.waits
  {
  }

  lemma TakeKeepsInv(s: System, at: nat)
    requires Inv(s) && Enabled(s, Take(at))
    ensures var r := Apply(s, Take(at));
            && r.Some? && Inv(r.value) && r.value == s.(queue := r.value.queue)
            && multiset(r.value.queue) == multiset(s.queue) - multiset{s.queue[at]}
  {
    WithoutOne(s.queue, at);
  }

  /** The state after a step; there is one. */
  ghost function Next(s: System, a: Action): (s': System)
    requires Inv(s) && Enabled(s, a)
    ensures Apply(s, a) == Some(s') && Inv(s')
  {
    ApplyKeepsInv(s, a);
    Apply(s, a).value
  }

  // ---- Runs ----

  ghost predicate EnabledRun(s: System, run: seq<Action>)
    requires Inv(s)
    decreases run
  {
    run == [] ||
    (Enabled(s, run[0]) && (ApplyKeepsInv(s, run[0]); EnabledRun(Apply(s, run[0]).value, run[1..])))
  }

  ghost function After(s: System, run: seq<Action>): (s': System)
    requires Inv(s) && EnabledRun(s, run)
    ensures Inv(s')
    decreases run
  {
    if run == [] then s
    else
      ApplyKeepsInv(s, run[0]);
      After(Apply(s, run[0]).value, run[1..])
  }

  /** Nobody waits and nothing is registered. */
  const START := System(INITIAL, [], map[], multiset{})

  lemma StartInv()
    ensures Inv(START)
  {
    InitialInv();
  }

  /** In every run and at every moment of it: a fiber is queued at most once, and not while its
      event is still set for it; and one that is parked is not forgotten: its event is
      set for it, or it is queued. */
  lemma {:induction false} NeverTwiceNeverForgotten(run: seq<Action>, f: Fiber)
    requires (StartInv(); EnabledRun(START, run))
    ensures var s := (StartInv(); After(START, run));
            && multiset(s.queue)[FiberTask(f)] <= 1
            && !(FiberTask(f) in s.queue && InSlot(s.io.waiting, s.waits, f))
            && (FiberTask(f) in s.queue ==> IsParked(s.waits, f))
            && (IsParked(s.waits, f) ==> FiberTask(f) in s.queue || InSlot(s.io.waiting, s.waits, f))
            && (InSlot(s.io.waiting, s.waits, f) ==> IsSet(s.io, s.waits[f].fd, s.waits[f].ev))
  {
    StartInv();
    var s := After(START, run);
    QueuedIff(s.io.waiting, s.queue, s.waits, f);
  }

  // ---- Who wakes a fiber ----

  /** The fiber waits in the slot of its event. */
  ghost predicate Waiter(s: System, f: Fiber) {
    InSlot(s.io.waiting, s.waits, f)
  }

  ghost function SlotOf(s: System, f: Fiber): (Fd, Event)
    requires f in s.waits
  {
    (s.waits[f].fd, s.waits[f].ev)
  }

  /** The steps that clear an event: readiness, a timeout's or anybody's cancel. */
  predicate Frees(a: Action, slot: (Fd, Event)) {
    match a
    case Cancel(sl, fails) => sl == slot && !fails
    case Other(st) =>
      !st.fails &&
      (match st.op
       case OCancel(fd, ev) => (fd, ev) == slot
       case OCancelAll(fd) => fd == slot.0
       case ODispatch(rep) => rep.fd == slot.0 && slot.1 in rep.Events()
       case _ => false)
    case _ => false
  }

  /** The fiber's own steps. */
  predicate Moves(a: Action, f: Fiber) {
    (a.Resume? && a.f == f) || (a.Register? && a.f == f)
  }

  /** Only its timeout changes the flag of a call, and only its own steps its phase. */
  lemma StepKeepsWait(s: System, a: Action, f: Fiber)
    requires Inv(s) && Enabled(s, a) && f in s.waits && !Moves(a, f) && Apply(s, a).Some?
    ensures var s' := Apply(s, a).value;
            f in s'.waits && s'.waits[f] == s.waits[f].(cancelled := s.waits[f].cancelled || a == Fire(f))
  {
  }

  /** What the steps other than registrations and withdrawals do to the slots. */
  lemma SlotsFreed(s: System, a: Action)
    requires Inv(s) && Enabled(s, a) && Apply(s, a).Some?
    requires !a.Register? && !(a.Other? && (a.st.op.OAdd? || a.st.op.ODel?))
    ensures var s' := Apply(s, a).value;
            && Fewer(s.io.waiting, s'.io.waiting)
            && forall slot | slot in s.io.waiting :: slot in s'.io.waiting <==> !Frees(a, slot)
  {
    match a {
      case Cancel(slot, fails) =>
        hide CancelEvent, Exclusive;
        CancelReleases(s.io, slot.0, slot.1, fails, s.queue, s.waits);
      case Other(st) =>
        hide CancelEvent, CancelAll, Dispatch, Exclusive;
        match st.op {
          case OCancel(fd, ev) => CancelReleases(s.io, fd, ev, st.fails, s.queue, s.waits);
          case OCancelAll(fd) => CancelAllReleases(s.io, fd, st.fails, s.queue, s.waits);
          case ODispatch(rep) => DispatchReleases(s.io, rep, st.fails, s.queue, s.waits);
        }
      case _ =>
    }
  }

  /** A waiter leaves its slot exactly when a step frees the slot. */
  lemma StillWaitsIff(s: System, a: Action, f: Fiber)
    requires Inv(s) && Enabled(s, a) && Waiter(s, f) && Apply(s, a).Some?
    ensures !Moves(a, f)
    ensures Waiter(Apply(s, a).value, f) <==> !Frees(a, SlotOf(s, f))
  {
    assert IsSet(s.io, s.waits[f].fd, s.waits[f].ev);
    QueuedIff(s.io.waiting, s.queue, s.waits, f);
    StepKeepsWait(s, a, f);
    if !a.Register? && !(a.Other? && (a.st.op.OAdd? || a.st.op.ODel?)) {
      hide Apply;
      SlotsFreed(s, a);
    }
  }

  /** Only its own registration puts a fiber into a slot. */
  lemma NoNewWaiter(s: System, a: Action, f: Fiber)
    requires Inv(s) && Enabled(s, a) && Apply(s, a).Some? && !Moves(a, f)
    requires f in s.waits && Waiter(Apply(s, a).value, f)
    ensures Waiter(s, f)
  {
    StepKeepsWait(s, a, f);
    if !a.Register? && !(a.Other? && (a.st.op.OAdd? || a.st.op.ODel?)) {
      hide Apply;
      SlotsFreed(s, a);
    }
  }

  /** The step that wakes a waiting fiber: it is queued afterwards exactly when the step frees its
      slot. For readiness this says: its event is among those reported, and the kernel does not
      fail. */
  lemma WokenIff(s: System, a: Action, f: Fiber)
    requires Inv(s) && Enabled(s, a) && Waiter(s, f)
    ensures Apply(s, a).Some?
    ensures var s' := Apply(s, a).value;
            && (FiberTask(f) in s'.queue <==> Frees(a, SlotOf(s, f)))
            && (Waiter(s', f) <==> !Frees(a, SlotOf(s, f)))
            && f in s'.waits && SlotOf(s', f) == SlotOf(s, f)
  {
    ApplyKeepsInv(s, a);
    StillWaitsIff(s, a, f);
    StepKeepsWait(s, a, f);
    hide Apply, Enabled;
    var s' := Apply(s, a).value;
    QueuedIff(s'.io.waiting, s'.queue, s'.waits, f);
  }

  /** Readiness: the fiber is queued exactly when the report is about its fd and has the bit of its
      event, or an error or a hang-up, and the kernel agrees. */
  lemma ReadinessWakesIff(s: System, rep: Report, fails: bool, f: Fiber)
    requires Inv(s) && Waiter(s, f) && rep.fd < |s.io.fds| && Expected(s.io, rep)
    ensures Enabled(s, Other(Step(ODispatch(rep), fails)))
    ensures var r := Apply(s, Other(Step(ODispatch(rep), fails)));
            var w := s.waits[f];
            r.Some? && (FiberTask(f) in r.value.queue <==>
                          && rep.fd == w.fd && !fails
                          && ((if w.ev == Read then rep.input else rep.output) || rep.error))
  {
    WokenIff(s, Other(Step(ODispatch(rep), fails)), f);
  }

  /** Whoever clears the event first wins: once the fiber is on its way, neither readiness nor a
      timer changes that, until it is resumed. */
  lemma FirstOneWins(s: System, a: Action, f: Fiber)
    requires Inv(s) && Enabled(s, a) && IsParked(s.waits, f) && !Waiter(s, f)
    requires !(a.Resume? && a.f == f)
    ensures var r := Apply(s, a);
            && r.Some? && IsParked(r.value.waits, f) && !Waiter(r.value, f)
            && multiset(r.value.queue)[FiberTask(f)] == 1
  {
    ApplyKeepsInv(s, a);
    assert !Moves(a, f);
    StepKeepsWait(s, a, f);
    if Waiter(Apply(s, a).value, f) {
      NoNewWaiter(s, a, f);
    }
  }

  /** The same over a run: a fiber on its way stays queued until it is resumed. */
  lemma {:induction false} StaysQueued(s: System, run: seq<Action>, f: Fiber)
    requires Inv(s) && EnabledRun(s, run) && IsParked(s.waits, f) && !Waiter(s, f)
    requires forall a | a in run :: !(a.Resume? && a.f == f)
    ensures FiberTask(f) in After(s, run).queue
    decreases run
  {
    if run == [] {
      QueuedIff(s.io.waiting, s.queue, s.waits, f);
    } else {
      ApplyKeepsInv(s, run[0]);
      FirstOneWins(s, run[0], f);
      hide Apply, Enabled;
      StaysQueued(Apply(s, run[0]).value, run[1..], f);
    }
  }

  /** Over every run in which a waiting fiber is not resumed, it is queued at the end exactly when
      some step has freed its slot. */
  lemma {:induction false} WokenIffFreed(s: System, run: seq<Action>, f: Fiber)
    requires Inv(s) && EnabledRun(s, run) && Waiter(s, f)
    requires forall a | a in run :: !(a.Resume? && a.f == f)
    ensures FiberTask(f) in After(s, run).queue <==> exists a | a in run :: Frees(a, SlotOf(s, f))
    decreases run
  {
    if run == [] {
      QueuedIff(s.io.waiting, s.queue, s.waits, f);
    } else {
      ApplyKeepsInv(s, run[0]);
      WokenIff(s, run[0], f);
      hide Apply, Enabled, Frees;
      var s1 := Apply(s, run[0]).value;
      assert forall a :: a in run <==> a == run[0] || a in run[1..];
      if Frees(run[0], SlotOf(s, f)) {
        QueuedIff(s1.io.waiting, s1.queue, s1.waits, f);
        StaysQueued(s1, run[1..], f);
      } else {
        WokenIffFreed(s1, run[1..], f);
      }
    }
  }

  // ---- The timeout ----

  /** A timeout as a whole: the timer fires, and if that sets the flag the event is cancelled. */
  ghost function Timeout(s: System, f: Fiber, fails: bool): (s': System)
    requires Inv(s) && f in s.waits
    ensures Inv(s')
  {
    ApplyKeepsInv(s, Fire(f));
    var s1 := Apply(s, Fire(f)).value;
    if s.waits[f].cancelled then s1
    else
      ApplyKeepsInv(s1, Cancel(SlotOf(s, f), fails));
      Apply(s1, Cancel(SlotOf(s, f), fails)).value
  }

  /** A timeout releases a waiting fiber exactly when it is the first one of the call to set the
      flag and the kernel does not fail. */
  lemma TimeoutWakesIff(s: System, f: Fiber, fails: bool)
    requires Inv(s) && Waiter(s, f)
    ensures FiberTask(f) in Timeout(s, f, fails).queue <==> !s.waits[f].cancelled && !fails
  {
    ApplyKeepsInv(s, Fire(f));
    WokenIff(s, Fire(f), f);
    var s1 := Apply(s, Fire(f)).value;
    if !s.waits[f].cancelled {
      assert SlotOf(s, f) in s1.due;
      WokenIff(s1, Cancel(SlotOf(s, f), fails), f);
    }
  }

  /** The flag of a call is set exactly when its timer has fired. */
  lemma {:induction false} FlagIffFired(s: System, run: seq<Action>, f: Fiber)
    requires Inv(s) && EnabledRun(s, run) && f in s.waits
    requires forall a | a in run :: !Moves(a, f)
    ensures f in After(s, run).waits
    ensures After(s, run).waits[f] == s.waits[f].(cancelled := s.waits[f].cancelled || Fire(f) in run)
    decreases run
  {
    if run != [] {
      ApplyKeepsInv(s, run[0]);
      StepKeepsWait(s, run[0], f);
      hide Apply, Enabled;
      FlagIffFired(Apply(s, run[0]).value, run[1..], f);
      assert Fire(f) in run <==> Fire(f) == run[0] || Fire(f) in run[1..];
    }
  }

  /** The timeout of a call over its whole life: from its start, through its registration, to any
      moment at which it still waits. It releases the fiber exactly when none has fired before, in
      particular none before the registration, and the kernel does not fail. */
  lemma {:induction false} TimeoutOfACall(s: System, before: seq<Action>, after: seq<Action>, f: Fiber, fails: bool)
    requires Inv(s) && f in s.waits && s.waits[f].phase.Armed? && !s.waits[f].cancelled
    requires EnabledRun(s, before) && Enabled(After(s, before), Register(f, false))
    requires EnabledRun(Next(After(s, before), Register(f, false)), after)
    requires (forall a | a in before :: !Moves(a, f)) && (forall a | a in after :: !Moves(a, f))
    requires Waiter(After(Next(After(s, before), Register(f, false)), after), f)
    ensures var s' := After(Next(After(s, before), Register(f, false)), after);
            FiberTask(f) in Timeout(s', f, fails).queue <==> Fire(f) !in before + after && !fails
  {
    FlagIffFired(s, before, f);
    var s1 := After(s, before);
    RegisterKeepsInv(s1, f, false);
    hide Apply, Enabled;
    var s2 := Next(s1, Register(f, false));
    FlagIffFired(s2, after, f);
    TimeoutWakesIff(After(s2, after), f, fails);
  }

  /** A timeout that comes to its end between arming and registering is spent: the flag is set, the
      fiber then parks, and no later timer of the call wakes it. Only its event can. */
  lemma EarlyTimeoutIsLost(s: System, f: Fiber, fails: bool, late: bool)
    requires Inv(s) && f in s.waits && s.waits[f].phase.Armed? && !s.waits[f].cancelled
    requires Enabled(s, Register(f, false))
    ensures var s1 := Timeout(s, f, fails);
            && s1 == s.(waits := s.waits[f := s.waits[f].(cancelled := true)])
            && Enabled(s1, Register(f, false))
            && (var r := Apply(s1, Register(f, false));
                r.Some? && Inv(r.value) && Waiter(r.value, f) && Timeout(r.value, f, late) == r.value)
  {
    var w := s.waits[f];
    assert CancelEvent(s.io, w.fd, w.ev, fails) == Done(s.io, false);
    var s0 := Apply(s, Fire(f)).value;
    NothingMoves(s.io, s.queue);
    assert s0.due - multiset{(w.fd, w.ev)} == s.due;
    var s1 := Timeout(s, f, fails);
    RegisterKeepsInv(s1, f, false);
  }

  /** If it fires early but comes to cancel the event only after the registration, it does wake the
      fiber. */
  lemma {:induction false} LateCancelWakes(s: System, f: Fiber)
    requires Inv(s) && f in s.waits && s.waits[f].phase.Armed? && !s.waits[f].cancelled
    requires Enabled(s, Register(f, false))
    ensures var run := [Fire(f)] + ([Register(f, false)] + ([Cancel(SlotOf(s, f), false)] + []));
            EnabledRun(s, run) && FiberTask(f) in After(s, run).queue
  {
    FireKeepsInv(s, f);
    var s1 := Next(s, Fire(f));
    RegisterKeepsInv(s1, f, false);
    var s2 := Next(s1, Register(f, false));
    var c := Cancel(SlotOf(s, f), false);
    WokenIff(s2, c, f);
    hide Apply, Enabled, EnabledRun, After;
    NoMore(Next(s2, c));
    OneMore(s2, c, []);
    OneMore(s1, Register(f, false), [c] + []);
    OneMore(s, Fire(f), [Register(f, false)] + ([c] + []));
  }

  /** A report of the event that a fiber waits for is one that can come. */
  lemma ReportFits(s: System, f: Fiber, rep: Report)
    requires Inv(s) && Waiter(s, f)
    requires rep == Report(s.waits[f].fd, s.waits[f].ev == Read, s.waits[f].ev == Write, false)
    ensures rep.fd < |s.io.fds| && Expected(s.io, rep)
  {
    assert (s.waits[f].fd, s.waits[f].ev) in s.io.waiting;
    assert IsSet(s.io, s.waits[f].fd, s.waits[f].ev);
    assert rep.Events() == {s.waits[f].ev};
  }

  lemma CallRegisters(f: Fiber, fd: Fd, ev: Event)
    ensures Inv(START) && Enabled(START, Block(f, fd, ev))
    ensures var s := Next(START, Block(f, fd, ev));
            && Enabled(s, Register(f, false))
            && var s' := Next(s, Register(f, false)); Waiter(s', f) && SlotOf(s', f) == (fd, ev)
  {
    StartInv();
    BlockKeepsInv(START, f, fd, ev);
    RegisterKeepsInv(Next(START, Block(f, fd, ev)), f, false);
  }

  lemma CallIsReported(s: System, f: Fiber) returns (ready: Action)
    requires Inv(s) && Waiter(s, f)
    ensures Enabled(s, ready) && IsParked(Next(s, ready).waits, f) && FiberTask(f) in Next(s, ready).queue
  {
    hide Apply;
    var rep := Report(s.waits[f].fd, s.waits[f].ev == Read, s.waits[f].ev == Write, false);
    ready := Other(IoSpec.Step(ODispatch(rep), false));
    ReportFits(s, f, rep);
    ReadinessWakesIff(s, rep, false, f);
    WokenIff(s, ready, f);
    var s' := Next(s, ready);
    QueuedIff(s'.io.waiting, s'.queue, s'.waits, f);
  }

  lemma CallReturns(s: System, f: Fiber) returns (back: Action)
    requires Inv(s) && IsParked(s.waits, f) && FiberTask(f) in s.queue
    ensures Enabled(s, back) && f !in Next(s, back).waits && FiberTask(f) !in Next(s, back).queue
  {
    var at :| 0 <= at < |s.queue| && s.queue[at] == FiberTask(f);
    back := Resume(f, at, false);
    ResumeKeepsInv(s, f, at, false);
  }

  /** A whole call, from a system in which nobody waits: it blocks, registers, its event is reported, and
      it returns. */
  lemma {:induction false} ACallCompletes(f: Fiber, fd: Fd, ev: Event) returns (run: seq<Action>)
    ensures Inv(START) && EnabledRun(START, run) && |run| == 4
    ensures run[0] == Block(f, fd, ev) && run[1] == Register(f, false)
    ensures var s := After(START, run); f !in s.waits && FiberTask(f) !in s.queue
  {
    hide EnabledRun, After, Enabled, Apply, Inv, Waiter, IsParked;
    CallRegisters(f, fd, ev);
    var s1 := Next(START, Block(f, fd, ev));
    var s2 := Next(s1, Register(f, false));
    var ready := CallIsReported(s2, f);
    var s3 := Next(s2, ready);
    var back := CallReturns(s3, f);
    NoMore(Next(s3, back));
    OneMore(s3, back, []);
    OneMore(s2, ready, [back] + []);
    OneMore(s1, Register(f, false), [ready] + ([back] + []));
    run := [Block(f, fd, ev)] + ([Register(f, false)] + ([ready] + ([back] + [])));
    OneMore(START, Block(f, fd, ev), [Register(f, false)] + ([ready] + ([back] + [])));
  }

  lemma {:induction false} NoMore(s: System)
    requires Inv(s)
    ensures EnabledRun(s, []) && After(s, []) == s
  {
  }

  lemma {:induction false} OneMore(s: System, a: Action, rest: seq<Action>)
    requires Inv(s) && Enabled(s, a) && EnabledRun(Next(s, a), rest)
    ensures EnabledRun(s, [a] + rest) && After(s, [a] + rest) == After(Next(s, a), rest)
  {
    assert ([a] + rest)[1..] == rest;
  }
}
