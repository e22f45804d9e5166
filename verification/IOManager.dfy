/** The event slots as objects that the manager updates in place. Every method is proved to
    compute the function of the same name in IoSpec.dfy on the state that the objects
    represent; `epoll` and `scheduled` stand for the kernel and for the scheduler's queue. */
module IOManagers {
  import opened Collections
  import opened IoSpec

  /** The context of one fd. */
  class FdContextObject {
    var m_events: set<Event>
    var read: Context
    var write: Context

    constructor ()
      ensures Is(FRESH)
    {
      m_events, read, write := {}, EMPTY, EMPTY;
    }

    ghost predicate Is(c: FdContext)
      reads this
    {
      c == FdContext(m_events, read, write)
    }

    method GetContext(ev: Event) returns (c: Context)
      ensures c == FdContext(m_events, read, write).Slot(ev)
    {
      c := if ev == Read then read else write;
    }

    method SetContext(ev: Event, c: Context)
      modifies this
      ensures Is(old(FdContext(m_events, read, write)).WithSlot(ev, c))
    {
      if ev == Read {
        read := c;
      } else {
        write := c;
      }
    }
  }

  class IOManager {
    var m_fdContexts: seq<FdContextObject>
    var m_pendingEventCount: int
    var epoll: map<Fd, set<Event>>
    var scheduled: seq<Task>
    /** The state that the objects represent. */
    ghost var model: State

    ghost predicate Valid()
      reads this, m_fdContexts
    {
      && |model.fds| == |m_fdContexts| >= 1
      && (forall k | 0 <= k < |m_fdContexts| :: m_fdContexts[k].Is(model.fds[k]))
      && (forall k, l | 0 <= k < l < |m_fdContexts| :: m_fdContexts[k] != m_fdContexts[l])
      && model.kernel == epoll && model.pending == m_pendingEventCount && model.log == scheduled
    }

    constructor ()
      ensures Valid() && fresh(m_fdContexts) && model == INITIAL
    {
      m_fdContexts, m_pendingEventCount, epoll, scheduled := [], 0, map[], [];
      model := INITIAL.(fds := []);
      new;
      Extend(32);
    }

    /** The loop of `contextResize` that fills the new places. */
    method Extend(size: nat)
      requires |model.fds| == |m_fdContexts| <= size && 1 <= size
      requires forall k | 0 <= k < |m_fdContexts| :: m_fdContexts[k].Is(model.fds[k])
      requires forall k, l | 0 <= k < l < |m_fdContexts| :: m_fdContexts[k] != m_fdContexts[l]
      requires model.kernel == epoll && model.pending == m_pendingEventCount && model.log == scheduled
      modifies `m_fdContexts, `model
      ensures Valid() && fresh(set c | c in m_fdContexts && c !in old(m_fdContexts))
      ensures old(m_fdContexts) <= m_fdContexts
      ensures model == old(model).(fds := old(model).fds + seq(size - |old(model).fds|, _ => FRESH))
    {
      while |m_fdContexts| < size
        invariant |model.fds| == |m_fdContexts| <= size && old(m_fdContexts) <= m_fdContexts
        invariant forall k | 0 <= k < |m_fdContexts| :: m_fdContexts[k].Is(model.fds[k])
        invariant forall k, l | 0 <= k < l < |m_fdContexts| :: m_fdContexts[k] != m_fdContexts[l]
        invariant forall k | |old(m_fdContexts)| <= k < |m_fdContexts| :: fresh(m_fdContexts[k])
        invariant model == old(model).(fds := old(model).fds + seq(|m_fdContexts| - |old(model).fds|, _ => FRESH))
      {
        var c := new FdContextObject();
        m_fdContexts := m_fdContexts + [c];
        model := model.(fds := model.fds + [FRESH]);
      }
    }

    /** `epoll_ctl`; zero is success. */
    method EpollControl(op: CtlOp, fd: Fd, mask: set<Event>, fails: bool) returns (rt: int)
      requires Valid()
      modifies `epoll, `model
      ensures Valid()
      ensures match EpollCtl(old(epoll), op, fd, mask, fails)
              case None => rt != 0 && model == old(model)
              case Some(kernel) => rt == 0 && model == old(model).(kernel := kernel)
    {
      if fails || !Legal(epoll, op, fd) {
        return -1;
      }
      epoll := if op.CtlDel? then epoll - {fd} else epoll[fd := mask];
      model := model.(kernel := epoll);
      rt := 0;
    }

    method AddEvent(fd: Fd, ev: Event, w: Task, fails: bool) returns (rt: int)
      requires Valid()
      modifies this, m_fdContexts
      ensures Valid() && rt in {0, -1}
      ensures IoSpec.AddEvent(old(model), fd, ev, w, fails) == Done(model, rt == 0)
    {
      hide IoSpec.Registered, IoSpec.EpollCtl;
      if |m_fdContexts| <= fd {
        Extend(fd * 2);
      }
      var fd_ctx := m_fdContexts[fd];
      var op := if fd_ctx.m_events != {} then CtlMod else CtlAdd;
      rt := EpollControl(op, fd, fd_ctx.m_events + {ev}, fails);
      if rt != 0 {
        return -1;
      }
      CountAdded(fd, ev, w);
      var c := fd_ctx.GetContext(ev);
      Store(fd_ctx, fd, fd_ctx.m_events + {ev}, ev, Registered(c, w));
    }

    method CountAdded(fd: Fd, ev: Event, ghost w: Task)
      requires Valid()
      modifies `m_pendingEventCount, `model
      ensures Valid()
      ensures model == old(model).(pending := old(model).pending + 1, added := old(model).added + 1,
                                   waiting := old(model).waiting[(fd, ev) := w])
    {
      m_pendingEventCount := m_pendingEventCount + 1;
      model := model.(pending := model.pending + 1, added := model.added + 1,
                      waiting := model.waiting[(fd, ev) := w]);
    }

    /** Assigns the events and one slot of a context. */
    method Store(fd_ctx: FdContextObject, fd: Fd, events: set<Event>, ev: Event, c: Context)
      requires Valid() && fd < |m_fdContexts| && fd_ctx == m_fdContexts[fd]
      modifies `model, fd_ctx
      ensures Valid()
      ensures model == old(model).(fds := old(model).fds[fd := old(model).fds[fd].(events := events).WithSlot(ev, c)])
    {
      fd_ctx.m_events := events;
      fd_ctx.SetContext(ev, c);
      model := model.(fds := model.fds[fd := model.fds[fd].(events := events).WithSlot(ev, c)]);
    }

    method DelEvent(fd: Fd, ev: Event, fails: bool) returns (ok: bool)
      requires Valid()
      modifies this, m_fdContexts
      ensures Valid() && IoSpec.DelEvent(old(model), fd, ev, fails) == Done(model, ok)
    {
      if |m_fdContexts| <= fd || ev !in m_fdContexts[fd].m_events {
        return false;
      }
      var fd_ctx := m_fdContexts[fd];
      var new_events := fd_ctx.m_events - {ev};
      var rt := EpollControl(if new_events != {} then CtlMod else CtlDel, fd, new_events, fails);
      if rt != 0 {
        return false;
      }
      m_pendingEventCount := m_pendingEventCount - 1;
      model := model.(pending := model.pending - 1, deleted := model.deleted + 1,
                      waiting := model.waiting - {(fd, ev)});
      Store(fd_ctx, fd, new_events, ev, EMPTY);
      ok := true;
    }

    /** `triggerEvent` and the decrement that follows it; false when the scheduler is null. */
    method TriggerEvent(fd: Fd, ev: Event) returns (alive: bool)
      requires Valid() && fd < |m_fdContexts|
      modifies `m_pendingEventCount, `scheduled, `model, m_fdContexts[fd]
      ensures alive ==> Valid()
      ensures Trigger(old(model), fd, ev) == if alive then Some(model) else None
    {
      var fd_ctx := m_fdContexts[fd];
      fd_ctx.m_events := fd_ctx.m_events - {ev};
      var c := fd_ctx.GetContext(ev);
      if !c.scheduler {
        return false;
      }
      if c.cb.Some? {
        scheduled := scheduled + [CallbackTask(c.cb.value)];
      } else if c.fiber.Some? {
        scheduled := scheduled + [FiberTask(c.fiber.value)];
      }
      assert scheduled == old(scheduled) + c.Tasks();
      m_pendingEventCount := m_pendingEventCount - 1;
      ghost var before := model.fds[fd];
      model := model.(fds := model.fds[fd := before.(events := before.events - {ev})], pending := model.pending - 1,
                      log := scheduled, waiting := model.waiting - {(fd, ev)});
      alive := true;
    }

    method CancelEvent(fd: Fd, ev: Event, fails: bool) returns (ok: bool, alive: bool)
      requires Valid()
      modifies this, m_fdContexts
      ensures alive ==> Valid()
      ensures IoSpec.CancelEvent(old(model), fd, ev, fails) == if alive then Done(model, ok) else Crash
    {
      if |m_fdContexts| <= fd || ev !in m_fdContexts[fd].m_events {
        return false, true;
      }
      var fd_ctx := m_fdContexts[fd];
      var new_events := fd_ctx.m_events - {ev};
      var rt := EpollControl(if new_events != {} then CtlMod else CtlDel, fd, fd_ctx.m_events, fails);
      if rt != 0 {
        return false, true;
      }
      alive := TriggerEvent(fd, ev);
      ok := true;
    }

    /** Triggers the events of `evs`, reading first. */
    method TriggerBoth(fd: Fd, evs: set<Event>) returns (alive: bool)
      requires Valid() && fd < |m_fdContexts|
      modifies `m_pendingEventCount, `scheduled, `model, m_fdContexts[fd]
      ensures alive ==> Valid()
      ensures TriggerAll(old(model), fd, evs) == if alive then Some(model) else None
    {
      alive := true;
      if Read in evs {
        alive := TriggerEvent(fd, Read);
      }
      if alive && Write in evs {
        alive := TriggerEvent(fd, Write);
      }
    }

    method CancelAll(fd: Fd, fails: bool) returns (ok: bool, alive: bool)
      requires Valid()
      modifies this, m_fdContexts
      ensures alive ==> Valid()
      ensures IoSpec.CancelAll(old(model), fd, fails) == if alive then Done(model, ok) else Crash
    {
      if |m_fdContexts| <= fd || m_fdContexts[fd].m_events == {} {
        return false, true;
      }
      var rt := EpollControl(CtlDel, fd, {}, fails);
      if rt != 0 {
        return false, true;
      }
      alive := TriggerBoth(fd, m_fdContexts[fd].m_events);
      ok := true;
    }

    /** One round of the dispatch loop of `idle`. */
    method DispatchOne(rep: Report, fails: bool) returns (ok: bool, alive: bool)
      requires Valid() && rep.fd < |m_fdContexts|
      modifies this, m_fdContexts
      ensures alive ==> Valid() && m_fdContexts == old(m_fdContexts)
      ensures IoSpec.Dispatch(old(model), rep, fails) == if alive then Done(model, ok) else Crash
    {
      var fd_ctx := m_fdContexts[rep.fd];
      var got := rep.Events();
      if fd_ctx.m_events * got == {} {
        return false, true;
      }
      var left := fd_ctx.m_events - got;
      var rt := EpollControl(if left != {} then CtlMod else CtlDel, rep.fd, left, fails);
      if rt != 0 {
        return false, true;
      }
      alive := TriggerBoth(rep.fd, got);
      ok := true;
    }

    /** The dispatch loop over what one `epoll_wait` reports. */
    method DispatchAll(reps: seq<Report>, fails: seq<bool>) returns (alive: bool)
      requires Valid() && |fails| == |reps| && forall k | 0 <= k < |reps| :: reps[k].fd < |m_fdContexts|
      modifies this, m_fdContexts
      ensures alive ==> Valid()
      ensures DispatchEach(old(model), reps, fails) == if alive then Done(model, true) else Crash
    {
      var i := 0;
      ghost var goal := DispatchEach(model, reps, fails);
      assert reps[0..] == reps && fails[0..] == fails;
      while i < |reps|
        invariant i <= |reps| && Valid() && m_fdContexts == old(m_fdContexts)
        invariant DispatchEach(model, reps[i..], fails[i..]) == goal
      {
        assert reps[i..][1..] == reps[i + 1..] && fails[i..][1..] == fails[i + 1..];
        var ok;
        ok, alive := DispatchOne(reps[i], fails[i]);
        if !alive {
          return;
        }
        i := i + 1;
      }
      alive := true;
    }
  }
}
