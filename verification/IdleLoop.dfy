/** The idle loop of the IO manager, which joins the three: it asks the timers how long to sleep and
    `stopping()` whether to end, and it waits in `epoll_wait`. */
module IdleLoop {
  import opened IoSpec
  import Hook
  import Scheduler
  import TimerSpec

  // ---- When it ends ----

  /** `IOManager::stopping`: all ones from `getNextTimer`, nothing pending, and the scheduler says so. */
  predicate Stopping(timers: TimerSpec.State, now: nat, pending: int, sched: Scheduler.State)
    requires TimerSpec.Known(timers.timers, timers.order)
  {
    TimerSpec.GetNext(timers, now).1 == 0xFFFF_FFFF_FFFF_FFFF && pending == 0 && Scheduler.Stopping(sched)
  }

  lemma {:induction false} NoBitsIff(fds: seq<FdContext>)
    ensures TotalBits(fds) == 0 <==> forall k | 0 <= k < |fds| :: fds[k].events == {}
  {
    if fds != [] {
      NoBitsIff(fds[1..]);
      NoBits(fds[0].events);
      assert forall k | 0 < k < |fds| :: fds[1..][k - 1] == fds[k];
      if TotalBits(fds) == 0 {
        assert forall k | 0 < k < |fds| :: fds[k].events == {};
      } else if fds[0].events == {} {
        var k :| 0 <= k < |fds[1..]| && fds[1..][k].events != {};
        assert fds[k + 1].events != {};
      }
    }
  }

  lemma NoBits(events: set<Event>)
    ensures Bits(events) == 0 <==> events == {}
  {
    if events != {} {
      var e :| e in events;
      assert e == Read || e == Write;
    }
  }

  /** The count is zero exactly when no event is set. */
  lemma PendingIff(io: State)
    requires Inv(io)
    ensures io.pending == 0 <==> forall fd: Fd, ev: Event :: !IsSet(io, fd, ev)
  {
    NoBitsIff(io.fds);
    if io.pending == 0 {
      assert forall k | 0 <= k < |io.fds| :: io.fds[k].events == {};
    } else {
      var k :| 0 <= k < |io.fds| && io.fds[k].events != {};
      var ev :| ev in io.fds[k].events;
      assert IsSet(io, k, ev);
    }
  }

  /** All ones means that no timer is armed, but for one corner: a deadline of all ones asked for at
      time zero. */
  lemma NoTimerIff(s: TimerSpec.State, now: nat)
    requires TimerSpec.Inv(s) && now < 0x1_0000_0000_0000_0000
    ensures TimerSpec.GetNext(s, now).1 == 0xFFFF_FFFF_FFFF_FFFF <==>
            || (forall id | id in s.timers :: s.timers[id].cb.None?)
            || (now == 0 && forall id | id in s.timers && s.timers[id].cb.Some? ::
                              s.timers[id].next == 0xFFFF_FFFF_FFFF_FFFF)
  {
    if s.order == [] {
      assert forall id | id in s.timers :: id !in s.order;
    } else {
      TimerSpec.SortedDistinct(s.timers, s.order);
      var first := s.order[0];
      assert first in s.order;
      forall id | id in s.timers && s.timers[id].cb.Some?
        ensures s.timers[first].next <= s.timers[id].next
      {
        var k :| 0 <= k < |s.order| && s.order[k] == id;
        if k > 0 {
          TimerSpec.OrderMeaning(s, 0, k);
        }
      }
    }
  }

  /** What `stopping` says, without the functions that compute it. */
  lemma StoppingIff(timers: TimerSpec.State, now: nat, io: State, sched: Scheduler.State)
    requires TimerSpec.Inv(timers) && 0 < now < 0x1_0000_0000_0000_0000 && Inv(io) && Scheduler.Accounts(sched)
    ensures Stopping(timers, now, io.pending, sched) <==>
            && (forall id | id in timers.timers :: timers.timers[id].cb.None?)
            && (forall fd: Fd, ev: Event :: !IsSet(io, fd, ev))
            && sched.stopped && sched.queue == []
            && forall k | 0 <= k < |sched.workers| ::
                 !sched.workers[k].phase.Took? && !sched.workers[k].phase.Running? && !sched.workers[k].phase.Back?
  {
    hide TimerSpec.GetNext, TimerSpec.Inv;
    NoTimerIff(timers, now);
    PendingIff(io);
    Scheduler.NoneActiveIff(sched.workers);
  }

  /** The scheduler's queue holds every fiber that the slots have released. */
  ghost predicate Queues(sched: Scheduler.State, queue: seq<Task>) {
    forall f: Fiber | FiberTask(f) in queue ::
      exists k | 0 <= k < |sched.queue| :: sched.queue[k].item == Scheduler.FiberItem(f)
  }

  /** In every run of the blocking calls, at every moment of it: when the IO manager may stop, no fiber is
      left behind inside a call, neither in a slot nor on its way back. */
  lemma {:induction false} NobodyIsLeftBehind(run: seq<Hook.Action>, timers: TimerSpec.State, now: nat,
                                                 sched: Scheduler.State)
    requires (Hook.StartInv(); Hook.EnabledRun(Hook.START, run))
    requires TimerSpec.Known(timers.timers, timers.order)
    requires Queues(sched, (Hook.StartInv(); Hook.After(Hook.START, run)).queue)
    ensures var s := (Hook.StartInv(); Hook.After(Hook.START, run));
            Stopping(timers, now, s.io.pending, sched) ==> forall f :: !Hook.IsParked(s.waits, f)
  {
    Hook.StartInv();
    var s := Hook.After(Hook.START, run);
    hide Hook.Inv, Hook.EnabledRun, Hook.After, TimerSpec.GetNext;
    if Stopping(timers, now, s.io.pending, sched) {
      NoEventSet(s);
      NothingQueued(sched, s.queue);
      forall f
        ensures !Hook.IsParked(s.waits, f)
      {
        Hook.NeverTwiceNeverForgotten(run, f);
      }
    }
  }

  lemma NothingQueued(sched: Scheduler.State, queue: seq<Task>)
    requires Queues(sched, queue) && sched.queue == []
    ensures forall f: Fiber :: FiberTask(f) !in queue
  {
  }

  lemma NoEventSet(s: Hook.System)
    requires Hook.Inv(s) && s.io.pending == 0
    ensures forall fd: Fd, ev: Event :: !IsSet(s.io, fd, ev)
  {
    PendingIff(s.io);
  }

  // ---- How long it waits ----

  /** A 64-bit word cast to `int`. */
  function ToInt(u: nat): int {
    var low := u % 0x1_0000_0000;
    if low < 0x8000_0000 then low else low - 0x1_0000_0000
  }

  const MAX_TIMEOUT := 3000

  /** The timeout that `epoll_wait` is given. Only the comparison looks at the word as an `int`. */
  function WaitFor(next: nat): int {
    ToInt(if next != TimerSpec.WORD - 1 && ToInt(next) <= MAX_TIMEOUT then next else MAX_TIMEOUT)
  }

  /** It is at most three seconds and never longer than asked for; but it is negative, which is no limit at
      all, exactly when bit 31 of the word is set, other than in all ones. */
  lemma WaitMeaning(next: nat)
    requires next < TimerSpec.WORD
    ensures var (t, low) := (WaitFor(next), next % 0x1_0000_0000);
            && t <= 3000 && t <= next
            && (t < 0 <==> next != 0xFFFF_FFFF_FFFF_FFFF && low >= 0x8000_0000)
            && (t >= 0 && next < 0x8000_0000 ==> t == if next < 3000 then next else 3000)
            && (next == 0xFFFF_FFFF_FFFF_FFFF ==> t == 3000)
  {
  }

  /** So the wait is over by the earliest deadline, and by three seconds, exactly when the time to that
      deadline has no bit 31. */
  lemma WakesInTimeIff(s: TimerSpec.State, now: nat)
    requires TimerSpec.Inv(s) && s.order != [] && now < TimerSpec.WORD
    ensures var r := TimerSpec.GetNext(s, now).1;
            var t := WaitFor(r);
            var inTime := forall id | id in s.order ::
                            id in s.timers && now + t <= if s.timers[id].next < now then now else s.timers[id].next;
            (0 <= t <= 3000 && inTime) <==> (r == 0xFFFF_FFFF_FFFF_FFFF || r % 0x1_0000_0000 < 0x8000_0000)
  {
    hide WaitFor;
    var r := TimerSpec.GetNext(s, now).1;
    WaitMeaning(r);
    forall id | id in s.order
      ensures id in s.timers && now + r <= if s.timers[id].next < now then now else s.timers[id].next
    {
      var k :| 0 <= k < |s.order| && s.order[k] == id;
      if k > 0 {
        TimerSpec.OrderMeaning(s, 0, k);
      }
    }
  }

  /** A timer of 2^31 milliseconds, about 25 days, alone in a new manager: the first wait has no limit. */
  lemma {:induction false} WaitsWithoutLimit(cb: TimerSpec.Callback)
    ensures var ms := 0x8000_0000;
            var add := TimerSpec.Step(TimerSpec.OAdd(1, ms, cb, false, 0), 0);
            && TimerSpec.Enabled(TimerSpec.New(0), add)
            && var s := TimerSpec.Apply(TimerSpec.New(0), add).0;
               TimerSpec.Inv(s) && WaitFor(TimerSpec.GetNext(s, 0).1) == -0x8000_0000
  {
    TimerSpec.AddToNew(0x8000_0000, cb, false);
  }
}
