/** The timers and their manager as objects. Every method is proved to compute the function
    of the same name in TimerSpec.dfy on the state that the objects represent. */
module TimerManagers {
  import opened Collections
  import opened TimerSpec

  /** A timer at an address. The period, the deadline and the callback change in place. */
  class TimerObject {
    const addr: Id
    const m_recurring: bool
    var m_ms: nat
    var m_next: nat
    var m_cb: Option<Callback>

    constructor (addr: Id, ms: nat, cb: Callback, recurring: bool, created: nat)
      ensures this.addr == addr && m_recurring == recurring && m_ms == ms
      ensures m_next == (created + ms) % WORD && m_cb == Some(cb)
    {
      this.addr, m_recurring, m_ms, m_cb := addr, recurring, ms, Some(cb);
      m_next := (created + ms) % WORD;
    }

    ghost predicate Is(t: Timer)
      reads this
    {
      t == Timer(m_recurring, m_ms, m_next, m_cb)
    }

    function Key(): Key
      reads this
    {
      TimerSpec.Key(m_next, addr)
    }
  }

  /** The objects at these addresses, in this order. */
  ghost predicate Names(all: map<Id, TimerObject>, ids: seq<Id>, timers: seq<TimerObject>) {
    |ids| == |timers| && forall k | 0 <= k < |ids| :: ids[k] in all && timers[k] == all[ids[k]]
  }

  lemma NamesInserted(all: map<Id, TimerObject>, ids: seq<Id>, timers: seq<TimerObject>, k: nat, t: TimerObject)
    requires Names(all, ids, timers) && k <= |ids| && t.addr in all && all[t.addr] == t
    ensures Names(all, ids[..k] + [t.addr] + ids[k..], timers[..k] + [t] + timers[k..])
  {
  }

  lemma KnownParts(timers: map<Id, Timer>, order: seq<Id>, k: nat)
    requires Known(timers, order) && k <= |order|
    ensures Known(timers, order[..k]) && Known(timers, order[k..])
  {
  }

  class TimerManager {
    /** The ordered set, first element first. */
    var m_timers: seq<TimerObject>
    var m_tickled: bool
    var m_previouseTime: nat
    /** Every timer ever made, by address. */
    ghost var all: map<Id, TimerObject>
    /** The state that the objects represent. */
    ghost var model: State

    ghost predicate Linked()
      reads this, all.Values
    {
      && model.timers.Keys == all.Keys
      && (forall a | a in all :: all[a].addr == a && all[a].Is(model.timers[a]))
      && Names(all, model.order, m_timers)
      && model.tickled == m_tickled && model.previous == m_previouseTime
    }

    ghost predicate Valid()
      reads this, all.Values
    {
      Linked() && Inv(model)
    }

    constructor (now: nat)
      ensures Valid() && model == State(map[], [], false, now)
    {
      m_timers, m_tickled, m_previouseTime := [], false, now;
      all := map[];
      model := State(map[], [], false, now);
    }

    /** Walks the set to the first element not before `key`. */
    method LowerBoundOf(key: Key) returns (p: nat)
      requires Linked() && Known(model.timers, model.order)
      ensures p == LowerBound(model.timers, model.order, key)
    {
      p := 0;
      ghost var rest := model.order;
      while p < |m_timers| && m_timers[p].Key().Less(key)
        invariant p <= |m_timers| && rest == model.order[p..] && Known(model.timers, rest)
        invariant LowerBound(model.timers, model.order, key) == p + LowerBound(model.timers, rest, key)
      {
        rest := rest[1..];
        p := p + 1;
      }
    }

    method FindTimer(t: TimerObject) returns (p: Option<nat>)
      requires Linked() && Known(model.timers, model.order) && t.addr in all && all[t.addr] == t
      ensures p == Find(model.timers, model.order, t.addr)
    {
      var k := LowerBoundOf(t.Key());
      p := if k < |m_timers| && !t.Key().Less(m_timers[k].Key()) then Some(k) else None;
    }

    method InsertTimer(t: TimerObject)
      requires Linked() && Known(model.timers, model.order) && t.addr in all && all[t.addr] == t
      modifies `m_timers, `model
      ensures Linked()
      ensures model == old(model.(order := Insert(model.timers, model.order, t.addr)))
    {
      ghost var order := Insert(model.timers, model.order, t.addr);
      var found := FindTimer(t);
      if found.None? {
        var k := LowerBoundOf(t.Key());
        assert order == model.order[..k] + [t.addr] + model.order[k..];
        NamesInserted(all, model.order, m_timers, k, t);
        m_timers := m_timers[..k] + [t] + m_timers[k..];
      }
      hide TimerSpec.Insert, TimerSpec.LowerBound, TimerSpec.Find, TimerSpec.Sorted, TimerSpec.KeyOf, TimerSpec.Known,
        Names;
      model := model.(order := order);
    }

    method EraseAt(k: nat)
      requires Linked() && k < |m_timers|
      modifies `m_timers, `model
      ensures Linked() && model == old(model.(order := Erase(model.order, k)))
    {
      m_timers := m_timers[..k] + m_timers[k + 1..];
      model := model.(order := Erase(model.order, k));
    }

    /** Assigns the fields of a timer that expiry, cancelling and re-arming change. */
    method Change(t: TimerObject, ms: nat, next: nat, cb: Option<Callback>)
      requires Linked() && t.addr in all && all[t.addr] == t
      modifies t, `model
      ensures Linked() && t.m_ms == ms && t.m_next == next && t.m_cb == cb
      ensures var t' := old(model.timers[t.addr]).(ms := ms, next := next, cb := cb);
              model == old(model).(timers := old(model).timers[t.addr := t'])
    {
      hide Names;
      t.m_ms, t.m_next, t.m_cb := ms, next, cb;
      model := model.(timers := model.timers[t.addr := model.timers[t.addr].(ms := ms, next := next, cb := cb)]);
    }

    /** `Timer::cancel`. The set holds every timer with a callback, so `find` succeeds. */
    method CancelTimer(t: TimerObject) returns (r: bool)
      requires Valid() && t.addr in all && all[t.addr] == t
      modifies `m_timers, `model, t
      ensures Valid() && (model, Some(r)) == old(Cancel(model, t.addr))
      ensures r == old(t.m_cb.Some?) && t.m_cb == None && t.m_next == old(t.m_next) && t.m_ms == old(t.m_ms)
    {
      CancelKeepsInv(model, t.addr);
      if t.m_cb.None? {
        return false;
      }
      Change(t, t.m_ms, t.m_next, None);
      var it := FindTimer(t);
      EraseAt(it.value);
      r := true;
    }

    /** What `refresh` and `reset` share: out of the set, a new deadline, back into the set. */
    method RearmTimer(t: TimerObject, ms: nat, next: nat, ghost goal: Timer) returns (r: bool)
      requires Valid() && t.addr in all && all[t.addr] == t && next < WORD
      requires goal == model.timers[t.addr].(ms := ms, next := next)
      modifies `m_timers, `model, t
      ensures Valid() && (model, r) == old(Rearm(model, t.addr, goal))
      ensures r == old(t.m_cb.Some?) && t.m_cb == old(t.m_cb)
      ensures t.m_ms == (if r then ms else old(t.m_ms)) && t.m_next == (if r then next else old(t.m_next))
    {
      hide TimerSpec.Insert, TimerSpec.LowerBound;
      RearmKeepsInv(model, t.addr, goal);
      if t.m_cb.None? {
        return false;
      }
      var it := FindTimer(t);
      if it.None? {
        return false;
      }
      ghost var k := FindPresent(model.timers, model.order, t.addr);
      EraseProperties(model.timers, model.order, k);
      EraseAt(it.value);
      Change(t, ms, next, t.m_cb);
      InsertTimer(t);
      r := true;
    }

    /** `Timer::refresh` */
    method RefreshTimer(t: TimerObject, now: nat) returns (r: bool)
      requires Valid() && t.addr in all && all[t.addr] == t
      modifies `m_timers, `model, t
      ensures Valid() && (model, r) == old(Refresh(model, t.addr, now))
      ensures r == old(t.m_cb.Some?) && t.m_cb == old(t.m_cb) && t.m_ms == old(t.m_ms)
      ensures t.m_next == if r then (now + t.m_ms) % 0x1_0000_0000_0000_0000 else old(t.m_next)
    {
      hide Rearm, TimerSpec.Inv, Names;
      r := RearmTimer(t, t.m_ms, (now + t.m_ms) % WORD, Refreshed(model.timers[t.addr], now));
    }

    /** `Timer::reset` */
    method ResetTimer(t: TimerObject, ms: nat, fromNow: bool, now: nat) returns (r: bool)
      requires Valid() && t.addr in all && all[t.addr] == t
      modifies `m_timers, `model, t
      ensures Valid() && (model, r) == old(Reset(model, t.addr, ms, fromNow, now))
      ensures t.m_cb == old(t.m_cb) && (r <==> t.m_cb.Some? || (ms == old(t.m_ms) && !fromNow))
      ensures t.m_ms == if r then ms else old(t.m_ms)
    {
      hide Rearm, TimerSpec.Inv, Names;
      if ms == t.m_ms && !fromNow {
        return true;
      }
      var start := if fromNow then now else (t.m_next - t.m_ms) % WORD;
      r := RearmTimer(t, ms, (start + ms) % WORD, Retimed(model.timers[t.addr], ms, fromNow, now));
    }

    /** `new Timer`, before the lock is taken. */
    method MakeTimer(addr: Id, ms: nat, cb: Callback, recurring: bool, created: nat) returns (t: TimerObject)
      requires Linked() && addr !in all
      modifies `all, `model
      ensures Linked() && fresh(t) && t.addr == addr && all == old(all)[addr := t]
      ensures var entry := Timer(recurring, ms, (created + ms) % WORD, Some(cb));
              model == old(model).(timers := old(model).timers[addr := entry])
    {
      t := new TimerObject(addr, ms, cb, recurring, created);
      all := all[addr := t];
      model := model.(timers := model.timers[addr := Timer(recurring, ms, (created + ms) % WORD, Some(cb))]);
    }

    /** `addTimer`; `notify` is the call of `onTimerInsertedAtFront` after the lock. */
    method AddTimer(addr: Id, ms: nat, cb: Callback, recurring: bool, created: nat)
      returns (t: TimerObject, notify: bool)
      requires Valid() && addr !in all
      modifies this
      ensures Valid() && fresh(t) && all == old(all)[addr := t]
      ensures (model, notify) == old(Add(model, addr, created, ms, cb, recurring))
    {
      AddKeepsInv(model, addr, created, ms, cb, recurring);
      t := MakeTimer(addr, ms, cb, recurring, created);
      InsertTimer(t);
      notify := m_timers[0] == t && !m_tickled;
      if notify {
        m_tickled := true;
        model := model.(tickled := true);
      }
    }

    method GetNextTimer(now: nat) returns (r: nat)
      requires Valid() && now < WORD
      modifies `m_tickled, `model
      ensures Valid() && (model, r) == old(GetNext(model, now))
    {
      m_tickled := false;
      model := model.(tickled := false);
      if |m_timers| == 0 {
        return WORD - 1;
      }
      var next := m_timers[0];
      r := if now >= next.m_next then 0 else next.m_next - now;
    }

    method DetectClockRollover(now: nat) returns (rollover: bool)
      requires Valid()
      modifies `m_previouseTime, `model
      ensures Valid() && model == old(model).(previous := now)
      ensures rollover == Rollover(old(model).previous, now)
    {
      rollover := now < m_previouseTime && now < (m_previouseTime - HOUR) % WORD;
      m_previouseTime := now;
      model := model.(previous := now);
    }

    method ListExpiredCb(now: nat, probe: Id) returns (cbs: seq<Option<Callback>>)
      requires Valid() && now < WORD
      modifies this, all.Values
      ensures Valid() && all == old(all)
      ensures model == old(ListExpired(model, now, probe).0)
      ensures cbs == old(ExpiredCallbacks(model, now, probe))
    {
      hide TimerSpec.Settle, TimerSpec.Collected, TimerSpec.Sorted, TimerSpec.Rollover;
      cbs := [];
      if |m_timers| != 0 {
        ghost var goal := ListExpired(model, now, probe).0;
        assert Inv(goal) by {
          ListExpiredMeaning(model, now, probe);
        }
        var rollover := DetectClockRollover(now);
        if rollover || m_timers[0].m_next <= now {
          var it := |m_timers|;
          if !rollover {
            it := LowerBoundOf(TimerSpec.Key(now, probe));
          }
          KnownParts(model.timers, model.order, it);
          cbs := TakeExpired(it, now);
        }
        assert model == goal;
      }
    }

    /** Takes the first `it` timers out of the set and settles them. */
    method TakeExpired(it: nat, now: nat) returns (cbs: seq<Option<Callback>>)
      requires Linked() && it <= |m_timers|
      requires Known(model.timers, model.order[it..]) && Known(model.timers, model.order[..it])
      modifies `m_timers, `model, all.Values
      ensures Linked()
      ensures var r := Settle(old(model).timers, old(model).order[it..], old(model).order[..it], now);
              model == old(model).(timers := r.0, order := r.1)
      ensures cbs == Collected([], old(model).timers, old(model).order[it..], old(model).order[..it], now)
    {
      var expired := m_timers[..it];
      ghost var ids := model.order[..it];
      m_timers := m_timers[it..];
      model := model.(order := model.order[it..]);
      cbs := SettleAll(expired, ids, now);
    }

    /** The loop of `listExpiredCb` over the timers that were taken out of the set. */
    method SettleAll(expired: seq<TimerObject>, ghost ids: seq<Id>, now: nat) returns (cbs: seq<Option<Callback>>)
      requires Linked() && Known(model.timers, model.order) && Known(model.timers, ids)
      requires Names(all, ids, expired)
      modifies `m_timers, `model, all.Values
      ensures Linked()
      ensures var r := Settle(old(model).timers, old(model).order, ids, now);
              model == old(model).(timers := r.0, order := r.1)
      ensures cbs == Collected([], old(model).timers, old(model).order, ids, now)
    {
      hide TimerSpec.SettleOne;
      cbs := [];
      var i := 0;
      ghost var rest := ids;
      ghost var before := model;
      while i < |expired|
        invariant i <= |expired| && rest == ids[i..]
        invariant Linked() && Known(model.timers, model.order) && Known(model.timers, rest)
        invariant model.tickled == before.tickled && model.previous == before.previous
        invariant Settle(model.timers, model.order, rest, now) == Settle(before.timers, before.order, ids, now)
        invariant Collected(cbs, model.timers, model.order, rest, now) ==
                  Collected([], before.timers, before.order, ids, now)
      {
        cbs := cbs + [expired[i].m_cb];
        SettleTimer(expired[i], now);
        rest := rest[1..];
        i := i + 1;
      }
    }

    method SettleTimer(timer: TimerObject, now: nat)
      requires Linked() && Known(model.timers, model.order) && timer.addr in all && all[timer.addr] == timer
      modifies `m_timers, `model, timer
      ensures Linked()
      ensures var r := SettleOne(old(model).timers, old(model).order, timer.addr, now);
              model == old(model).(timers := r.0, order := r.1)
    {
      hide TimerSpec.Insert, TimerSpec.Find, TimerSpec.Sorted, Names;
      if timer.m_recurring {
        Change(timer, timer.m_ms, (now + timer.m_ms) % WORD, timer.m_cb);
        InsertTimer(timer);
      } else {
        Change(timer, timer.m_ms, timer.m_next, None);
      }
    }
  }
}
