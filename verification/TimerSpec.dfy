/** The timer manager as a value: the timers by address, and the addresses of the armed ones in
    the order of the set. The class in TimerManager.dfy is proved to compute these functions;
    the properties of single steps and of whole runs are proved here. */
module TimerSpec {
  import opened Collections

  /** Timers live at addresses; the set breaks ties by address. */
  type Id = nat
  /** A callback that is not null. */
  type Callback = nat

  /** Times are 64-bit words of milliseconds. */
  const WORD: nat := 0x1_0000_0000_0000_0000
  const HOUR: nat := 60 * 60 * 1000

  datatype Timer = Timer(recurring: bool, ms: nat, next: nat, cb: Option<Callback>)

  datatype State = State(timers: map<Id, Timer>, order: seq<Id>, tickled: bool, previous: nat)

  // ---- The ordered set ----

  datatype Key = Key(next: nat, id: Id) {
    /** `Comparator`, for pointers that are not null. */
    predicate Less(other: Key) {
      next < other.next || (next == other.next && id < other.id)
    }
  }

  ghost predicate Known(timers: map<Id, Timer>, order: seq<Id>) {
    forall k | 0 <= k < |order| :: order[k] in timers
  }

  function KeyOf(timers: map<Id, Timer>, id: Id): Key
    requires id in timers
  {
    Key(timers[id].next, id)
  }

  ghost predicate Sorted(timers: map<Id, Timer>, order: seq<Id>)
    requires Known(timers, order)
  {
    forall k, l | 0 <= k < l < |order| :: KeyOf(timers, order[k]).Less(KeyOf(timers, order[l]))
  }

  /** `lower_bound`: how many elements come before `key`. */
  function LowerBound(timers: map<Id, Timer>, order: seq<Id>, key: Key): (p: nat)
    requires Known(timers, order)
    ensures p <= |order|
    ensures forall k | 0 <= k < p :: KeyOf(timers, order[k]).Less(key)
    ensures p < |order| ==> !KeyOf(timers, order[p]).Less(key)
  {
    if order == [] || !KeyOf(timers, order[0]).Less(key) then 0
    else 1 + LowerBound(timers, order[1..], key)
  }

  /** `find` */
  function Find(timers: map<Id, Timer>, order: seq<Id>, id: Id): (p: Option<nat>)
    requires Known(timers, order) && id in timers
    ensures p.Some? ==> p.value < |order|
  {
    var k := LowerBound(timers, order, KeyOf(timers, id));
    if k < |order| && !KeyOf(timers, id).Less(KeyOf(timers, order[k])) then Some(k) else None
  }

  /** `insert`, which keeps an element that is already there. */
  function Insert(timers: map<Id, Timer>, order: seq<Id>, id: Id): seq<Id>
    requires Known(timers, order) && id in timers
  {
    if Find(timers, order, id).Some? then order
    else
      var k := LowerBound(timers, order, KeyOf(timers, id));
      order[..k] + [id] + order[k..]
  }

  function Erase(order: seq<Id>, k: nat): seq<Id>
    requires k < |order|
  {
    order[..k] + order[k + 1..]
  }

  // ---- The operations ----

  /** `cancel`: the answer, or None when the log-only assertion of the source fails. */
  function Cancel(s: State, id: Id): (State, Option<bool>)
    requires Known(s.timers, s.order) && id in s.timers
  {
    if s.timers[id].cb.None? then (s, Some(false))
    else
      var timers := s.timers[id := s.timers[id].(cb := None)];
      match Find(timers, s.order, id)
      case None => (s.(timers := timers), None)
      case Some(k) => (s.(timers := timers, order := Erase(s.order, k)), Some(true))
  }

  /** Takes a timer out of the set, changes it to `t` and puts it back. */
  function Rearm(s: State, id: Id, t: Timer): (State, bool)
    requires Known(s.timers, s.order) && id in s.timers
  {
    if s.timers[id].cb.None? then (s, false)
    else
      match Find(s.timers, s.order, id)
      case None => (s, false)
      case Some(k) =>
        var timers := s.timers[id := t];
        (s.(timers := timers, order := Insert(timers, Erase(s.order, k), id)), true)
  }

  /** The timer after `refresh`: one period from now. */
  function Refreshed(t: Timer, now: nat): Timer {
    t.(next := (now + t.ms) % WORD)
  }

  function Refresh(s: State, id: Id, now: nat): (State, bool)
    requires Known(s.timers, s.order) && id in s.timers
  {
    Rearm(s, id, Refreshed(s.timers[id], now))
  }

  /** The timer after `reset`: counted from now, or from when it was last armed. */
  function Retimed(t: Timer, ms: nat, fromNow: bool, now: nat): Timer {
    t.(ms := ms, next := ((if fromNow then now else (t.next - t.ms) % WORD) + ms) % WORD)
  }

  function Reset(s: State, id: Id, ms: nat, fromNow: bool, now: nat): (State, bool)
    requires Known(s.timers, s.order) && id in s.timers
  {
    if ms == s.timers[id].ms && !fromNow then (s, true)
    else Rearm(s, id, Retimed(s.timers[id], ms, fromNow, now))
  }

  /** `addTimer` of a timer constructed at time `created`; the flag says whether
      `onTimerInsertedAtFront` is called. */
  function Add(s: State, id: Id, created: nat, ms: nat, cb: Callback, recurring: bool): (State, bool)
    requires Known(s.timers, s.order) && id !in s.timers
  {
    var timers := s.timers[id := Timer(recurring, ms, (created + ms) % WORD, Some(cb))];
    var order := Insert(timers, s.order, id);
    var front := order[0] == id && !s.tickled;
    (s.(timers := timers, order := order, tickled := s.tickled || front), front)
  }

  /** `getNextTimer`: how long until the earliest deadline, all ones when there is none. */
  function GetNext(s: State, now: nat): (State, nat)
    requires Known(s.timers, s.order)
  {
    (s.(tickled := false),
     if s.order == [] then WORD - 1
     else
       var next := s.timers[s.order[0]].next;
       if now >= next then 0 else next - now)
  }

  /** `detectClockRollover`; the subtraction wraps. */
  function Rollover(previous: nat, now: nat): bool {
    now < previous && now < (previous - HOUR) % WORD
  }

  /** How many timers of the set expire: all on a rollover, otherwise those before a probe
      that lies at a fresh address. */
  function Expired(s: State, now: nat, probe: Id): (n: nat)
    requires Known(s.timers, s.order)
    ensures n <= |s.order|
  {
    if Rollover(s.previous, now) then |s.order|
    else LowerBound(s.timers, s.order, Key(now, probe))
  }

  /** One round of the loop over the expired timers: a recurring timer goes back into the
      set, a one-shot loses its callback. */
  function SettleOne(timers: map<Id, Timer>, order: seq<Id>, id: Id, now: nat)
    : (r: (map<Id, Timer>, seq<Id>))
    requires Known(timers, order) && id in timers
    ensures r.0.Keys == timers.Keys && Known(r.0, r.1)
  {
    var t := timers[id];
    if t.recurring then
      var timers' := timers[id := t.(next := (now + t.ms) % WORD)];
      (timers', Insert(timers', order, id))
    else
      (timers[id := t.(cb := None)], order)
  }

  function Settle(timers: map<Id, Timer>, order: seq<Id>, expired: seq<Id>, now: nat)
    : (r: (map<Id, Timer>, seq<Id>))
    requires Known(timers, order) && Known(timers, expired)
    ensures r.0.Keys == timers.Keys && Known(r.0, r.1)
    decreases expired
  {
    if expired == [] then (timers, order)
    else
      var (timers', order') := SettleOne(timers, order, expired[0], now);
      Settle(timers', order', expired[1..], now)
  }

  /** The callbacks that the loop has collected at its end, when it has `cbs` already. */
  function Collected(cbs: seq<Option<Callback>>, timers: map<Id, Timer>, order: seq<Id>, expired: seq<Id>, now: nat)
    : seq<Option<Callback>>
    requires Known(timers, order) && Known(timers, expired)
    decreases expired
  {
    if expired == [] then cbs
    else
      var (timers', order') := SettleOne(timers, order, expired[0], now);
      Collected(cbs + [timers[expired[0]].cb], timers', order', expired[1..], now)
  }

  /** `listExpiredCb`: the new state and the timers whose callbacks are handed out, in order. */
  function ListExpired(s: State, now: nat, probe: Id): (r: (State, seq<Id>))
    requires Known(s.timers, s.order)
    ensures r.0.timers.Keys == s.timers.Keys && Known(r.0.timers, r.0.order)
  {
    if s.order == [] then (s, [])
    else if !Rollover(s.previous, now) && s.timers[s.order[0]].next > now then (s.(previous := now), [])
    else
      var n := Expired(s, now, probe);
      var (timers, order) := Settle(s.timers, s.order[n..], s.order[..n], now);
      (s.(timers := timers, order := order, previous := now), s.order[..n])
  }

  /** The callbacks that `listExpiredCb` hands out. */
  function ExpiredCallbacks(s: State, now: nat, probe: Id): seq<Option<Callback>>
    requires Known(s.timers, s.order)
  {
    if s.order == [] || (!Rollover(s.previous, now) && s.timers[s.order[0]].next > now) then []
    else
      var n := Expired(s, now, probe);
      Collected([], s.timers, s.order[n..], s.order[..n], now)
  }

  // ---- The set invariant ----

  /** The set is strictly sorted by the keys as they are now, and holds exactly the timers
      with a callback. */
  ghost predicate Inv(s: State) {
    && Known(s.timers, s.order)
    && Sorted(s.timers, s.order)
    && (forall id | id in s.timers :: s.timers[id].cb.Some? <==> id in s.order)
    && (forall id | id in s.timers :: s.timers[id].next < WORD)
  }

  /** A new element goes behind the smaller and before the larger ones. */
  lemma InsertAt(timers: map<Id, Timer>, order: seq<Id>, id: Id) returns (p: nat)
    requires Known(timers, order) && Sorted(timers, order) && id in timers && id !in order
    ensures p <= |order| && Insert(timers, order, id) == order[..p] + [id] + order[p..]
    ensures forall i | 0 <= i < p :: KeyOf(timers, order[i]).Less(KeyOf(timers, id))
    ensures forall i | p <= i < |order| :: KeyOf(timers, id).Less(KeyOf(timers, order[i]))
  {
    p := LowerBound(timers, order, KeyOf(timers, id));
    if p < |order| {
      assert order[p] in order;
    }
  }

  lemma InsertMembers(order: seq<Id>, p: nat, id: Id)
    requires p <= |order|
    ensures forall x :: x in order[..p] + [id] + order[p..] <==> x == id || x in order
  {
    assert order == order[..p] + order[p..];
  }

  lemma InsertProperties(timers: map<Id, Timer>, order: seq<Id>, id: Id)
    requires Known(timers, order) && Sorted(timers, order) && id in timers && id !in order
    ensures var order' := Insert(timers, order, id);
            && Known(timers, order') && Sorted(timers, order')
            && (forall x :: x in order' <==> x == id || x in order)
            && |order'| == |order| + 1
            && order'[0] == if order == [] || KeyOf(timers, id).Less(KeyOf(timers, order[0])) then id else order[0]
  {
    var p := InsertAt(timers, order, id);
    var order' := order[..p] + [id] + order[p..];
    InsertMembers(order, p, id);
    assert forall i | 0 <= i < |order'| ::
        order'[i] == if i < p then order[i] else if i == p then id else order[i - 1];
  }

  lemma FindPresent(timers: map<Id, Timer>, order: seq<Id>, id: Id) returns (k: nat)
    requires Known(timers, order) && Sorted(timers, order) && id in order
    ensures k < |order| && order[k] == id && Find(timers, order, id) == Some(k)
  {
    k :| 0 <= k < |order| && order[k] == id;
    var p := LowerBound(timers, order, KeyOf(timers, id));
    assert p == k;
  }

  lemma EraseProperties(timers: map<Id, Timer>, order: seq<Id>, k: nat)
    requires Known(timers, order) && Sorted(timers, order) && k < |order|
    ensures var order' := Erase(order, k);
            && Known(timers, order') && Sorted(timers, order')
            && (forall x :: x in order' <==> x != order[k] && x in order)
  {
    var order' := Erase(order, k);
    assert forall i | 0 <= i < |order'| :: order'[i] == order[if i < k then i else i + 1];
    forall x
      ensures x in order' <==> x != order[k] && x in order
    {
      if x in order && x != order[k] {
        var i :| 0 <= i < |order| && order[i] == x;
        assert order'[if i < k then i else i - 1] == x;
      }
    }
  }

  /** Changes to timers outside the set do not disturb it. */
  lemma OutsideChange(timers: map<Id, Timer>, timers': map<Id, Timer>, order: seq<Id>)
    requires Known(timers, order) && Sorted(timers, order)
    requires forall x | x in order :: x in timers' && timers'[x].next == timers[x].next
    ensures Known(timers', order) && Sorted(timers', order)
  {
    forall k | 0 <= k < |order|
      ensures order[k] in timers' && KeyOf(timers', order[k]) == KeyOf(timers, order[k])
    {
      assert order[k] in order;
    }
  }

  /** `cancel` always finds an armed timer, so its assertion never fails. */
  lemma CancelKeepsInv(s: State, id: Id)
    requires Inv(s) && id in s.timers
    ensures var (s', r) := Cancel(s, id);
            && Inv(s') && r == Some(s.timers[id].cb.Some?)
            && s'.timers == s.timers[id := s.timers[id].(cb := None)]
            && (forall x :: x in s'.order <==> x != id && x in s.order)
            && s'.tickled == s.tickled && s'.previous == s.previous
  {
    if s.timers[id].cb.Some? {
      var timers := s.timers[id := s.timers[id].(cb := None)];
      OutsideChange(s.timers, timers, s.order);
      var k := FindPresent(timers, s.order, id);
      EraseProperties(timers, s.order, k);
    } else {
      assert s.timers[id := s.timers[id].(cb := None)] == s.timers;
    }
  }

  /** A timer is re-armed exactly when it is armed; nothing else changes. */
  lemma RearmKeepsInv(s: State, id: Id, t: Timer)
    requires Inv(s) && id in s.timers && t.next < WORD && t.cb == s.timers[id].cb
    ensures var (s', r) := Rearm(s, id, t);
            && Inv(s') && r == s.timers[id].cb.Some?
            && (r ==> s'.timers == s.timers[id := t])
            && (!r ==> s' == s)
            && (forall x :: x in s'.order <==> x in s.order)
            && s'.tickled == s.tickled && s'.previous == s.previous
  {
    if s.timers[id].cb.Some? {
      var k := FindPresent(s.timers, s.order, id);
      EraseProperties(s.timers, s.order, k);
      var timers := s.timers[id := t];
      OutsideChange(s.timers, timers, Erase(s.order, k));
      InsertProperties(timers, Erase(s.order, k), id);
    }
  }

  lemma AddKeepsInv(s: State, id: Id, created: nat, ms: nat, cb: Callback, recurring: bool)
    requires Inv(s) && id !in s.timers
    ensures var (s', notify) := Add(s, id, created, ms, cb, recurring);
            && Inv(s')
            && s'.timers == s.timers[id := Timer(recurring, ms, (created + ms) % WORD, Some(cb))]
            && (forall x :: x in s'.order <==> x == id || x in s.order)
            && s'.tickled == (s.tickled || notify) && s'.previous == s.previous
            && (notify <==>
                  (!s.tickled && forall x | x in s.order :: KeyOf(s'.timers, id).Less(KeyOf(s.timers, x))))
  {
    var t := Timer(recurring, ms, (created + ms) % WORD, Some(cb));
    AddedToSet(s, id, t);
    AddedInFront(s, id, t);
    hide Insert, Sorted, KeyOf;
  }

  /** A new armed timer and its place in the set. */
  lemma AddedToSet(s: State, id: Id, t: Timer)
    requires Inv(s) && id !in s.timers && t.cb.Some? && t.next < WORD
    ensures var timers := s.timers[id := t];
            var order := Insert(timers, s.order, id);
            && Inv(s.(timers := timers, order := order))
            && (forall x :: x in order <==> x == id || x in s.order)
  {
    var timers := s.timers[id := t];
    assert forall x | x in s.order :: x in s.timers;
    OutsideChange(s.timers, timers, s.order);
    InsertProperties(timers, s.order, id);
    hide Insert, Sorted;
  }

  lemma AddedInFront(s: State, id: Id, t: Timer)
    requires Inv(s) && id !in s.timers
    ensures var timers := s.timers[id := t];
            && Insert(timers, s.order, id) != []
            && (Insert(timers, s.order, id)[0] == id <==>
                  forall x | x in s.order :: x in s.timers && KeyOf(timers, id).Less(KeyOf(s.timers, x)))
  {
    var timers := s.timers[id := t];
    assert forall x | x in s.order :: x in s.timers && KeyOf(timers, x) == KeyOf(s.timers, x);
    OutsideChange(s.timers, timers, s.order);
    FrontOfInsert(timers, s.order, id);
    hide Insert, Sorted, KeyOf;
  }

  /** A new element comes first exactly when it is before all others. */
  lemma FrontOfInsert(timers: map<Id, Timer>, order: seq<Id>, id: Id)
    requires Known(timers, order) && Sorted(timers, order) && id in timers && id !in order
    ensures Insert(timers, order, id) != []
    ensures Insert(timers, order, id)[0] == id <==>
            forall x | x in order :: x in timers && KeyOf(timers, id).Less(KeyOf(timers, x))
  {
    InsertProperties(timers, order, id);
    hide Insert;
    forall x | x in order
      ensures x in timers
      ensures KeyOf(timers, order[0]) == KeyOf(timers, x) || KeyOf(timers, order[0]).Less(KeyOf(timers, x))
    {
      var k :| 0 <= k < |order| && order[k] == x;
      assert order[k] in timers && order[0] in timers;
    }
    if order != [] {
      assert order[0] in order;
    }
  }

  // ---- Expiry ----

  /** What expiry does to a timer. */
  function Settled(t: Timer, now: nat): Timer {
    if t.recurring then t.(next := (now + t.ms) % WORD) else t.(cb := None)
  }

  ghost predicate Distinct(ids: seq<Id>) {
    forall k, l | 0 <= k < l < |ids| :: ids[k] != ids[l]
  }

  lemma {:induction false} SettleProperties(timers: map<Id, Timer>, order: seq<Id>, expired: seq<Id>, now: nat)
    requires Known(timers, order) && Sorted(timers, order) && Known(timers, expired)
    requires Distinct(expired) && forall x | x in expired :: x !in order
    ensures var (timers', order') := Settle(timers, order, expired, now);
            && Sorted(timers', order')
            && (forall x | x in timers :: timers'[x] == if x in expired then Settled(timers[x], now) else timers[x])
            && (forall x :: x in order' <==> x in order || (x in expired && timers[x].recurring))
    decreases expired
  {
    if expired != [] {
      var id := expired[0];
      var rest := expired[1..];
      assert forall x :: x in expired <==> x == id || x in rest;
      assert id !in rest;
      var (timers', order') := SettleOne(timers, order, id, now);
      assert Settle(timers, order, expired, now) == Settle(timers', order', rest, now);
      SettleOneProperties(timers, order, id, now);
      hide Settle, SettleOne, Sorted;
      SettleProperties(timers', order', rest, now);
    }
  }

  lemma SettleOneProperties(timers: map<Id, Timer>, order: seq<Id>, id: Id, now: nat)
    requires Known(timers, order) && Sorted(timers, order) && id in timers && id !in order
    ensures var (timers', order') := SettleOne(timers, order, id, now);
            && Sorted(timers', order')
            && timers' == timers[id := Settled(timers[id], now)]
            && (forall x :: x in order' <==> x in order || (x == id && timers[id].recurring))
  {
    var timers' := timers[id := Settled(timers[id], now)];
    OutsideChange(timers, timers', order);
    if timers[id].recurring {
      InsertProperties(timers', order, id);
    }
  }

  /** Each expired timer contributes the callback it had before. */
  lemma {:induction false} CollectedCallbacks(cbs: seq<Option<Callback>>, timers: map<Id, Timer>, order: seq<Id>,
                                              expired: seq<Id>, now: nat)
    requires Known(timers, order) && Known(timers, expired) && Distinct(expired)
    ensures var r := Collected(cbs, timers, order, expired, now);
            |r| == |cbs| + |expired| && cbs <= r &&
            forall k | 0 <= k < |expired| :: r[|cbs| + k] == timers[expired[k]].cb
    decreases expired
  {
    if expired != [] {
      var (timers', order') := SettleOne(timers, order, expired[0], now);
      CollectedCallbacks(cbs + [timers[expired[0]].cb], timers', order', expired[1..], now);
      forall k | 0 < k < |expired|
        ensures timers'[expired[k]].cb == timers[expired[k]].cb
        ensures expired[1..][k - 1] == expired[k]
      {
      }
    }
  }

  lemma SortedDistinct(timers: map<Id, Timer>, order: seq<Id>)
    requires Known(timers, order) && Sorted(timers, order)
    ensures Distinct(order)
    ensures forall k, l | 0 <= k < l < |order| :: timers[order[k]].next <= timers[order[l]].next
  {
    forall k, l | 0 <= k < l < |order|
      ensures order[k] != order[l] && timers[order[k]].next <= timers[order[l]].next
    {
      assert KeyOf(timers, order[k]).Less(KeyOf(timers, order[l]));
    }
  }

  /** Which armed timers expire: all on a rollover; otherwise those due before now, and
      those due exactly now whose address is below the probe's. */
  ghost predicate Due(s: State, now: nat, probe: Id, id: Id)
    requires id in s.timers
  {
    Rollover(s.previous, now) || KeyOf(s.timers, id).Less(Key(now, probe))
  }

  /** `listExpiredCb` hands out a front part of the set, so in deadline order and each timer
      once: exactly the due ones. They are settled, everything else stays as it was. */
  lemma ListExpiredMeaning(s: State, now: nat, probe: Id)
    requires Inv(s) && now < WORD
    ensures var (s', fired) := ListExpired(s, now, probe);
            && Inv(s')
            && fired <= s.order && Distinct(fired)
            && (forall id | id in s.order :: id in fired <==> Due(s, now, probe, id))
            && (forall id | id in s.timers ::
                  s'.timers[id] == if id in fired then Settled(s.timers[id], now) else s.timers[id])
            && (forall id :: id in s'.order <==> id in s.order && (id in fired ==> s.timers[id].recurring))
            && s'.tickled == s.tickled
            && s'.previous == if s.order == [] then s.previous else now
  {
    ExpiredIsDue(s, now, probe);
    if s.order != [] {
      if !Rollover(s.previous, now) && s.timers[s.order[0]].next > now {
        assert !Due(s, now, probe, s.order[0]);
        assert forall k | 0 <= k < |s.order| :: !Due(s, now, probe, s.order[k]);
      } else {
        var n := Expired(s, now, probe);
        FrontSplit(s.timers, s.order, n);
        SettleProperties(s.timers, s.order[n..], s.order[..n], now);
        SettledInv(s, n, now);
      }
    }
  }

  /** The set invariant after the first `n` timers have been settled. */
  lemma {:induction false} SettledInv(s: State, n: nat, now: nat)
    requires Inv(s) && n <= |s.order|
    requires Known(s.timers, s.order[n..]) && Known(s.timers, s.order[..n])
    ensures var (timers, order) := Settle(s.timers, s.order[n..], s.order[..n], now);
            && (forall id | id in timers :: timers[id].cb.Some? <==> id in order)
            && (forall id | id in timers :: timers[id].next < WORD)
  {
    FrontSplit(s.timers, s.order, n);
    SettleProperties(s.timers, s.order[n..], s.order[..n], now);
  }

  lemma ExpiredIsDue(s: State, now: nat, probe: Id)
    requires Inv(s)
    ensures forall k | 0 <= k < |s.order| :: k < Expired(s, now, probe) <==> Due(s, now, probe, s.order[k])
  {
    var n := Expired(s, now, probe);
    forall k | 0 <= k < |s.order|
      ensures k < n <==> Due(s, now, probe, s.order[k])
    {
      if k > n {
        assert KeyOf(s.timers, s.order[n]).Less(KeyOf(s.timers, s.order[k]));
      }
    }
  }

  lemma FrontSplit(timers: map<Id, Timer>, order: seq<Id>, n: nat)
    requires Known(timers, order) && Sorted(timers, order) && n <= |order|
    ensures Known(timers, order[n..]) && Sorted(timers, order[n..]) && Known(timers, order[..n])
    ensures Distinct(order[..n]) && forall x | x in order[..n] :: x !in order[n..]
    ensures forall x :: x in order <==> x in order[..n] || x in order[n..]
  {
    SortedDistinct(timers, order);
    assert order == order[..n] + order[n..];
  }

  /** The callbacks handed out are those of the timers that expired, and none is null. */
  lemma CallbacksOfExpired(s: State, now: nat, probe: Id)
    requires Inv(s) && now < WORD
    ensures var fired := ListExpired(s, now, probe).1;
            var cbs := ExpiredCallbacks(s, now, probe);
            |cbs| == |fired| &&
            forall k | 0 <= k < |fired| :: fired[k] in s.timers && cbs[k] == s.timers[fired[k]].cb && cbs[k].Some?
  {
    var n := Expired(s, now, probe);
    FrontSplit(s.timers, s.order, n);
    CollectedCallbacks([], s.timers, s.order[n..], s.order[..n], now);
    hide Collected, Sorted, Settle;
    assert forall id | id in s.order :: s.timers[id].cb.Some?;
  }

  /** If no new deadline wraps, nothing that is left after expiry is overdue, and a recurring
      timer that fired is due one period from now. */
  lemma NothingOverdueLeft(s: State, now: nat, probe: Id)
    requires Inv(s) && now < WORD
    requires forall id | id in s.order && s.timers[id].recurring :: now + s.timers[id].ms < WORD
    ensures var (s', fired) := ListExpired(s, now, probe);
            && (forall id | id in s'.order :: s'.timers[id].next >= now)
            && (forall id | id in fired && s.timers[id].recurring ::
                  id in s'.order && s'.timers[id].next == now + s.timers[id].ms)
  {
    ListExpiredMeaning(s, now, probe);
    hide ListExpired, Sorted, Distinct, Rollover;
    var (s', fired) := ListExpired(s, now, probe);
    forall id | id in s'.order
      ensures s'.timers[id].next >= now
      ensures id in fired ==> s'.timers[id].next == now + s.timers[id].ms
    {
      assert id in s.order && id in s.timers;
    }
  }

  // ---- Runs ----

  datatype Op =
    | OAdd(id: Id, ms: nat, cb: Callback, recurring: bool, created: nat)
    | OCancel(id: Id)
    | ORefresh(id: Id)
    | OReset(id: Id, ms: nat, fromNow: bool)
    | ONext
    | OExpire(probe: Id)

  /** One operation under the lock, and the time it reads from the clock. */
  datatype Step = Step(op: Op, now: nat)

  /** What an operation shows: the timers whose callbacks it hands out, and whether it called
      `onTimerInsertedAtFront`. */
  datatype Event = Event(fired: seq<Id>, notified: bool)

  /** A timer is made at a fresh address; the other operations are on timers that exist. */
  ghost predicate Enabled(s: State, st: Step) {
    && st.now < WORD
    && match st.op
       case OAdd(id, _, _, _, created) => id !in s.timers && created <= st.now
       case OCancel(id) => id in s.timers
       case ORefresh(id) => id in s.timers
       case OReset(id, _, _) => id in s.timers
       case ONext => true
       case OExpire(probe) => true
  }

  function Apply(s: State, st: Step): (State, Event)
    requires Known(s.timers, s.order) && Enabled(s, st)
  {
    match st.op
    case OAdd(id, ms, cb, recurring, created) =>
      var (s', notify) := Add(s, id, created, ms, cb, recurring);
      (s', Event([], notify))
    case OCancel(id) => (Cancel(s, id).0, Event([], false))
    case ORefresh(id) => (Refresh(s, id, st.now).0, Event([], false))
    case OReset(id, ms, fromNow) => (Reset(s, id, ms, fromNow, st.now).0, Event([], false))
    case ONext => (GetNext(s, st.now).0, Event([], false))
    case OExpire(probe) =>
      var (s', fired) := ListExpired(s, st.now, probe);
      (s', Event(fired, false))
  }

  lemma ApplyKeepsInv(s: State, st: Step)
    requires Inv(s) && Enabled(s, st)
    ensures Inv(Apply(s, st).0)
  {
    match st.op {
      case OAdd(id, ms, cb, recurring, created) =>
        AddKeepsInv(s, id, created, ms, cb, recurring);
        assert Apply(s, st).0 == Add(s, id, created, ms, cb, recurring).0;
      case OCancel(id) =>
        CancelKeepsInv(s, id);
        assert Apply(s, st).0 == Cancel(s, id).0;
      case ORefresh(id) =>
        RearmKeepsInv(s, id, Refreshed(s.timers[id], st.now));
      case OReset(id, ms, fromNow) =>
        RearmKeepsInv(s, id, Retimed(s.timers[id], ms, fromNow, st.now));
      case ONext =>
      case OExpire(probe) =>
        ListExpiredMeaning(s, st.now, probe);
        assert Apply(s, st).0 == ListExpired(s, st.now, probe).0;
    }
  }

  /** A run is legal when each step is enabled in the state it meets. */
  ghost predicate Legal(s: State, run: seq<Step>)
    requires Inv(s)
    decreases run
  {
    run == [] ||
    (Enabled(s, run[0]) && (ApplyKeepsInv(s, run[0]); Legal(Apply(s, run[0]).0, run[1..])))
  }

  ghost function After(s: State, run: seq<Step>): (s': State)
    requires Inv(s) && Legal(s, run)
    ensures Inv(s')
    decreases run
  {
    if run == [] then s
    else
      ApplyKeepsInv(s, run[0]);
      After(Apply(s, run[0]).0, run[1..])
  }

  /** The timers whose callbacks the run hands out, in order. */
  ghost function Fired(s: State, run: seq<Step>): seq<Id>
    requires Inv(s) && Legal(s, run)
    decreases run
  {
    if run == [] then []
    else
      ApplyKeepsInv(s, run[0]);
      Apply(s, run[0]).1.fired + Fired(Apply(s, run[0]).0, run[1..])
  }

  /** How often the run calls `onTimerInsertedAtFront`. */
  ghost function Notifications(s: State, run: seq<Step>): nat
    requires Inv(s) && Legal(s, run)
    decreases run
  {
    if run == [] then 0
    else
      ApplyKeepsInv(s, run[0]);
      (if Apply(s, run[0]).1.notified then 1 else 0) + Notifications(Apply(s, run[0]).0, run[1..])
  }

  // ---- What the operations do ----

  /** The set is in the order of the deadlines, and of the addresses where those are equal. */
  lemma OrderMeaning(s: State, k: nat, l: nat)
    requires Inv(s) && k < l < |s.order|
    ensures var (a, b) := (s.order[k], s.order[l]);
            && a in s.timers && b in s.timers
            && (s.timers[a].next < s.timers[b].next || (s.timers[a].next == s.timers[b].next && a < b))
  {
    assert KeyOf(s.timers, s.order[k]).Less(KeyOf(s.timers, s.order[l]));
  }

  /** `refresh` puts the deadline of an armed timer one period behind now, in a 64-bit word, and changes
      nothing else; to a disarmed timer it does nothing. */
  lemma RefreshMeaning(s: State, id: Id, now: nat)
    requires Inv(s) && id in s.timers && now < WORD
    ensures var (s', r) := Refresh(s, id, now);
            && r == s.timers[id].cb.Some? && Inv(s')
            && (!r ==> s' == s)
            && (r ==> var t := s.timers[id].(next := (now + s.timers[id].ms) % 0x1_0000_0000_0000_0000);
                      s' == s.(timers := s.timers[id := t], order := s'.order))
            && (forall x :: x in s'.order <==> x in s.order)
            && Apply(s, Step(ORefresh(id), now)) == (s', Event([], false))
  {
    hide Rearm, Sorted;
    RearmKeepsInv(s, id, Refreshed(s.timers[id], now));
  }

  lemma WrapTwice(a: int, b: int, m: nat)
    requires m > 0
    ensures (a % m + b) % m == (a + b) % m
  {
    var (q, r) := (a / m, a % m);
    var (q', r') := ((r + b) / m, (r + b) % m);
    assert a + b == m * (q + q') + r';
    RemainderIs(a + b, m, q + q', r');
  }

  lemma RemainderIs(x: int, m: nat, q: int, r: nat)
    requires r < m && x == m * q + r
    ensures x % m == r
  {
    var (q', r') := (x / m, x % m);
    var d := q' - q;
    assert m * q' == m * q + m * d;
    assert m * d == r - r';
    Multiples(m, d);
  }

  lemma {:induction false} Multiples(m: nat, d: int)
    ensures d > 0 ==> m * d >= m
    ensures d < 0 ==> m * d + m <= 0
    decreases if d < 0 then -d else d
  {
    if d > 1 {
      Multiples(m, d - 1);
      assert m * d == m * (d - 1) + m;
    } else if d < -1 {
      Multiples(m, d + 1);
      assert m * d == m * (d + 1) - m;
    }
  }

  /** `reset` of the same period, not from now, does nothing. Otherwise an armed timer gets the period,
      and its deadline moves to one period behind now, or by the difference of the periods. */
  lemma ResetMeaning(s: State, id: Id, ms: nat, fromNow: bool, now: nat)
    requires Inv(s) && id in s.timers && now < WORD
    ensures var (s', r) := Reset(s, id, ms, fromNow, now);
            var t := s.timers[id];
            var same := ms == t.ms && !fromNow;
            && r == (same || t.cb.Some?) && Inv(s')
            && (same || !r ==> s' == s)
            && (!same && r ==>
                  s' == s.(timers := s.timers[id := t.(ms := ms,
                                                       next := (if fromNow then now + ms else t.next - t.ms + ms)
                                                               % 0x1_0000_0000_0000_0000)],
                           order := s'.order))
            && (forall x :: x in s'.order <==> x in s.order)
            && Apply(s, Step(OReset(id, ms, fromNow), now)) == (s', Event([], false))
  {
    hide Rearm, Sorted, Known;
    WrapTwice(s.timers[id].next - s.timers[id].ms, ms, WORD);
    RearmKeepsInv(s, id, Retimed(s.timers[id], ms, fromNow, now));
  }

  /** `getNextTimer` clears the flag and answers all ones when nothing is armed, and otherwise the time
      to the first deadline, or zero when that is past. */
  lemma GetNextMeaning(s: State, now: nat)
    requires Inv(s) && now < WORD
    ensures var (s', r) := GetNext(s, now);
            && s' == s.(tickled := false)
            && (s.order == [] ==> r == 0xFFFF_FFFF_FFFF_FFFF)
            && (s.order != [] ==>
                  var next := s.timers[s.order[0]].next; r == if next < now then 0 else next - now)
            && Apply(s, Step(ONext, now)) == (s', Event([], false))
  {
  }

  /** The clock has been turned back: by more than an hour, or at all in its first hour. */
  lemma RolloverMeaning(previous: nat, now: nat)
    requires previous < WORD && now < WORD
    ensures Rollover(previous, now) <==>
            if previous >= 3_600_000 then now < previous - 3_600_000 else now < previous
  {
    var back := previous - HOUR;
    if back < 0 {
      RemainderIs(back, WORD, -1, back + WORD);
    } else {
      RemainderIs(back, WORD, 0, back);
    }
  }

  /** `listExpiredCb` fires the timers that are due before now, those due exactly now at addresses below
      the probe's, and all of them when the clock has been turned back. A recurring timer is due again
      one period from now, a one-shot is disarmed, and no other timer changes. */
  lemma ExpiryMeaning(s: State, now: nat, probe: Id)
    requires Inv(s) && now < WORD && s.previous < WORD
    ensures var (s', fired) := ListExpired(s, now, probe);
            var back := if s.previous >= 3_600_000 then now < s.previous - 3_600_000 else now < s.previous;
            && (forall id | id in s.order ::
                  id in fired <==>
                  back || s.timers[id].next < now || (s.timers[id].next == now && id < probe))
            && (forall id | id in s.timers ::
                  s'.timers[id] == (var t := s.timers[id];
                                    if id !in fired then t
                                    else if t.recurring then t.(next := (now + t.ms) % 0x1_0000_0000_0000_0000)
                                    else t.(cb := None)))
            && (forall id :: id in s'.order <==> id in s.order && (id in fired ==> s.timers[id].recurring))
            && Apply(s, Step(OExpire(probe), now)) == (s', Event(fired, false))
  {
    hide ListExpired, Sorted, Rollover;
    RolloverMeaning(s.previous, now);
    ListExpiredMeaning(s, now, probe);
    assert forall id | id in s.order :: id in s.timers && (Due(s, now, probe, id) <==>
        Rollover(s.previous, now) || s.timers[id].next < now || (s.timers[id].next == now && id < probe));
  }

  /** Adding and cancelling as steps of a run. */
  lemma {:induction false} AddAndCancelAreSteps(s: State, st: Step)
    requires Inv(s) && Enabled(s, st)
    ensures st.op.OAdd? ==>
              var (s', notify) := Add(s, st.op.id, st.op.created, st.op.ms, st.op.cb, st.op.recurring);
              Apply(s, st) == (s', Event([], notify))
    ensures st.op.OCancel? ==> Apply(s, st) == (Cancel(s, st.op.id).0, Event([], false))
  {
  }

  // ---- Delivery over runs ----

  lemma StepDelivery(s: State, st: Step, id: Id)
    requires Inv(s) && Enabled(s, st) && id in s.timers
    ensures var (s', e) := Apply(s, st);
            && id in s'.timers && s'.timers[id].recurring == s.timers[id].recurring
            && Distinct(e.fired)
            && (s.timers[id].cb.None? ==> s'.timers[id].cb.None? && id !in e.fired)
            && (!s.timers[id].recurring && id in e.fired ==> s'.timers[id].cb.None?)
  {
    match st.op
    case OAdd(x, ms, cb, recurring, created) => AddKeepsInv(s, x, created, ms, cb, recurring);
    case OCancel(x) => CancelKeepsInv(s, x);
    case ORefresh(x) => RearmKeepsInv(s, x, Refreshed(s.timers[x], st.now));
    case OReset(x, ms, fromNow) => RearmKeepsInv(s, x, Retimed(s.timers[x], ms, fromNow, st.now));
    case ONext =>
    case OExpire(probe) => ListExpiredMeaning(s, st.now, probe);
  }

  /** A disarmed timer is never delivered again, whatever happens. */
  lemma {:induction false} DisarmedNeverFires(s: State, run: seq<Step>, id: Id)
    requires Inv(s) && Legal(s, run) && id in s.timers && s.timers[id].cb.None?
    ensures id !in Fired(s, run)
    decreases run
  {
    if run != [] {
      StepDelivery(s, run[0], id);
      ApplyKeepsInv(s, run[0]);
      DisarmedNeverFires(Apply(s, run[0]).0, run[1..], id);
    }
  }

  /** When `cancel` answers true, the callback is not delivered afterwards. */
  lemma {:induction false} CancelIsFinal(s: State, id: Id, run: seq<Step>)
    requires Inv(s) && id in s.timers && Cancel(s, id).1 == Some(true)
    requires Inv(Cancel(s, id).0) && Legal(Cancel(s, id).0, run)
    ensures id !in Fired(Cancel(s, id).0, run)
  {
    CancelKeepsInv(s, id);
    DisarmedNeverFires(Cancel(s, id).0, run, id);
  }

  lemma {:induction false} OnceInDistinct(ids: seq<Id>, id: Id)
    requires Distinct(ids)
    ensures multiset(ids)[id] <= 1
  {
    if ids != [] {
      OnceInDistinct(ids[1..], id);
      assert ids == [ids[0]] + ids[1..];
      assert ids[0] !in ids[1..];
    }
  }

  /** A one-shot timer is delivered at most once in any run. */
  lemma {:induction false} OneShotFiresOnce(s: State, run: seq<Step>, id: Id)
    requires Inv(s) && Legal(s, run) && id in s.timers && !s.timers[id].recurring
    ensures multiset(Fired(s, run))[id] <= 1
    decreases run
  {
    if run != [] {
      var (s', e) := Apply(s, run[0]);
      StepDelivery(s, run[0], id);
      ApplyKeepsInv(s, run[0]);
      OneShotFiresOnce(s', run[1..], id);
      OnceInDistinct(e.fired, id);
      assert multiset(Fired(s, run)) == multiset(e.fired) + multiset(Fired(s', run[1..]));
      if id in e.fired {
        DisarmedNeverFires(s', run[1..], id);
      }
    }
  }

  // ---- Wake-ups over runs ----

  /** `getNextTimer` at time `now` tells how long to sleep: no deadline falls inside the sleep,
      and it ends at a deadline unless one is due already. */
  lemma SleepUntilEarliest(s: State, now: nat)
    requires Inv(s) && s.order != [] && now < WORD
    ensures var r := GetNext(s, now).1;
            && (forall id | id in s.order :: id in s.timers && !(now < s.timers[id].next < now + r))
            && (exists id :: id in s.order && if r == 0 then s.timers[id].next <= now else s.timers[id].next == now + r)
            && (r == 0 <==> exists id :: id in s.order && s.timers[id].next <= now)
  {
    SortedDistinct(s.timers, s.order);
    assert s.order[0] in s.order;
  }

  /** The earliest deadline of the set, out of range when there is none. */
  function Earliest(s: State): nat
    requires Known(s.timers, s.order)
  {
    if s.order == [] then WORD else s.timers[s.order[0]].next
  }

  /** Every armed timer was last armed at some time up to now. */
  ghost predicate ArmedInThePast(s: State, now: nat)
    requires Known(s.timers, s.order)
  {
    forall id | id in s.order :: id in s.timers && s.timers[id].ms <= s.timers[id].next <= now + s.timers[id].ms
  }

  /** The sleeper that saw `bound` has been called exactly once, or nothing it would have
      to wake for earlier is in the set. */
  ghost predicate Watched(s: State, bound: nat, calls: nat)
    requires Known(s.timers, s.order)
  {
    && calls <= 1
    && (s.tickled <==> calls == 1)
    && (calls == 0 ==> forall id | id in s.order :: id in s.timers && s.timers[id].next >= bound)
  }

  /** The steps between two calls of `getNextTimer` on a clock that does not go back, with no
      deadline past the end of the word. `reset` does not notify: it may only move a
      deadline that nobody waits for, or not before `bound`. */
  ghost predicate Tame(s: State, st: Step, clock: nat, bound: nat)
    requires Known(s.timers, s.order) && Enabled(s, st)
  {
    && clock <= st.now
    && match st.op
       case OAdd(_, ms, _, _, created) => created + ms < WORD
       case OCancel(_) => true
       case ORefresh(id) => st.now + s.timers[id].ms < WORD
       case OReset(id, ms, fromNow) =>
         && st.now + ms < WORD
         && (s.tickled || s.timers[id].cb.None? || Retimed(s.timers[id], ms, fromNow, st.now).next >= bound)
       case ONext => false
       case OExpire(_) => forall id | id in s.order :: id in s.timers && st.now + s.timers[id].ms < WORD
  }

  ghost predicate TameRun(s: State, run: seq<Step>, clock: nat, bound: nat)
    requires Inv(s) && Legal(s, run)
    decreases run
  {
    run == [] ||
    (Tame(s, run[0], clock, bound) &&
     (ApplyKeepsInv(s, run[0]); TameRun(Apply(s, run[0]).0, run[1..], run[0].now, bound)))
  }

  /** The state between the calls of `getNextTimer`. */
  ghost predicate Watching(s: State, clock: nat, bound: nat, calls: nat) {
    && Inv(s) && s.previous <= clock
    && ArmedInThePast(s, clock)
    && Watched(s, bound, calls)
  }

  lemma WatchAdd(s: State, id: Id, created: nat, ms: nat, cb: Callback, recurring: bool,
                 clock: nat, now: nat, bound: nat, calls: nat)
    requires Watching(s, clock, bound, calls) && id !in s.timers
    requires clock <= now && created <= now && created + ms < WORD
    ensures var (s', notify) := Add(s, id, created, ms, cb, recurring);
            Watching(s', now, bound, calls + if notify then 1 else 0)
  {
    hide Add, Sorted, Watched;
    AddKeepsInv(s, id, created, ms, cb, recurring);
    var (s', notify) := Add(s, id, created, ms, cb, recurring);
    AddedWatch(s, s', id, bound, calls, notify);
    forall x | x in s'.order
      ensures x in s'.timers && s'.timers[x].ms <= s'.timers[x].next <= now + s'.timers[x].ms
    {
      assert x == id || x in s.order;
    }
  }

  /** A new timer that is not announced is not due before the bound. */
  lemma AddedWatch(s: State, s': State, id: Id, bound: nat, calls: nat, notify: bool)
    requires Known(s.timers, s.order) && Known(s'.timers, s'.order) && id in s'.timers && id !in s.timers
    requires s'.timers == s.timers[id := s'.timers[id]]
    requires forall x :: x in s'.order <==> x == id || x in s.order
    requires s'.tickled == (s.tickled || notify)
    requires notify <==>
             (!s.tickled && forall x | x in s.order :: x in s.timers && KeyOf(s'.timers, id).Less(KeyOf(s.timers, x)))
    requires Watched(s, bound, calls)
    ensures Watched(s', bound, calls + if notify then 1 else 0)
  {
    if !notify && !s.tickled {
      forall x | x in s'.order
        ensures x in s'.timers && s'.timers[x].next >= bound
      {
        assert x == id || x in s.order;
      }
    }
  }

  lemma WatchRearm(s: State, id: Id, t: Timer, clock: nat, now: nat, bound: nat, calls: nat)
    requires Watching(s, clock, bound, calls) && id in s.timers
    requires t.next < WORD && t.cb == s.timers[id].cb
    requires clock <= now && t.ms <= t.next <= now + t.ms
    requires s.tickled || t.cb.None? || t.next >= bound
    ensures Watching(Rearm(s, id, t).0, now, bound, calls)
  {
    RearmKeepsInv(s, id, t);
    assert forall x | x in s.order :: x in s.timers;
  }

  lemma WatchCancel(s: State, id: Id, clock: nat, now: nat, bound: nat, calls: nat)
    requires Watching(s, clock, bound, calls) && id in s.timers && clock <= now
    ensures Watching(Cancel(s, id).0, now, bound, calls)
  {
    CancelKeepsInv(s, id);
    assert forall x | x in s.order :: x in s.timers;
  }

  lemma ExpireMovesLater(s: State, probe: Id, clock: nat, now: nat, id: Id)
    requires Inv(s) && ArmedInThePast(s, clock) && clock <= now < WORD
    requires forall x | x in s.order :: x in s.timers && now + s.timers[x].ms < WORD
    requires id in ListExpired(s, now, probe).0.order
    ensures var s' := ListExpired(s, now, probe).0;
            && id in s.order && id in s.timers && id in s'.timers
            && s'.timers[id].ms == s.timers[id].ms <= s'.timers[id].next
            && s.timers[id].next <= s'.timers[id].next <= now + s.timers[id].ms
  {
    hide ListExpired, Sorted;
    ListExpiredMeaning(s, now, probe);
  }

  lemma WatchExpire(s: State, probe: Id, clock: nat, now: nat, bound: nat, calls: nat)
    requires Watching(s, clock, bound, calls) && clock <= now < WORD
    requires forall id | id in s.order :: id in s.timers && now + s.timers[id].ms < WORD
    ensures Watching(ListExpired(s, now, probe).0, now, bound, calls)
  {
    var s' := ListExpired(s, now, probe).0;
    assert Inv(s') && s'.tickled == s.tickled && s'.previous <= now by {
      ListExpiredMeaning(s, now, probe);
    }
    forall id | id in s'.order
      ensures s'.timers[id].ms <= s'.timers[id].next <= now + s'.timers[id].ms
      ensures calls == 0 ==> s'.timers[id].next >= bound
    {
      ExpireMovesLater(s, probe, clock, now, id);
    }
  }

  /** The deadline of `reset` counts from a time that is not in the future. */
  lemma RetimedCounts(t: Timer, ms: nat, fromNow: bool, clock: nat, now: nat)
    requires t.ms <= t.next <= clock + t.ms && t.next < WORD && clock <= now && now + ms < WORD
    ensures ms <= Retimed(t, ms, fromNow, now).next <= now + ms
  {
  }

  lemma WatchStep(s: State, st: Step, clock: nat, bound: nat, calls: nat)
    requires Watching(s, clock, bound, calls) && Enabled(s, st) && Tame(s, st, clock, bound)
    ensures var (s', e) := Apply(s, st);
            Watching(s', st.now, bound, calls + if e.notified then 1 else 0)
  {
    match st.op {
      case OAdd(id, ms, cb, recurring, created) =>
        WatchAdd(s, id, created, ms, cb, recurring, clock, st.now, bound, calls);
      case OCancel(id) =>
        WatchCancel(s, id, clock, st.now, bound, calls);
      case ORefresh(id) =>
        WatchRefresh(s, id, clock, st.now, bound, calls);
      case OReset(id, ms, fromNow) =>
        WatchReset(s, id, ms, fromNow, clock, st.now, bound, calls);
      case OExpire(probe) =>
        WatchExpire(s, probe, clock, st.now, bound, calls);
    }
  }

  lemma WatchRefresh(s: State, id: Id, clock: nat, now: nat, bound: nat, calls: nat)
    requires Watching(s, clock, bound, calls) && id in s.timers && clock <= now
    requires now + s.timers[id].ms < WORD
    ensures Watching(Refresh(s, id, now).0, now, bound, calls)
  {
    var t := Refreshed(s.timers[id], now);
    WatchRearm(s, id, t, clock, now, bound, calls);
  }

  lemma WatchReset(s: State, id: Id, ms: nat, fromNow: bool, clock: nat, now: nat, bound: nat, calls: nat)
    requires Watching(s, clock, bound, calls) && id in s.timers && clock <= now && now + ms < WORD
    requires s.tickled || s.timers[id].cb.None? || Retimed(s.timers[id], ms, fromNow, now).next >= bound
    ensures Watching(Reset(s, id, ms, fromNow, now).0, now, bound, calls)
  {
    if !(ms == s.timers[id].ms && !fromNow) && s.timers[id].cb.Some? {
      RetimedCounts(s.timers[id], ms, fromNow, clock, now);
      WatchRearm(s, id, Retimed(s.timers[id], ms, fromNow, now), clock, now, bound, calls);
    }
  }

  /** The time of the last step of a run that starts at `clock`. */
  function Last(run: seq<Step>, clock: nat): nat {
    if run == [] then clock else Last(run[1..], run[0].now)
  }

  /** No missed wake-up. From a state in which `getNextTimer` has just been called, after
      any tame run the sleeper has been notified, or every deadline in the set is still
      at or behind the earliest one it saw; and it is notified at most once. */
  lemma {:induction false} NoMissedWakeUp(s: State, run: seq<Step>, clock: nat, bound: nat, calls: nat)
    requires Watching(s, clock, bound, calls) && Legal(s, run) && TameRun(s, run, clock, bound)
    ensures Watching(After(s, run), Last(run, clock), bound, calls + Notifications(s, run))
    decreases run
  {
    if run != [] {
      WatchStep(s, run[0], clock, bound, calls);
      ApplyKeepsInv(s, run[0]);
      var (s', e) := Apply(s, run[0]);
      NoMissedWakeUp(s', run[1..], run[0].now, bound, calls + if e.notified then 1 else 0);
    }
  }

  /** The same from the call of `getNextTimer` on. */
  lemma {:induction false} WakeUpAfterGetNext(s: State, now: nat, run: seq<Step>)
    requires OnTime(s, now)
    requires Inv(GetNext(s, now).0) && Legal(GetNext(s, now).0, run)
    requires TameRun(GetNext(s, now).0, run, now, Earliest(s))
    ensures var s1 := GetNext(s, now).0;
            var s2 := After(s1, run);
            && Notifications(s1, run) <= 1
            && (Notifications(s1, run) == 0 ==>
                  forall id | id in s2.order :: id in s2.timers && s2.timers[id].next >= Earliest(s))
            && OnTime(s2, Last(run, now))
  {
    SortedDistinct(s.timers, s.order);
    NoMissedWakeUp(GetNext(s, now).0, run, now, Earliest(s), 0);
  }

  // ---- From the start, over any number of intervals ----

  /** What every state of a forward clock has: no deadline counts from the future. */
  ghost predicate OnTime(s: State, clock: nat) {
    Inv(s) && s.previous <= clock && ArmedInThePast(s, clock)
  }

  /** A step on a clock that does not go back, with no deadline past the end of the word. `reset` may
      move a deadline anywhere, and `getNextTimer` may be called. */
  ghost predicate Steady(s: State, st: Step, clock: nat)
    requires Known(s.timers, s.order) && Enabled(s, st)
  {
    if st.op.ONext? then clock <= st.now else Tame(s, st, clock, 0)
  }

  ghost predicate SteadyRun(s: State, run: seq<Step>, clock: nat)
    requires Inv(s) && Legal(s, run)
    decreases run
  {
    run == [] ||
    (Steady(s, run[0], clock) &&
     (ApplyKeepsInv(s, run[0]); SteadyRun(Apply(s, run[0]).0, run[1..], run[0].now)))
  }

  lemma StepStaysOnTime(s: State, st: Step, clock: nat)
    requires OnTime(s, clock) && Enabled(s, st) && Steady(s, st, clock)
    ensures OnTime(Apply(s, st).0, st.now)
  {
    if !st.op.ONext? {
      WatchStep(s, st, clock, 0, if s.tickled then 1 else 0);
    }
  }

  lemma {:induction false} RunStaysOnTime(s: State, run: seq<Step>, clock: nat)
    requires OnTime(s, clock) && Legal(s, run) && SteadyRun(s, run, clock)
    ensures OnTime(After(s, run), Last(run, clock))
    decreases run
  {
    if run != [] {
      StepStaysOnTime(s, run[0], clock);
      ApplyKeepsInv(s, run[0]);
      RunStaysOnTime(Apply(s, run[0]).0, run[1..], run[0].now);
    }
  }

  /** A manager made at time `t`. */
  function New(t: nat): (s: State)
    ensures Inv(s)
  {
    State(map[], [], false, t)
  }

  lemma {:induction false} OneStep(s: State, st: Step, rest: seq<Step>, run: seq<Step>)
    requires Inv(s) && Enabled(s, st) && Inv(Apply(s, st).0) && Legal(Apply(s, st).0, rest) && run == [st] + rest
    ensures Legal(s, run) && Fired(s, run) == Apply(s, st).1.fired + Fired(Apply(s, st).0, rest)
  {
    assert run[1..] == rest;
  }

  lemma {:induction false} AddToNew(ms: nat, cb: Callback, recurring: bool)
    requires ms < WORD
    ensures var add := Step(OAdd(1, ms, cb, recurring, 0), 0);
            && Enabled(New(0), add)
            && Apply(New(0), add).1.fired == []
            && var s := Apply(New(0), add).0;
               Inv(s) && s.order == [1] && s.previous == 0 && s.timers == map[1 := Timer(recurring, ms, ms, Some(cb))]
  {
    AddKeepsInv(New(0), 1, 0, ms, cb, recurring);
    var timers := map[1 := Timer(recurring, ms, ms, Some(cb))];
    assert Insert(timers, [], 1) == [1];
  }

  lemma {:induction false} ExpiresAlone(s: State, now: nat)
    requires Inv(s) && s.order == [1] && s.previous == 0 && 1 in s.timers && s.timers[1].next == now < WORD
    ensures Enabled(s, Step(OExpire(2), now)) && Inv(Apply(s, Step(OExpire(2), now)).0)
    ensures Apply(s, Step(OExpire(2), now)).1.fired == [1]
  {
    hide ListExpired;
    ExpiryMeaning(s, now, 2);
    ListExpiredMeaning(s, now, 2);
    var fired := ListExpired(s, now, 2).1;
    assert 1 in s.order && 1 in fired;
  }

  /** A timer that is added and not touched fires when its period is over. */
  lemma {:induction false} ATimerFires(ms: nat, cb: Callback, recurring: bool)
    requires ms < WORD
    ensures var run := [Step(OAdd(1, ms, cb, recurring, 0), 0), Step(OExpire(2), ms)];
            Legal(New(0), run) && Fired(New(0), run) == [1]
  {
    hide Apply, Inv, Legal, Fired, Enabled;
    var (add, expire) := (Step(OAdd(1, ms, cb, recurring, 0), 0), Step(OExpire(2), ms));
    AddToNew(ms, cb, recurring);
    var s := Apply(New(0), add).0;
    ExpiresAlone(s, ms);
    NothingFires(Apply(s, expire).0);
    OneStep(s, expire, [], [expire]);
    OneStep(New(0), add, [expire], [add, expire]);
  }

  lemma {:induction false} NothingFires(s: State)
    requires Inv(s)
    ensures Legal(s, []) && Fired(s, []) == []
  {
  }

  /** No wake-up is ever missed: after any past of a manager, with any number of calls of
      `getNextTimer` in it, the next call starts an interval in which the sleeper is notified at most
      once, and if it is not, nothing is due before the deadline it saw. */
  lemma {:induction false} NoIntervalMissesAWakeUp(t: nat, past: seq<Step>, now: nat, run: seq<Step>)
    requires Legal(New(t), past) && SteadyRun(New(t), past, t) && Last(past, t) <= now < WORD
    requires var s1 := GetNext(After(New(t), past), now).0;
             Inv(s1) && Legal(s1, run) && TameRun(s1, run, now, Earliest(After(New(t), past)))
    ensures var s := After(New(t), past);
            var s1 := GetNext(s, now).0;
            var s2 := After(s1, run);
            && Notifications(s1, run) <= 1
            && (Notifications(s1, run) == 0 ==>
                  forall id | id in s2.order :: id in s2.timers && s2.timers[id].next >= Earliest(s))
  {
    RunStaysOnTime(New(t), past, t);
    WakeUpAfterGetNext(After(New(t), past), now, run);
  }

  /** `reset` keeps the watch exactly when it moves no awaited deadline before the bound. */
  lemma ResetKeepsWatchIff(s: State, st: Step, bound: nat)
    requires Inv(s) && st.op.OReset? && Enabled(s, st) && Watched(s, bound, if s.tickled then 1 else 0)
    requires !(st.op.ms == s.timers[st.op.id].ms && !st.op.fromNow)
    ensures var s' := Apply(s, st).0;
            && Known(s'.timers, s'.order)
            && (Watched(s', bound, if s.tickled then 1 else 0) <==>
                  s.tickled || s.timers[st.op.id].cb.None? ||
                  Retimed(s.timers[st.op.id], st.op.ms, st.op.fromNow, st.now).next >= bound)
  {
    var id := st.op.id;
    RearmKeepsInv(s, id, Retimed(s.timers[id], st.op.ms, st.op.fromNow, st.now));
    ApplyKeepsInv(s, st);
  }

  /** One armed timer with deadline 100, for which the sleeper waits; at time 0 it is reset to ten
      milliseconds from now. Nobody is notified, and it is due before the sleeper wakes. */
  lemma ResetMissesAWakeUp()
    ensures var s := State(map[1 := Timer(false, 100, 100, Some(0))], [1], false, 0);
            var st := Step(OReset(1, 10, true), 0);
            && Inv(s) && Watched(s, 100, 0) && Enabled(s, st)
            && var (s', e) := Apply(s, st);
               && !e.notified && Known(s'.timers, s'.order) && !Watched(s', 100, 0)
               && 1 in s'.timers && s'.timers[1].next == 10
  {
    var s := State(map[1 := Timer(false, 100, 100, Some(0))], [1], false, 0);
    var st := Step(OReset(1, 10, true), 0);
    assert Inv(s) && Watched(s, 100, 0);
    ResetKeepsWatchIff(s, st, 100);
    RearmKeepsInv(s, 1, Retimed(s.timers[1], 10, true, 0));
  }
}
