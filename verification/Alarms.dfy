/**
 Alarms on a 32-bit tick counter, checked against a clock that never wraps. `now` is the unbounded
 number of ticks since reset; the program only sees `now % WRAP`.
 */
module Alarms {
  import opened Options

  const WRAP: nat := 0x1_0000_0000

  /** The fields of an alarm that the scheduler uses; `id` stands for the structure's address. */
  datatype Alarm = Alarm(id: nat, time: nat, rollover: bool)

  /** What the callbacks return: the interval to the next call, or zero, per alarm and tick. */
  type Callbacks = (nat, nat) -> nat

  ghost predicate Words(cb: Callbacks) { forall id, now :: cb(id, now) < WRAP }

  // ----- The program's steps on one alarm -----

  /** alt_alarm_start: due nticks + 1 ticks from now, with the rollover flag for a time in the past. */
  function Started(id: nat, nticks: nat, counter: nat): Alarm {
    var time := (nticks + counter + 1) % WRAP;
    Alarm(id, time, time < counter)
  }

  /** The rollover flag is cleared when the counter wraps. */
  function Cleared(a: Alarm, counter: nat): Alarm {
    if a.rollover && counter == 0 then a.(rollover := false) else a
  }

  predicate Expired(a: Alarm, counter: nat) { a.time <= counter && !a.rollover }

  /** A fired alarm whose callback asked for another call. */
  function Rearmed(a: Alarm, counter: nat, interval: nat): Alarm {
    var time := (a.time + interval) % WRAP;
    Alarm(a.id, time, if time < counter then true else a.rollover)
  }

  // ----- What the fields mean on the unbounded clock -----

  lemma CounterAdvances(now: nat)
    ensures (now + 1) % WRAP == if now % WRAP == WRAP - 1 then 0 else now % WRAP + 1
  {}

  /** The alarm is due at tick `due`, after now and less than one wrap away. */
  ghost predicate DueAt(a: Alarm, due: nat, now: nat) {
    && now < due < now + WRAP
    && a.time == due % WRAP
    && (a.rollover <==> due / WRAP != now / WRAP)
  }

  lemma StartedIsDue(id: nat, nticks: nat, now: nat)
    requires nticks <= WRAP - 2
    ensures DueAt(Started(id, nticks, now % WRAP), now + nticks + 1, now)
  {}

  /** One tick: the alarm expires exactly when its due tick has come, and stays accurate otherwise. */
  lemma TickIsExact(a: Alarm, due: nat, now: nat)
    requires DueAt(a, due, now)
    ensures var a', counter := Cleared(a, (now + 1) % WRAP), (now + 1) % WRAP;
            && (Expired(a', counter) <==> due == now + 1)
            && (due != now + 1 ==> DueAt(a', due, now + 1))
  {}

  lemma RearmedIsDue(a: Alarm, now: nat, interval: nat)
    requires a.time == now % WRAP && !a.rollover && 0 < interval < WRAP
    ensures DueAt(Rearmed(a, now % WRAP, interval), now + interval, now)
  {}

  // ----- One tick over the whole list -----

  /** One alarm after a tick that takes the clock to `now`: gone, or itself, or rearmed. */
  function Ticked(alarm: Alarm, now: nat, cb: Callbacks): seq<Alarm> {
    var a := Cleared(alarm, now % WRAP);
    if !Expired(a, now % WRAP) then [a]
    else if cb(a.id, now) == 0 then []
    else [Rearmed(a, now % WRAP, cb(a.id, now))]
  }

  function TickList(list: seq<Alarm>, now: nat, cb: Callbacks): seq<Alarm>
    decreases |list|
  {
    if list == [] then [] else Ticked(list[0], now, cb) + TickList(list[1..], now, cb)
  }

  function CalledIn(alarm: Alarm, now: nat): seq<nat> {
    if Expired(Cleared(alarm, now % WRAP), now % WRAP) then [alarm.id] else []
  }

  /** The alarms called during that tick, in order. */
  function Called(list: seq<Alarm>, now: nat): seq<nat>
    decreases |list|
  {
    if list == [] then [] else CalledIn(list[0], now) + Called(list[1..], now)
  }

  /** A tick treats the alarms one after the other. */
  lemma {:induction false} TickListSnoc(list: seq<Alarm>, a: Alarm, now: nat, cb: Callbacks)
    ensures TickList(list + [a], now, cb) == TickList(list, now, cb) + Ticked(a, now, cb)
    decreases |list|
  {
    if list == [] {
      assert ([a])[1..] == [] && list + [a] == [a];
    } else {
      TickListSnoc(list[1..], a, now, cb);
      assert (list + [a])[1..] == list[1..] + [a];
    }
  }

  lemma {:induction false} CalledSnoc(list: seq<Alarm>, a: Alarm, now: nat)
    ensures Called(list + [a], now) == Called(list, now) + CalledIn(a, now)
    decreases |list|
  {
    if list == [] {
      assert ([a])[1..] == [] && list + [a] == [a];
    } else {
      var rest := list[1..];
      CalledSnoc(rest, a, now);
      assert (list + [a])[1..] == rest + [a];
      assert CalledIn(list[0], now) + (Called(rest, now) + CalledIn(a, now))
          == CalledIn(list[0], now) + Called(rest, now) + CalledIn(a, now);
    }
  }

  lemma TickListExtends(list: seq<Alarm>, k: nat, now: nat, cb: Callbacks)
    requires k < |list|
    ensures TickList(list[..k + 1], now, cb) == TickList(list[..k], now, cb) + Ticked(list[k], now, cb)
    ensures Called(list[..k + 1], now) == Called(list[..k], now) + CalledIn(list[k], now)
  {
    assert list[..k + 1] == list[..k] + [list[k]];
    TickListSnoc(list[..k], list[k], now, cb);
    CalledSnoc(list[..k], list[k], now);
  }

  /** The reference: an alarm and its due tick on the unbounded clock. */
  datatype Entry = Entry(id: nat, due: nat)

  /** The reference tick: exactly the entries due now are called, and move on by what the callback returns. */
  function RefTicked(e: Entry, now: nat, cb: Callbacks): seq<Entry> {
    if e.due != now then [e]
    else if cb(e.id, now) == 0 then []
    else [Entry(e.id, now + cb(e.id, now))]
  }

  function RefTick(entries: seq<Entry>, now: nat, cb: Callbacks): seq<Entry>
    decreases |entries|
  {
    if entries == [] then [] else RefTicked(entries[0], now, cb) + RefTick(entries[1..], now, cb)
  }

  function RefCalled(entries: seq<Entry>, now: nat): seq<nat>
    decreases |entries|
  {
    if entries == [] then []
    else (if entries[0].due == now then [entries[0].id] else []) + RefCalled(entries[1..], now)
  }

  /** Every alarm of the list is due when its entry says. */
  ghost predicate Tracks(list: seq<Alarm>, entries: seq<Entry>, now: nat) {
    && |list| == |entries|
    && forall i :: 0 <= i < |list| ==> list[i].id == entries[i].id && DueAt(list[i], entries[i].due, now)
  }

  lemma TickedRefines(a: Alarm, e: Entry, now: nat, cb: Callbacks)
    requires Words(cb) && a.id == e.id && DueAt(a, e.due, now)
    ensures Tracks(Ticked(a, now + 1, cb), RefTicked(e, now + 1, cb), now + 1)
    ensures CalledIn(a, now + 1) == if e.due == now + 1 then [e.id] else []
  {
    TickIsExact(a, e.due, now);
    var r := cb(a.id, now + 1);
    if e.due == now + 1 && r != 0 {
      RearmedIsDue(Cleared(a, (now + 1) % WRAP), now + 1, r);
    }
  }

  lemma TracksConcat(l1: seq<Alarm>, e1: seq<Entry>, l2: seq<Alarm>, e2: seq<Entry>, now: nat)
    requires Tracks(l1, e1, now) && Tracks(l2, e2, now)
    ensures Tracks(l1 + l2, e1 + e2, now)
  {}

  /** A tick on the wrapping counter calls and reschedules exactly what the reference does. */
  lemma {:induction false} TickRefines(list: seq<Alarm>, entries: seq<Entry>, now: nat, cb: Callbacks)
    requires Words(cb) && Tracks(list, entries, now)
    ensures Tracks(TickList(list, now + 1, cb), RefTick(entries, now + 1, cb), now + 1)
    ensures Called(list, now + 1) == RefCalled(entries, now + 1)
    decreases |list|
  {
    if list != [] {
      TickedRefines(list[0], entries[0], now, cb);
      TickRefines(list[1..], entries[1..], now, cb);
      TracksConcat(Ticked(list[0], now + 1, cb), RefTicked(entries[0], now + 1, cb),
                   TickList(list[1..], now + 1, cb), RefTick(entries[1..], now + 1, cb), now + 1);
    }
  }

  // ----- Whole runs -----

  datatype Op = Start(id: nat, nticks: nat) | Stop(id: nat) | Tick

  /** The scheduler: the clock, the list and the calls made so far, each with its tick. */
  datatype System = System(now: nat, list: seq<Alarm>, log: seq<(nat, nat)>)

  datatype Reference = Reference(now: nat, entries: seq<Entry>, log: seq<(nat, nat)>)

  function Without(list: seq<Alarm>, id: nat): seq<Alarm>
    decreases |list|
  {
    if list == [] then [] else (if list[0].id == id then [] else [list[0]]) + Without(list[1..], id)
  }

  function RefWithout(entries: seq<Entry>, id: nat): seq<Entry>
    decreases |entries|
  {
    if entries == [] then [] else (if entries[0].id == id then [] else [entries[0]]) + RefWithout(entries[1..], id)
  }

  function At(now: nat, ids: seq<nat>): (r: seq<(nat, nat)>)
    ensures |r| == |ids|
    ensures forall i :: 0 <= i < |ids| ==> r[i] == (now, ids[i])
  {
    seq(|ids|, i requires 0 <= i < |ids| => (now, ids[i]))
  }

  function Step(s: System, op: Op, cb: Callbacks): System {
    match op
    case Start(id, nticks) => s.(list := [Started(id, nticks, s.now % WRAP)] + s.list)
    case Stop(id) => s.(list := Without(s.list, id))
    case Tick => System(s.now + 1, TickList(s.list, s.now + 1, cb), s.log + At(s.now + 1, Called(s.list, s.now + 1)))
  }

  function RefStep(r: Reference, op: Op, cb: Callbacks): Reference {
    match op
    case Start(id, nticks) => r.(entries := [Entry(id, r.now + nticks + 1)] + r.entries)
    case Stop(id) => r.(entries := RefWithout(r.entries, id))
    case Tick =>
      Reference(r.now + 1, RefTick(r.entries, r.now + 1, cb), r.log + At(r.now + 1, RefCalled(r.entries, r.now + 1)))
  }

  function Run(s: System, ops: seq<Op>, cb: Callbacks): System
    decreases |ops|
  {
    if ops == [] then s else Run(Step(s, ops[0], cb), ops[1..], cb)
  }

  function RefRun(r: Reference, ops: seq<Op>, cb: Callbacks): Reference
    decreases |ops|
  {
    if ops == [] then r else RefRun(RefStep(r, ops[0], cb), ops[1..], cb)
  }

  /** Every start asks for at most 2^32 - 2 ticks. */
  predicate Representable(ops: seq<Op>)
    decreases |ops|
  {
    ops == [] || ((ops[0].Start? ==> ops[0].nticks <= WRAP - 2) && Representable(ops[1..]))
  }

  ghost predicate Matches(s: System, r: Reference) {
    s.now == r.now && s.log == r.log && Tracks(s.list, r.entries, s.now)
  }

  lemma {:induction false} WithoutTracks(list: seq<Alarm>, entries: seq<Entry>, now: nat, id: nat)
    requires Tracks(list, entries, now)
    ensures Tracks(Without(list, id), RefWithout(entries, id), now)
    decreases |list|
  {
    if list != [] {
      WithoutTracks(list[1..], entries[1..], now, id);
    }
  }

  lemma StartTracks(list: seq<Alarm>, entries: seq<Entry>, now: nat, id: nat, nticks: nat)
    requires Tracks(list, entries, now) && nticks <= WRAP - 2
    ensures Tracks([Started(id, nticks, now % WRAP)] + list, [Entry(id, now + nticks + 1)] + entries, now)
  {
    var a, e := Started(id, nticks, now % WRAP), Entry(id, now + nticks + 1);
    StartedIsDue(id, nticks, now);
    assert Tracks([a], [e], now);
    TracksConcat([a], [e], list, entries, now);
  }

  lemma StartRefines(s: System, r: Reference, id: nat, nticks: nat, cb: Callbacks)
    requires Matches(s, r) && nticks <= WRAP - 2
    ensures Matches(Step(s, Start(id, nticks), cb), RefStep(r, Start(id, nticks), cb))
  {
    StartTracks(s.list, r.entries, s.now, id, nticks);
  }

  lemma StopRefines(s: System, r: Reference, id: nat, cb: Callbacks)
    requires Matches(s, r)
    ensures Matches(Step(s, Stop(id), cb), RefStep(r, Stop(id), cb))
  {
    WithoutTracks(s.list, r.entries, s.now, id);
  }

  lemma StepRefines(s: System, r: Reference, op: Op, cb: Callbacks)
    requires Words(cb) && Matches(s, r) && (op.Start? ==> op.nticks <= WRAP - 2)
    ensures Matches(Step(s, op, cb), RefStep(r, op, cb))
  {
    match op
    case Start(id, nticks) => StartRefines(s, r, id, nticks, cb);
    case Stop(id) => StopRefines(s, r, id, cb);
    case Tick => TickRefines(s.list, r.entries, s.now, cb);
  }

  /** Over any run, across any number of wraps, the calls made are those of the reference. */
  lemma {:induction false} RunRefines(s: System, r: Reference, ops: seq<Op>, cb: Callbacks)
    requires Words(cb) && Matches(s, r) && Representable(ops)
    ensures Matches(Run(s, ops, cb), RefRun(r, ops, cb))
    decreases |ops|
  {
    if ops != [] {
      StepRefines(s, r, ops[0], cb);
      RunRefines(Step(s, ops[0], cb), RefStep(r, ops[0], cb), ops[1..], cb);
    }
  }

  // ----- One alarm among others -----

  /** The alarms of the list with the given id, in order. */
  function Only(list: seq<Alarm>, id: nat): seq<Alarm>
    decreases |list|
  {
    if list == [] then []
    else if list[0].id == id then [list[0]] + Only(list[1..], id)
    else Only(list[1..], id)
  }

  lemma {:induction false} OnlyConcat(a: seq<Alarm>, b: seq<Alarm>, id: nat)
    ensures Only(a + b, id) == Only(a, id) + Only(b, id)
    decreases |a|
  {
    if a == [] {
      assert a + b == b;
    } else {
      OnlyConcat(a[1..], b, id);
      assert (a + b)[1..] == a[1..] + b;
    }
  }

  lemma OnlyTicked(a: Alarm, now: nat, cb: Callbacks, id: nat)
    ensures Only(Ticked(a, now, cb), id) == if a.id == id then Ticked(a, now, cb) else []
  {
    var l := Ticked(a, now, cb);
    if l != [] {
      assert l[1..] == [];
    }
  }

  /** A tick does to the alarms of one id what it would do without the others. */
  lemma {:induction false} OnlyTickList(list: seq<Alarm>, now: nat, cb: Callbacks, id: nat)
    ensures Only(TickList(list, now, cb), id) == TickList(Only(list, id), now, cb)
    decreases |list|
  {
    if list != [] {
      var a, rest := list[0], list[1..];
      OnlyTickList(rest, now, cb, id);
      OnlyConcat(Ticked(a, now, cb), TickList(rest, now, cb), id);
      OnlyTicked(a, now, cb, id);
      if a.id == id {
        assert ([a] + Only(rest, id))[1..] == Only(rest, id);
      } else {
        assert [] + TickList(Only(rest, id), now, cb) == TickList(Only(rest, id), now, cb);
      }
    }
  }

  lemma {:induction false} OnlyWithout(list: seq<Alarm>, other: nat, id: nat)
    ensures Only(Without(list, other), id) == if other == id then [] else Only(list, id)
    decreases |list|
  {
    if list != [] {
      var head := if list[0].id == other then [] else [list[0]];
      OnlyWithout(list[1..], other, id);
      OnlyConcat(head, Without(list[1..], other), id);
      OnlyHead(head, id);
    }
  }

  lemma OnlyPrepend(a: Alarm, list: seq<Alarm>, id: nat)
    ensures Only([a] + list, id) == (if a.id == id then [a] else []) + Only(list, id)
  {
    assert ([a] + list)[1..] == list;
  }

  lemma OnlyHead(head: seq<Alarm>, id: nat)
    requires |head| <= 1
    ensures Only(head, id) == if head != [] && head[0].id == id then head else []
  {
    if head != [] {
      assert head[1..] == [];
    }
  }

  /** How often x occurs in s. */
  function Count<T(==)>(s: seq<T>, x: T): nat
    decreases |s|
  {
    if s == [] then 0 else (if s[0] == x then 1 else 0) + Count(s[1..], x)
  }

  lemma {:induction false} CountConcat<T>(a: seq<T>, b: seq<T>, x: T)
    ensures Count(a + b, x) == Count(a, x) + Count(b, x)
    decreases |a|
  {
    if a == [] {
      assert a + b == b;
    } else {
      CountConcat(a[1..], b, x);
      assert (a + b)[1..] == a[1..] + b;
    }
  }

  lemma CountCalledIn(a: Alarm, now: nat, id: nat)
    ensures Count(CalledIn(a, now), id) == if a.id == id then |CalledIn(a, now)| else 0
  {
    var l := CalledIn(a, now);
    if l != [] {
      assert l[1..] == [];
    }
  }

  /** The calls of one id in a tick are those it would have without the others. */
  lemma {:induction false} CountCalled(list: seq<Alarm>, now: nat, id: nat)
    ensures Count(Called(list, now), id) == |Called(Only(list, id), now)|
    decreases |list|
  {
    if list != [] {
      var a, rest := list[0], list[1..];
      CountCalled(rest, now, id);
      CountConcat(CalledIn(a, now), Called(rest, now), id);
      CountCalledIn(a, now, id);
      if a.id == id {
        assert ([a] + Only(rest, id))[1..] == Only(rest, id);
      }
    }
  }

  lemma {:induction false} CountAt(now: nat, ids: seq<nat>, t: nat, id: nat)
    ensures Count(At(now, ids), (t, id)) == if t == now then Count(ids, id) else 0
    decreases |ids|
  {
    if ids != [] {
      CountAt(now, ids[1..], t, id);
      assert At(now, ids)[1..] == At(now, ids[1..]);
    }
  }

  // ----- When an alarm is called -----

  /** The alarm is registered once and due at tick `next`, or not registered at all. */
  ghost predicate DueNext(list: seq<Alarm>, id: nat, next: Option<nat>, now: nat) {
    match next
    case None => Only(list, id) == []
    case Some(due) => |Only(list, id)| == 1 && Only(list, id)[0].id == id && DueAt(Only(list, id)[0], due, now)
  }

  /** The next due tick of an alarm after a tick. */
  function Following(next: Option<nat>, id: nat, now: nat, cb: Callbacks): Option<nat> {
    if next != Some(now) then next else if cb(id, now) == 0 then None else Some(now + cb(id, now))
  }

  /** The schedule: due ticks follow one another at exactly the intervals the callback returns. */
  predicate Scheduled(next: Option<nat>, id: nat, t: nat, cb: Callbacks)
    decreases if next.Some? then t - next.value + 1 else 0
  {
    match next
    case None => false
    case Some(due) => t == due || (t > due && cb(id, due) > 0 && Scheduled(Some(due + cb(id, due)), id, t, cb))
  }

  lemma TickAlone(a: Alarm, due: nat, now: nat, cb: Callbacks)
    requires Words(cb) && DueAt(a, due, now)
    ensures var next, l := Following(Some(due), a.id, now + 1, cb), Ticked(a, now + 1, cb);
            && (next.None? ==> l == [])
            && (next.Some? ==> |l| == 1 && l[0].id == a.id && DueAt(l[0], next.value, now + 1))
    ensures |CalledIn(a, now + 1)| == if due == now + 1 then 1 else 0
  {
    TickIsExact(a, due, now);
    var r := cb(a.id, now + 1);
    if due == now + 1 && r != 0 {
      RearmedIsDue(Cleared(a, (now + 1) % WRAP), now + 1, r);
    }
  }

  /**
   Whatever else is in the list, a tick calls an alarm once if it is due and not at all otherwise, drops
   it exactly when its callback returns zero, and keeps its fields accurate.
   */
  lemma TickPerAlarm(list: seq<Alarm>, id: nat, next: Option<nat>, now: nat, cb: Callbacks)
    requires Words(cb) && DueNext(list, id, next, now)
    ensures DueNext(TickList(list, now + 1, cb), id, Following(next, id, now + 1, cb), now + 1)
    ensures Count(Called(list, now + 1), id) == if next == Some(now + 1) then 1 else 0
  {
    var own := Only(list, id);
    OnlyTickList(list, now + 1, cb, id);
    CountCalled(list, now + 1, id);
    if next.Some? {
      assert own[1..] == [] && own == [own[0]];
      TickAlone(own[0], next.value, now, cb);
      assert TickList(own, now + 1, cb) == Ticked(own[0], now + 1, cb);
      assert Called(own, now + 1) == CalledIn(own[0], now + 1);
    }
  }

  // ----- Calls over a run -----

  /** Steps other than starting or stopping an alarm. */
  predicate LeavesAlone(op: Op, id: nat) { op.Tick? || op.id != id }

  predicate AllLeaveAlone(ops: seq<Op>, id: nat)
    decreases |ops|
  {
    ops == [] || (LeavesAlone(ops[0], id) && AllLeaveAlone(ops[1..], id))
  }

  /** No call is logged for a tick to come. */
  ghost predicate LogIsPast(s: System) { forall i :: 0 <= i < |s.log| ==> s.log[i].0 <= s.now }

  lemma {:induction false} PastCount(log: seq<(nat, nat)>, now: nat, t: nat, id: nat)
    requires t > now && forall i :: 0 <= i < |log| ==> log[i].0 <= now
    ensures Count(log, (t, id)) == 0
    decreases |log|
  {
    if log != [] {
      PastCount(log[1..], now, t, id);
    }
  }

  lemma TickLogs(s: System, cb: Callbacks, t: nat, id: nat)
    ensures var s' := Step(s, Tick, cb);
            Count(s'.log, (t, id)) ==
              Count(s.log, (t, id)) + if t == s.now + 1 then Count(Called(s.list, s.now + 1), id) else 0
  {
    var ids := Called(s.list, s.now + 1);
    CountConcat(s.log, At(s.now + 1, ids), (t, id));
    CountAt(s.now + 1, ids, t, id);
  }

  lemma StepLogIsPast(s: System, op: Op, cb: Callbacks)
    requires LogIsPast(s)
    ensures LogIsPast(Step(s, op, cb))
  {}

  /** The due tick after one step that does not start or stop the alarm. */
  function NextAfter(next: Option<nat>, op: Op, id: nat, now: nat, cb: Callbacks): Option<nat> {
    if op.Tick? then Following(next, id, now + 1, cb) else next
  }

  lemma StepPerAlarm(s: System, op: Op, cb: Callbacks, id: nat, next: Option<nat>, t: nat)
    requires Words(cb) && LeavesAlone(op, id) && DueNext(s.list, id, next, s.now)
    ensures var s' := Step(s, op, cb);
            && DueNext(s'.list, id, NextAfter(next, op, id, s.now, cb), s'.now)
            && Count(s'.log, (t, id)) ==
                 Count(s.log, (t, id)) + if op.Tick? && t == s.now + 1 && next == Some(t) then 1 else 0
  {
    match op
    case Start(other, nticks) => OnlyPrepend(Started(other, nticks, s.now % WRAP), s.list, id);
    case Stop(other) => OnlyWithout(s.list, other, id);
    case Tick =>
      TickPerAlarm(s.list, id, next, s.now, cb);
      TickLogs(s, cb, t, id);
  }

  lemma FollowingKeepsSchedule(next: Option<nat>, id: nat, now: nat, t: nat, cb: Callbacks)
    requires t > now && (next.Some? ==> next.value >= now)
    ensures Scheduled(next, id, t, cb) <==> Scheduled(Following(next, id, now, cb), id, t, cb)
  {}

  /** How often the alarm is called at tick t: as logged if t is past, and as scheduled if it is to come. */
  function CallsAt(s: System, next: Option<nat>, id: nat, t: nat, cb: Callbacks): nat {
    if t <= s.now then Count(s.log, (t, id)) else if Scheduled(next, id, t, cb) then 1 else 0
  }

  lemma StepCallsAt(s: System, op: Op, cb: Callbacks, id: nat, next: Option<nat>, t: nat)
    requires Words(cb) && LeavesAlone(op, id) && DueNext(s.list, id, next, s.now) && LogIsPast(s)
    ensures CallsAt(Step(s, op, cb), NextAfter(next, op, id, s.now, cb), id, t, cb) == CallsAt(s, next, id, t, cb)
  {
    StepPerAlarm(s, op, cb, id, next, t);
    if t > s.now {
      PastCount(s.log, s.now, t, id);
    }
    if op.Tick? && t > s.now + 1 {
      FollowingKeepsSchedule(next, id, s.now + 1, t, cb);
    }
  }

  /** In a run that neither starts nor stops an alarm, its calls are exactly those of its schedule. */
  lemma {:induction false} RunSchedule(s: System, ops: seq<Op>, cb: Callbacks, id: nat, next: Option<nat>, t: nat)
    requires Words(cb) && AllLeaveAlone(ops, id) && DueNext(s.list, id, next, s.now) && LogIsPast(s)
    ensures t <= Run(s, ops, cb).now ==> Count(Run(s, ops, cb).log, (t, id)) == CallsAt(s, next, id, t, cb)
    decreases |ops|
  {
    if ops != [] {
      StepCallsAt(s, ops[0], cb, id, next, t);
      StepPerAlarm(s, ops[0], cb, id, next, t);
      StepLogIsPast(s, ops[0], cb);
      RunSchedule(Step(s, ops[0], cb), ops[1..], cb, id, NextAfter(next, ops[0], id, s.now, cb), t);
    }
  }

  // ----- The main result -----

  /** After tick `since` and up to now, the alarm first due at `due` was called exactly as scheduled, once each. */
  ghost predicate CalledOnSchedule(s: System, since: nat, due: nat, id: nat, t: nat, cb: Callbacks) {
    since < t <= s.now ==> Count(s.log, (t, id)) == if Scheduled(Some(due), id, t, cb) then 1 else 0
  }

  /**
   An alarm started at tick T for nticks is called at tick T + nticks + 1 and then at exactly the
   intervals its callback returns, until it returns zero: never early, late, skipped or twice, in any
   run, whatever other alarms there are, over any number of wraps of the counter.
   */
  lemma AlarmsAreExact(s: System, id: nat, nticks: nat, ops: seq<Op>, cb: Callbacks, t: nat)
    requires Words(cb) && LogIsPast(s) && Only(s.list, id) == [] && nticks <= WRAP - 2 && AllLeaveAlone(ops, id)
    ensures CalledOnSchedule(Run(Step(s, Start(id, nticks), cb), ops, cb), s.now, s.now + nticks + 1, id, t, cb)
  {
    StartedDueNext(s, id, nticks, cb);
    RunSchedule(Step(s, Start(id, nticks), cb), ops, cb, id, Some(s.now + nticks + 1), t);
  }

  lemma StartedDueNext(s: System, id: nat, nticks: nat, cb: Callbacks)
    requires Only(s.list, id) == [] && nticks <= WRAP - 2
    ensures var s' := Step(s, Start(id, nticks), cb);
            DueNext(s'.list, id, Some(s.now + nticks + 1), s.now) && s'.now == s.now && s'.log == s.log
  {
    StartedIsDue(id, nticks, s.now);
    OnlyPrepend(Started(id, nticks, s.now % WRAP), s.list, id);
  }

  // ----- Stopped alarms -----

  predicate NeverStarts(ops: seq<Op>, id: nat)
    decreases |ops|
  {
    ops == [] || ((ops[0].Start? ==> ops[0].id != id) && NeverStarts(ops[1..], id))
  }

  lemma StepSilent(s: System, op: Op, cb: Callbacks, id: nat, t: nat)
    requires Words(cb) && Only(s.list, id) == [] && (op.Start? ==> op.id != id)
    ensures var s' := Step(s, op, cb); Only(s'.list, id) == [] && Count(s'.log, (t, id)) == Count(s.log, (t, id))
  {
    if op == Stop(id) {
      OnlyWithout(s.list, id, id);
    } else {
      StepPerAlarm(s, op, cb, id, None, t);
    }
  }

  /** An alarm that is not registered is not called until it is started. */
  lemma {:induction false} SilentRun(s: System, ops: seq<Op>, cb: Callbacks, id: nat, t: nat)
    requires Words(cb) && NeverStarts(ops, id) && Only(s.list, id) == []
    ensures Count(Run(s, ops, cb).log, (t, id)) == Count(s.log, (t, id))
    decreases |ops|
  {
    if ops != [] {
      StepSilent(s, ops[0], cb, id, t);
      SilentRun(Step(s, ops[0], cb), ops[1..], cb, id, t);
    }
  }

  /** A stopped alarm is never called again, in any run that does not start it again. */
  lemma StoppedIsSilent(s: System, id: nat, ops: seq<Op>, cb: Callbacks, t: nat)
    requires Words(cb) && NeverStarts(ops, id)
    ensures Count(Run(Step(s, Stop(id), cb), ops, cb).log, (t, id)) == Count(s.log, (t, id))
  {
    OnlyWithout(s.list, id, id);
    SilentRun(Step(s, Stop(id), cb), ops, cb, id, t);
  }

  // ----- Histories from start-up -----

  const BOOT := System(0, [], [])

  /** No start registers an alarm that is in the list. */
  predicate StartsFresh(s: System, ops: seq<Op>, cb: Callbacks)
    decreases |ops|
  {
    ops == [] ||
    ((ops[0].Start? ==> Only(s.list, ops[0].id) == []) && StartsFresh(Step(s, ops[0], cb), ops[1..], cb))
  }

  ghost predicate LedTo(s: System, ops: seq<Op>, cb: Callbacks, us: seq<Op>) {
    us == ops ==> s == Run(BOOT, us, cb) && StartsFresh(BOOT, us, cb)
  }

  /**
   s is what the operations ops lead to from start-up, and none of them started a registered alarm; said
   so that proofs unfold it only where they ask.
   */
  ghost predicate Recorded(s: System, ops: seq<Op>, cb: Callbacks) {
    forall us {:trigger LedTo(s, ops, cb, us)} :: LedTo(s, ops, cb, us)
  }

  lemma RecordedIff(s: System, ops: seq<Op>, cb: Callbacks)
    ensures Recorded(s, ops, cb) <==> s == Run(BOOT, ops, cb) && StartsFresh(BOOT, ops, cb)
  {
    if Recorded(s, ops, cb) {
      assert LedTo(s, ops, cb, ops);
    }
  }

  lemma {:induction false} RunConcat(s: System, a: seq<Op>, b: seq<Op>, cb: Callbacks)
    ensures Run(s, a + b, cb) == Run(Run(s, a, cb), b, cb)
    ensures StartsFresh(s, a + b, cb) <==> StartsFresh(s, a, cb) && StartsFresh(Run(s, a, cb), b, cb)
    decreases |a|
  {
    if a == [] {
      assert a + b == b;
    } else {
      RunConcat(Step(s, a[0], cb), a[1..], b, cb);
      assert (a + b)[1..] == a[1..] + b;
    }
  }

  lemma {:induction false} RunLogIsPast(s: System, ops: seq<Op>, cb: Callbacks)
    requires LogIsPast(s)
    ensures LogIsPast(Run(s, ops, cb))
    decreases |ops|
  {
    if ops != [] {
      StepLogIsPast(s, ops[0], cb);
      RunLogIsPast(Step(s, ops[0], cb), ops[1..], cb);
    }
  }

  lemma RunHead(s: System, op: Op, ops: seq<Op>, cb: Callbacks)
    ensures Run(s, [op] + ops, cb) == Run(Step(s, op, cb), ops, cb)
    ensures StartsFresh(s, [op] + ops, cb) && op.Start? ==> Only(s.list, op.id) == []
  {
    assert ([op] + ops)[1..] == ops;
  }

  /** One more operation. */
  lemma RecordedNext(s: System, ops: seq<Op>, op: Op, cb: Callbacks)
    requires Recorded(s, ops, cb) && (op.Start? ==> Only(s.list, op.id) == [])
    ensures Recorded(Step(s, op, cb), ops + [op], cb)
  {
    RecordedIff(s, ops, cb);
    RunConcat(BOOT, ops, [op], cb);
    assert [op][1..] == [];
    RecordedIff(Step(s, op, cb), ops + [op], cb);
  }

  /** A history up to one of its operations, and from there on. */
  lemma HistoryAt(s: System, before: seq<Op>, op: Op, after: seq<Op>, cb: Callbacks) returns (s0: System)
    requires Recorded(s, before + ([op] + after), cb)
    ensures s0 == Run(BOOT, before, cb) && s == Run(Step(s0, op, cb), after, cb) && LogIsPast(s0)
    ensures op.Start? ==> Only(s0.list, op.id) == []
  {
    s0 := Run(BOOT, before, cb);
    RecordedIff(s, before + ([op] + after), cb);
    RunConcat(BOOT, before, [op] + after, cb);
    RunHead(s0, op, after, cb);
    RunLogIsPast(BOOT, before, cb);
  }

  /** The main result for a whole history: what the log of a scheduler holds of one start in it. */
  lemma HistoryIsExact(s: System, before: seq<Op>, id: nat, nticks: nat, after: seq<Op>, cb: Callbacks, t: nat)
    requires Words(cb) && nticks <= WRAP - 2 && AllLeaveAlone(after, id)
    requires Recorded(s, before + ([Start(id, nticks)] + after), cb)
    ensures var since := Run(BOOT, before, cb).now; CalledOnSchedule(s, since, since + nticks + 1, id, t, cb)
  {
    var s0 := HistoryAt(s, before, Start(id, nticks), after, cb);
    AlarmsAreExact(s0, id, nticks, after, cb, t);
  }

  /** And of one stop in it. */
  lemma HistoryIsSilent(s: System, before: seq<Op>, id: nat, after: seq<Op>, cb: Callbacks, t: nat)
    requires Words(cb) && NeverStarts(after, id) && t > Run(BOOT, before, cb).now
    requires Recorded(s, before + ([Stop(id)] + after), cb)
    ensures Count(s.log, (t, id)) == 0
  {
    var s0 := HistoryAt(s, before, Stop(id), after, cb);
    StoppedIsSilent(s0, id, after, cb, t);
    PastCount(s0.log, s0.now, t, id);
  }

  // ----- Removing from a list of distinct alarms -----

  lemma {:induction false} WithoutUnlisted(list: seq<Alarm>, id: nat)
    requires Only(list, id) == []
    ensures Without(list, id) == list
    decreases |list|
  {
    if list != [] {
      WithoutUnlisted(list[1..], id);
    }
  }

  lemma {:induction false} OnlyUnlisted(list: seq<Alarm>, id: nat)
    requires forall i :: 0 <= i < |list| ==> list[i].id != id
    ensures Only(list, id) == []
    decreases |list|
  {
    if list != [] {
      OnlyUnlisted(list[1..], id);
    }
  }

  lemma {:induction false} UnlistedHere(list: seq<Alarm>, id: nat, i: nat)
    requires Only(list, id) == [] && i < |list|
    ensures list[i].id != id
    decreases |list|
  {
    if i > 0 {
      UnlistedHere(list[1..], id, i - 1);
    }
  }

  lemma {:induction false} WithoutAt(list: seq<Alarm>, k: nat)
    requires k < |list| && forall i :: 0 <= i < |list| && i != k ==> list[i].id != list[k].id
    ensures Without(list, list[k].id) == list[..k] + list[k + 1..]
    decreases k
  {
    if k == 0 {
      OnlyUnlisted(list[1..], list[0].id);
      WithoutUnlisted(list[1..], list[0].id);
      assert list[..0] + list[1..] == list[1..];
    } else {
      WithoutAt(list[1..], k - 1);
      assert list[..k] + list[k + 1..] == [list[0]] + (list[1..][..k - 1] + list[1..][k..]);
    }
  }

  // ----- Where the 32-bit arithmetic stops being exact -----

  /** The first call of a lone alarm comes at tick t. */
  predicate FirstCalledAt(a: Alarm, now: nat, t: nat)
    decreases t - now
  {
    now < t &&
    var a', counter := Cleared(a, (now + 1) % WRAP), (now + 1) % WRAP;
    if Expired(a', counter) then t == now + 1 else FirstCalledAt(a', now + 1, t)
  }

  lemma {:induction false} DueIsFirstCall(a: Alarm, due: nat, now: nat)
    requires DueAt(a, due, now)
    ensures FirstCalledAt(a, now, due)
    decreases due - now
  {
    TickIsExact(a, due, now);
    if due != now + 1 {
      DueIsFirstCall(Cleared(a, (now + 1) % WRAP), due, now + 1);
    }
  }

  /** Made just before a wrap, the longest request is due after the tick that wraps. */
  lemma LongestAtWrap(id: nat, now: nat)
    requires now % WRAP == WRAP - 1
    ensures FirstCalledAt(Started(id, WRAP - 1, WRAP - 1), now, now + WRAP)
  {
    var a := Started(id, WRAP - 1, WRAP - 1);
    LongestStarted(id, WRAP - 1);
    CounterAdvances(now);
    assert (now + 1) % WRAP == 0 && DueAt(a, now + WRAP, now + 1);
    DueIsFirstCall(a, now + WRAP, now + 1);
  }

  /** Made at any other tick, it is called at the very next one. */
  lemma LongestIsEarly(id: nat, now: nat)
    requires now % WRAP != WRAP - 1
    ensures FirstCalledAt(Started(id, WRAP - 1, now % WRAP), now, now + 1)
  {
    LongestStarted(id, now % WRAP);
    CounterAdvances(now);
  }

  lemma LongestStarted(id: nat, counter: nat)
    requires counter < WRAP
    ensures Started(id, WRAP - 1, counter) == Alarm(id, counter, false)
  {}

  /** The longest request, 2^32 - 1 ticks, is exact only when made at the last tick before a wrap. */
  lemma StartIsExactIff(id: nat, nticks: nat, now: nat)
    requires nticks < WRAP
    ensures FirstCalledAt(Started(id, nticks, now % WRAP), now, now + nticks + 1) <==>
              nticks != WRAP - 1 || now % WRAP == WRAP - 1
  {
    if nticks != WRAP - 1 {
      StartedIsDue(id, nticks, now);
      DueIsFirstCall(Started(id, nticks, now % WRAP), now + nticks + 1, now);
    } else if now % WRAP == WRAP - 1 {
      LongestAtWrap(id, now);
    } else {
      LongestIsEarly(id, now);
    }
  }
}
