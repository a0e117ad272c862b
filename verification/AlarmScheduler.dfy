/** The alarm list and the tick routine as they run: alarm structures updated in place. */
module AlarmScheduler {
  import opened Alarms

  /** An alarm structure; `id` names it in the model. */
  class Cell {
    const id: nat
    var time: nat
    var rollover: bool

    constructor (name: nat)
      ensures id == name
    {
      id := name;
    }

    function Value(): Alarm
      reads this
    {
      Alarm(id, time, rollover)
    }
  }

  ghost function Values(cells: seq<Cell>): (r: seq<Alarm>)
    reads cells
    ensures |r| == |cells|
    ensures forall i :: 0 <= i < |cells| ==> r[i] == cells[i].Value()
  {
    seq(|cells|, i requires 0 <= i < |cells| reads cells => cells[i].Value())
  }

  /** The structure holds the alarm a. */
  ghost predicate Holds(cell: Cell, a: Alarm)
    reads cell
  {
    cell.id == a.id && cell.time == a.time && cell.rollover == a.rollover
  }

  /** Results of alt_alarm_start. */
  datatype StartResult = Registered | InvalidAlarm | NotSupported

  /** Every cell has its own id. */
  ghost predicate DistinctNames(cells: seq<Cell>) {
    forall i, j :: 0 <= i < j < |cells| ==> cells[i].id != cells[j].id
  }

  method IndexOf(cells: seq<Cell>, cell: Cell) returns (i: nat)
    requires cell in cells
    ensures i < |cells| && cells[i] == cell
  {
    i := 0;
    while cells[i] != cell
      invariant i < |cells| && cell in cells[i..]
      decreases |cells| - i
    {
      i := i + 1;
    }
  }

  /** Taking a cell out of the list takes its alarm out of the values. */
  lemma ValuesWithout(cells: seq<Cell>, i: nat)
    requires DistinctNames(cells) && i < |cells|
    ensures Values(cells[..i] + cells[i + 1..]) == Without(Values(cells), cells[i].id)
  {
    var values := Values(cells);
    assert forall j :: 0 <= j < |cells| && j != i ==> values[j].id != values[i].id;
    WithoutAt(values, i);
    assert Values(cells[..i] + cells[i + 1..]) == values[..i] + values[i + 1..];
  }

  class Scheduler {
    const tickRate: nat
    const cb: Callbacks
    var nticks: nat
    var list: seq<Cell>
    /** The unbounded clock, which only names ticks to the callbacks. */
    var now: nat
    /** The calls made and the operations performed so far. */
    ghost var log: seq<(nat, nat)>
    ghost var ops: seq<Op>

    ghost function State(): System
      reads this, list
    {
      System(now, Values(list), log)
    }

    ghost predicate Ordered()
      reads this
    {
      nticks == now % WRAP && DistinctNames(list)
    }

    ghost predicate Valid()
      reads this, list
    {
      Ordered() && Recorded(State(), ops, cb)
    }

    constructor (rate: nat, callbacks: Callbacks)
      ensures Valid() && tickRate == rate && cb == callbacks && State() == BOOT && ops == [] && list == []
    {
      tickRate, cb, nticks, list, now := rate, callbacks, 0, [], 0;
      log, ops := [], [];
      new;
      assert Values(list) == [];
    }

    /** Registers an alarm at the head of the list. */
    method Start(alarm: Cell?, interval: nat) returns (r: StartResult)
      requires Valid() && interval < WRAP && (alarm != null ==> Only(Values(list), alarm.id) == [])
      modifies this`list, this`ops, alarm
      ensures Valid()
      ensures r == if tickRate == 0 then NotSupported else if alarm == null then InvalidAlarm else Registered
      ensures r != Registered ==> list == old(list) && State() == old(State()) && ops == old(ops)
      ensures r == Registered ==>
                && list == [alarm] + old(list) && ops == old(ops) + [Op.Start(alarm.id, interval)]
                && State() == Step(old(State()), Op.Start(alarm.id, interval), cb)
    {
      if tickRate == 0 {
        return NotSupported;
      }
      if alarm == null {
        return InvalidAlarm;
      }
      ghost var op := Op.Start(alarm.id, interval);
      RecordedNext(State(), ops, op, cb);
      Insert(alarm, interval);
      ops := ops + [op];
      return Registered;
    }

    method Insert(alarm: Cell, interval: nat)
      requires Ordered() && Only(Values(list), alarm.id) == []
      modifies this`list, alarm
      ensures Ordered() && list == [alarm] + old(list)
      ensures Values(list) == [Started(alarm.id, interval, now % WRAP)] + old(Values(list))
    {
      ghost var values := Values(list);
      forall i | 0 <= i < |list|
        ensures list[i].id != alarm.id
      {
        UnlistedHere(values, alarm.id, i);
      }
      alarm.time := (interval + nticks + 1) % WRAP;
      alarm.rollover := alarm.time < nticks;
      assert Values(list) == values;
      list := [alarm] + list;
      assert Values(list) == [Started(alarm.id, interval, now % WRAP)] + values;
    }

    /** Processes one alarm of the list; returns whether it stays registered. */
    method Process(alarm: Cell, cb: Callbacks) returns (called: bool, kept: bool)
      requires nticks == now % WRAP
      modifies alarm
      ensures CalledIn(old(alarm.Value()), now) == if called then [alarm.id] else []
      ensures Ticked(old(alarm.Value()), now, cb) == if kept then [alarm.Value()] else []
    {
      called, kept := false, true;
      if alarm.rollover && nticks == 0 {
        alarm.rollover := false;
      }
      if alarm.time <= nticks && !alarm.rollover {
        called := true;
        var interval := cb(alarm.id, now);
        if interval == 0 {
          kept := false;
        } else {
          alarm.time := (alarm.time + interval) % WRAP;
          if alarm.time < nticks {
            alarm.rollover := true;
          }
        }
      }
    }

    /** Unregisters an alarm; harmless when it is not registered. */
    method Stop(alarm: Cell)
      requires Valid() && (alarm in list || Only(Values(list), alarm.id) == [])
      modifies this`list, this`ops
      ensures Valid() && alarm !in list && ops == old(ops) + [Op.Stop(alarm.id)]
      ensures State() == Step(old(State()), Op.Stop(alarm.id), cb)
    {
      RecordedNext(State(), ops, Op.Stop(alarm.id), cb);
      Unlink(alarm);
      ops := ops + [Op.Stop(alarm.id)];
    }

    method Unlink(alarm: Cell)
      requires Ordered() && (alarm in list || Only(Values(list), alarm.id) == [])
      modifies this`list
      ensures Ordered() && alarm !in list
      ensures Values(list) == Without(old(Values(list)), alarm.id)
    {
      ghost var values := Values(list);
      if alarm in list {
        var i := IndexOf(list, alarm);
        ValuesWithout(list, i);
        list := list[..i] + list[i + 1..];
      } else {
        WithoutUnlisted(values, alarm.id);
      }
    }

    /** The walk has reached cell k: kept cells hold their new values, later cells their old ones. */
    ghost predicate Walking(cells: seq<Cell>, k: nat, kept: seq<Cell>, from: seq<nat>, done: seq<Alarm>,
                            values: seq<Alarm>)
      reads this, cells, kept
    {
      && nticks == now % WRAP && k <= |cells| == |values| && DistinctNames(cells)
      && |from| == |kept| == |done| && Increasing(from, k)
      && (forall j :: 0 <= j < |kept| ==> kept[j] == cells[from[j]])
      && (forall j :: 0 <= j < |kept| ==> Holds(kept[j], done[j]))
      && (forall j :: k <= j < |cells| ==> Holds(cells[j], values[j]))
    }

    /** One step of the walk. */
    method ProcessAt(cells: seq<Cell>, k: nat, kept: seq<Cell>, cb: Callbacks,
                     ghost from: seq<nat>, ghost done: seq<Alarm>, ghost values: seq<Alarm>)
        returns (called: bool, kept': seq<Cell>, ghost from': seq<nat>, ghost done': seq<Alarm>)
      requires Walking(cells, k, kept, from, done, values) && k < |cells|
      modifies cells[k]
      ensures Walking(cells, k + 1, kept', from', done', values)
      ensures CalledIn(values[k], now) == if called then [cells[k].id] else []
      ensures done' == done + Ticked(values[k], now, cb)
    {
      var isKept;
      called, isKept := Process(cells[k], cb);
      if isKept {
        kept', from', done' := kept + [cells[k]], from + [k], done + [cells[k].Value()];
      } else {
        kept', from', done' := kept, from, done;
      }
    }

    /** Advances the counter, which wraps, and the clock, which does not. */
    method Advance()
      requires nticks == now % WRAP
      modifies this`nticks, this`now
      ensures nticks == now % WRAP && now == old(now) + 1
    {
      CounterAdvances(now);
      nticks := if nticks == WRAP - 1 then 0 else nticks + 1;
      now := now + 1;
    }

    /** What the walk has recorded once it has passed every cell. */
    lemma WalkEnds(cells: seq<Cell>, kept: seq<Cell>, from: seq<nat>, done: seq<Alarm>, values: seq<Alarm>)
      requires Walking(cells, |cells|, kept, from, done, values)
      ensures DistinctNames(kept) && Values(kept) == done && values[..|cells|] == values
    {}

    /** What has been called and kept after k cells. */
    ghost predicate Walked(values: seq<Alarm>, k: nat, cb: Callbacks, done: seq<Alarm>, called: seq<nat>)
      reads this`now
      requires k <= |values|
    {
      done == TickList(values[..k], now, cb) && called == Called(values[..k], now)
    }

    method WalkStep(cells: seq<Cell>, k: nat, kept: seq<Cell>, called: seq<nat>, cb: Callbacks,
                    ghost from: seq<nat>, ghost done: seq<Alarm>, ghost values: seq<Alarm>)
        returns (called': seq<nat>, kept': seq<Cell>, ghost from': seq<nat>, ghost done': seq<Alarm>)
      requires Walking(cells, k, kept, from, done, values) && k < |cells| && Walked(values, k, cb, done, called)
      modifies cells[k]
      ensures Walking(cells, k + 1, kept', from', done', values) && Walked(values, k + 1, cb, done', called')
    {
      TickListExtends(values, k, now, cb);
      var isCalled;
      isCalled, kept', from', done' := ProcessAt(cells, k, kept, cb, from, done, values);
      called' := if isCalled then called + [cells[k].id] else called;
    }

    /** The walk over the list, calling, rescheduling and unlinking. */
    method WalkList(cells: seq<Cell>, cb: Callbacks, ghost values: seq<Alarm>)
        returns (called: seq<nat>, kept: seq<Cell>)
      requires Walking(cells, 0, [], [], [], values)
      modifies cells
      ensures DistinctNames(kept) && Values(kept) == TickList(values, now, cb)
      ensures called == Called(values, now)
    {
      called, kept := [], [];
      ghost var from: seq<nat>, done: seq<Alarm> := [], [];
      for k := 0 to |cells|
        invariant Walking(cells, k, kept, from, done, values) && Walked(values, k, cb, done, called)
      {
        called, kept, from, done := WalkStep(cells, k, kept, called, cb, from, done, values);
      }
      WalkEnds(cells, kept, from, done, values);
    }

    method AdvanceAndWalk() returns (called: seq<nat>)
      requires Ordered()
      modifies this`nticks, this`now, this`list, list
      ensures Ordered() && now == old(now) + 1
      ensures Values(list) == TickList(old(Values(list)), now, cb)
      ensures called == Called(old(Values(list)), now)
    {
      ghost var values := Values(list);
      assert forall j :: 0 <= j < |list| ==> Holds(list[j], values[j]);
      Advance();
      called, list := WalkList(list, cb, values);
    }

    /** The tick routine: advances the counter, then walks the list. */
    method Tick() returns (called: seq<nat>)
      requires Valid()
      modifies this`nticks, this`now, this`list, this`log, this`ops, list
      ensures Valid() && ops == old(ops) + [Op.Tick]
      ensures State() == Step(old(State()), Op.Tick, cb)
      ensures called == Called(old(Values(list)), now)
    {
      RecordedNext(State(), ops, Op.Tick, cb);
      called := AdvanceAndWalk();
      log, ops := log + At(now, called), ops + [Op.Tick];
    }
  }

  /** Strictly increasing positions below k. */
  ghost predicate Increasing(from: seq<nat>, k: nat) {
    && (forall i, j :: 0 <= i < j < |from| ==> from[i] < from[j])
    && forall i :: 0 <= i < |from| ==> from[i] < k
  }
}
