/**
 Wall-clock time from the tick counter: gettimeofday and settimeofday of the HAL, with the source's
 32-bit arithmetic.
 */
module TimeOfDay {
  import opened Options

  /** Microseconds in a second. */
  const US: int := 1_000_000
  const TWO_31: int := 0x8000_0000
  const TWO_32: int := 0x1_0000_0000

  datatype TimeVal = TimeVal(sec: int, usec: int)
  datatype TimeZone = TimeZone(minutesWest: int, dst: int)

  /** The signed 32-bit value congruent to x. */
  function Int32(x: int): (r: int)
    ensures -TWO_31 <= r < TWO_31
  {
    var m := x % TWO_32;
    if m < TWO_31 then m else m - TWO_32
  }

  predicate IsInt32(x: int) { -TWO_31 <= x < TWO_31 }

  predicate InRange(t: TimeVal) { IsInt32(t.sec) && IsInt32(t.usec) }

  predicate Normal(t: TimeVal) { 0 <= t.usec < US }

  function Total(t: TimeVal): int { t.sec * US + t.usec }

  lemma Int32Same(x: int)
    requires IsInt32(x)
    ensures Int32(x) == x
  {}

  /** Wrapping early makes no difference. */
  lemma Int32Absorbs(x: int, y: int)
    ensures Int32(Int32(x) + y) == Int32(x + y)
  {
    var k := x / TWO_32;
    assert x == TWO_32 * k + x % TWO_32;
  }

  // ----- What the calls compute -----

  /** Whole seconds and microseconds before normalisation. The product is taken in 64 bits. */
  function Raw(reset: TimeVal, nticks: nat, rate: nat): (t: TimeVal)
    requires rate > 0
    ensures InRange(t)
  {
    TimeVal(Int32(reset.sec + nticks / rate), Int32(reset.usec + nticks * (US / rate) % US))
  }

  /** Times before the epoch with a borrow pending are clamped to zero. */
  predicate Clamped(raw: TimeVal) { raw.usec < 0 && Total(raw) < 0 }

  /** The normal form of a time, with seconds in 32 bits. */
  function Normalised(raw: TimeVal): TimeVal {
    if Clamped(raw) then TimeVal(0, 0) else TimeVal(Int32(Total(raw) / US), Total(raw) % US)
  }

  function Reading(reset: TimeVal, nticks: nat, rate: nat): TimeVal
    requires rate > 0
  {
    Normalised(Raw(reset, nticks, rate))
  }

  /** The reset time that setting t stores. The product is taken in 32 bits. */
  function ResetFor(t: TimeVal, nticks: nat, rate: nat): (reset: TimeVal)
    requires rate > 0
    ensures InRange(reset)
  {
    TimeVal(Int32(t.sec - nticks / rate), Int32(t.usec - nticks * (US / rate) % TWO_32 % US))
  }

  // ----- The calls -----

  datatype GetResult = Got(time: TimeVal, zone: Option<TimeZone>) | NotSupported
  datatype SetResult = Done | NoSys

  lemma NormalForm(raw: TimeVal, sec: int, usec: int)
    requires !Clamped(raw) && sec * US + usec == Total(raw) && 0 <= usec < US
    ensures Normalised(raw) == TimeVal(Int32(sec), usec)
  {
    assert Total(raw) / US == sec;
  }

  /** The two normalising loops. */
  method Normalise(raw: TimeVal) returns (t: TimeVal)
    requires InRange(raw)
    ensures t == Normalised(raw)
  {
    var sec, usec := raw.sec, raw.usec;
    while usec < 0
      invariant usec < US || usec == raw.usec
      invariant raw.usec >= 0 ==> usec == raw.usec && sec == raw.sec
      invariant sec * US + usec == Total(raw) && IsInt32(sec)
      invariant raw.usec < 0 && usec >= 0 ==> sec >= 0
      decreases -usec
    {
      if sec <= 0 {
        return TimeVal(0, 0);
      }
      sec := sec - 1;
      usec := usec + US;
    }
    ghost var exact := sec;
    Int32Same(sec);
    while usec >= US
      invariant usec >= 0 && exact * US + usec == Total(raw) && sec == Int32(exact)
      decreases usec
    {
      Int32Absorbs(exact, 1);
      sec := Int32(sec + 1);
      exact := exact + 1;
      usec := usec - US;
    }
    NormalForm(raw, exact, usec);
    t := TimeVal(sec, usec);
  }

  class Clock {
    var resetTime: TimeVal
    var zone: TimeZone

    constructor ()
      ensures resetTime == TimeVal(0, 0) && zone == TimeZone(0, 0)
    {
      resetTime, zone := TimeVal(0, 0), TimeZone(0, 0);
    }

    /** gettimeofday at a tick count and rate; a rate of zero means no system clock. */
    method GetTimeOfDay(nticks: nat, rate: nat, wantZone: bool) returns (r: GetResult)
      requires nticks < TWO_32 && rate < TWO_32
      ensures r == if rate == 0 then NotSupported
                   else Got(Reading(resetTime, nticks, rate), if wantZone then Some(zone) else None)
    {
      if rate == 0 {
        return NotSupported;
      }
      var sec := Int32(resetTime.sec + nticks / rate);
      var usec := Int32(resetTime.usec + nticks * (US / rate) % US);
      var t := Normalise(TimeVal(sec, usec));
      r := Got(t, if wantZone then Some(zone) else None);
    }

    method SetTimeOfDay(t: TimeVal, tz: TimeZone, nticks: nat, rate: nat) returns (r: SetResult)
      requires nticks < TWO_32 && rate < TWO_32
      modifies this
      ensures r == if rate == 0 then NoSys else Done
      ensures rate == 0 ==> resetTime == old(resetTime) && zone == old(zone)
      ensures rate > 0 ==> resetTime == ResetFor(t, nticks, rate) && zone == tz
    {
      if rate == 0 {
        return NoSys;
      }
      resetTime := TimeVal(Int32(t.sec - nticks / rate), Int32(t.usec - nticks * (US / rate) % TWO_32 % US));
      zone := tz;
      r := Done;
    }
  }

  // ----- Elapsed time -----

  /** The rate divides a million. */
  predicate Exact(rate: nat) { rate > 0 && US % rate == 0 }

  /** No 32-bit sum overflows. */
  predicate Fits(reset: TimeVal, nticks: nat, rate: nat)
    requires rate > 0
  {
    IsInt32(reset.sec + nticks / rate) && IsInt32(reset.usec + nticks * (US / rate) % US)
  }

  /** Seconds and microseconds together count every tick. */
  lemma TicksSplit(nticks: nat, rate: nat)
    requires Exact(rate)
    ensures var q := US / rate;
            nticks * q / US == nticks / rate && nticks * q == nticks / rate * US + nticks * q % US
  {
    var q, s, r := US / rate, nticks / rate, nticks % rate;
    assert rate * q == US;
    assert nticks * q == (rate * s) * q + r * q;
    assert (rate * s) * q == s * US;
    assert r * q <= (rate - 1) * q;
    assert (rate - 1) * q == US - q;
    assert nticks * q == s * US + r * q && 0 <= r * q < US;
  }

  /** Before normalisation the time is the reset time plus the ticks, exactly. */
  lemma RawIsElapsed(reset: TimeVal, nticks: nat, rate: nat)
    requires Exact(rate) && Fits(reset, nticks, rate)
    ensures Total(Raw(reset, nticks, rate)) == Total(reset) + nticks * (US / rate)
  {
    TicksSplit(nticks, rate);
    Int32Same(reset.sec + nticks / rate);
    Int32Same(reset.usec + nticks * (US / rate) % US);
  }

  /** Neither a 32-bit sum nor the carry into seconds overflows. */
  predicate Representable(reset: TimeVal, nticks: nat, rate: nat)
    requires rate > 0
  {
    Fits(reset, nticks, rate) && IsInt32(Total(Raw(reset, nticks, rate)) / US)
  }

  /**
   Outside the clamp the reading is normal and its total is the reset time plus nticks million-over-rate
   microseconds.
   */
  lemma ReadingIsElapsed(reset: TimeVal, nticks: nat, rate: nat)
    requires Exact(rate)
    ensures Representable(reset, nticks, rate) && !Clamped(Raw(reset, nticks, rate)) ==>
              var t := Reading(reset, nticks, rate);
              Normal(t) && Total(t) == Total(reset) + nticks * (US / rate)
  {
    if Representable(reset, nticks, rate) && !Clamped(Raw(reset, nticks, rate)) {
      RawIsElapsed(reset, nticks, rate);
      ReadingTotal(Raw(reset, nticks, rate));
    }
  }

  lemma ReadingTotal(raw: TimeVal)
    requires IsInt32(Total(raw) / US)
    ensures Total(Normalised(raw)) == if Clamped(raw) then 0 else Total(raw)
  {
    Int32Same(Total(raw) / US);
  }

  /** Every reading is normal, clamped or not. */
  lemma ReadingIsNormal(reset: TimeVal, nticks: nat, rate: nat)
    requires rate > 0
    ensures Normal(Reading(reset, nticks, rate)) && InRange(Reading(reset, nticks, rate))
  {}

  lemma MulDifference(a: nat, b: nat, q: nat)
    requires a <= b
    ensures (b - a) * q == b * q - a * q >= 0
  {}

  /** Outside the clamp two readings differ by exactly the ticks between them, so time never runs backwards. */
  lemma ReadingsAreMonotone(reset: TimeVal, n1: nat, n2: nat, rate: nat)
    requires Exact(rate) && n1 <= n2
    ensures && Representable(reset, n1, rate) && !Clamped(Raw(reset, n1, rate))
            && Representable(reset, n2, rate) && !Clamped(Raw(reset, n2, rate)) ==>
              Total(Reading(reset, n2, rate)) - Total(Reading(reset, n1, rate)) == (n2 - n1) * (US / rate) >= 0
  {
    ReadingIsElapsed(reset, n1, rate);
    ReadingIsElapsed(reset, n2, rate);
    MulDifference(n1, n2, US / rate);
  }

  /** Of two readings the later is at least the earlier, unless the clamp hid a negative time that then shows. */
  lemma MonotoneIff(reset: TimeVal, n1: nat, n2: nat, rate: nat)
    requires Exact(rate) && n1 <= n2
    ensures Representable(reset, n1, rate) && Representable(reset, n2, rate) ==>
              var raw1, raw2 := Raw(reset, n1, rate), Raw(reset, n2, rate);
              Total(Reading(reset, n1, rate)) <= Total(Reading(reset, n2, rate)) <==>
                !(Clamped(raw1) && Total(raw2) < 0 <= raw2.usec)
  {
    if Representable(reset, n1, rate) && Representable(reset, n2, rate) {
      var raw1, raw2 := Raw(reset, n1, rate), Raw(reset, n2, rate);
      RawIsElapsed(reset, n1, rate);
      RawIsElapsed(reset, n2, rate);
      MulDifference(n1, n2, US / rate);
      ReadingTotal(raw1);
      ReadingTotal(raw2);
    }
  }

  /** Across the clamp it can: before the epoch, one tick takes the clock from zero to a negative time. */
  lemma ClampCanRunBackwards()
    ensures var reset := TimeVal(-5, -1);
            Reading(reset, 0, 1000) == TimeVal(0, 0) && Reading(reset, 1, 1000) == TimeVal(-5, 999)
  {
    var reset := TimeVal(-5, -1);
    Int32Same(-5);
    Int32Same(-1);
    Int32Same(999);
    assert Raw(reset, 0, 1000) == TimeVal(-5, -1);
    assert Raw(reset, 1, 1000) == TimeVal(-5, 999);
    NormalForm(TimeVal(-5, 999), -5, 999);
  }

  // ----- Setting and getting -----

  /** The microseconds that setting subtracts, and those that getting adds back. */
  function SetPart(nticks: nat, rate: nat): (a: nat)
    requires rate > 0
    ensures a < US
  {
    nticks * (US / rate) % TWO_32 % US
  }

  function GetPart(nticks: nat, rate: nat): (b: nat)
    requires rate > 0
    ensures b < US
  {
    nticks * (US / rate) % US
  }

  /** The part of the product that 32 bits drop is a whole number of seconds. */
  predicate DropsWholeSeconds(nticks: nat, rate: nat)
    requires rate > 0
  {
    nticks * (US / rate) / TWO_32 % 15625 == 0
  }

  /** 15625 divides k exactly when it divides 15114 k, as 12659 inverts 15114. */
  lemma Cancel(k: int)
    ensures 15114 * k % 15625 == 0 <==> k % 15625 == 0
  {
    if 15114 * k % 15625 == 0 {
      var z := 15114 * k / 15625;
      assert 15114 * k == 15625 * z;
      assert k == 15625 * (12659 * z - 12245 * k);
    }
    if k % 15625 == 0 {
      var z := k / 15625;
      assert 15114 * k == 15625 * (15114 * z);
    }
  }

  lemma SameResidue(m: int, d: int)
    ensures (m + d) % US == m % US <==> d % US == 0
  {}

  lemma DivideBy64(w: int)
    ensures 64 * w % US == 0 <==> w % 15625 == 0
  {}

  /** Dropping k multiples of 2^32 keeps the microseconds exactly when 15625 divides k. */
  lemma DroppedSeconds(x: nat)
    ensures x % TWO_32 % US == x % US <==> x / TWO_32 % 15625 == 0
  {
    var k, m := x / TWO_32, x % TWO_32;
    assert x == m + TWO_32 * k;
    SameResidue(m, TWO_32 * k);
    DroppedMultiple(k);
  }

  lemma DroppedMultiple(k: int)
    ensures TWO_32 * k % US == 0 <==> k % 15625 == 0
  {
    var w := 64 * (15114 * k);
    assert TWO_32 * k == w + US * (4294 * k);
    WholeSeconds(w, 4294 * k);
    DivideBy64(15114 * k);
    Cancel(k);
  }

  lemma WholeSeconds(w: int, n: int)
    ensures (w + US * n) % US == w % US
  {
    assert US * n / US == n;
    SameResidue(w, US * n);
  }

  lemma SmallQuotient(x: nat)
    requires x < TWO_32
    ensures x / TWO_32 % 15625 == 0
  {}

  lemma LosesNothingIff(nticks: nat, rate: nat)
    requires rate > 0
    ensures SetPart(nticks, rate) == GetPart(nticks, rate) <==> DropsWholeSeconds(nticks, rate)
  {
    DroppedSeconds(nticks * (US / rate));
  }

  /** Before normalisation, getting at once after setting differs from t by what the 32-bit product lost. */
  lemma RawAfterSet(t: TimeVal, nticks: nat, rate: nat)
    requires rate > 0 && InRange(t) && Normal(t)
    ensures Raw(ResetFor(t, nticks, rate), nticks, rate)
         == TimeVal(t.sec, t.usec + GetPart(nticks, rate) - SetPart(nticks, rate))
  {
    var s, a, b := nticks / rate, SetPart(nticks, rate), GetPart(nticks, rate);
    Int32Absorbs(t.sec - s, s);
    Int32Absorbs(t.usec - a, b);
    Int32Same(t.sec);
    Int32Same(t.usec - a + b);
  }

  lemma NormalisedShift(t: TimeVal, d: int)
    requires InRange(t) && Normal(t) && -US < d < US
    ensures Normalised(TimeVal(t.sec, t.usec + d)) == t <==> d == 0 || (t == TimeVal(0, 0) && d < 0)
  {
    var raw := TimeVal(t.sec, t.usec + d);
    assert Total(raw) == t.sec * US + t.usec + d;
    if d == 0 {
      assert Total(raw) / US == t.sec && Total(raw) % US == t.usec;
      Int32Same(t.sec);
    } else if !Clamped(raw) {
      assert Total(raw) % US != t.usec;
    }
  }

  /**
   Setting a time and getting it at once returns it if and only if it is normal and 32 bits drop a whole
   number of seconds from the product, or it is zero and the loss is hidden by the clamp.
   */
  lemma SetThenGetIff(t: TimeVal, nticks: nat, rate: nat)
    requires rate > 0 && InRange(t)
    ensures Reading(ResetFor(t, nticks, rate), nticks, rate) == t <==>
              && Normal(t)
              && (|| DropsWholeSeconds(nticks, rate)
                  || (t == TimeVal(0, 0) && SetPart(nticks, rate) > GetPart(nticks, rate)))
  {
    if Normal(t) {
      ghost var lost := SetPart(nticks, rate) - GetPart(nticks, rate);
      RawAfterSet(t, nticks, rate);
      LosesNothingIff(nticks, rate);
      NormalisedShift(t, -lost);
    } else {
      ReadingIsNormal(ResetFor(t, nticks, rate), nticks, rate);
    }
  }

  /** In particular until the product first reaches 2^32. */
  lemma SetThenGet(t: TimeVal, nticks: nat, rate: nat)
    requires rate > 0 && InRange(t) && Normal(t) && nticks * (US / rate) < TWO_32
    ensures Reading(ResetFor(t, nticks, rate), nticks, rate) == t
  {
    SmallQuotient(nticks * (US / rate));
    SetThenGetIff(t, nticks, rate);
  }

  /** At a thousand ticks a second that takes about 72 minutes, and then a time just set reads differently. */
  lemma SetThenGetCanDiffer()
    ensures 4_294_968 * (US / 1000) >= TWO_32
    ensures Reading(ResetFor(TimeVal(100, 0), 4_294_968, 1000), 4_294_968, 1000) != TimeVal(100, 0)
  {
    SetThenGetIff(TimeVal(100, 0), 4_294_968, 1000);
  }
}
