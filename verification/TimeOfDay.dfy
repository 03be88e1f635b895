/** The wall clock, kept as the time of the last set less the ticks elapsed until then. */
module TimeOfDay {

  const US := 1_000_000
  const WORD := 0x1_0000_0000

  type U32 = x: int | 0 <= x < WORD witness 0

  /** A long is 32 bits wide: arithmetic with unsigned words wraps. */
  function Long(x: int): int { (x + WORD / 2) % WORD - WORD / 2 }

  lemma LongExact(x: int)
    requires -WORD / 2 <= x < WORD / 2
    ensures Long(x) == x
  {
  }

  lemma LongSum(x: int, y: int)
    ensures Long(Long(x) + y) == Long(x + y)
  {
  }

  datatype Time = Time(sec: int, usec: int)

  datatype Zone = Zone(minutesWest: int, dstTime: int)

  datatype Status = Done | NotSupported

  /** A value of the C structure with its microseconds below a second. */
  predicate Timeval(t: Time) { -WORD / 2 <= t.sec < WORD / 2 && 0 <= t.usec < US }

  /** A time of day: not before the epoch. */
  predicate Proper(t: Time) { Timeval(t) && t.sec >= 0 }

  function Micros(t: Time): int { t.sec * US + t.usec }

  /** Microseconds per tick. */
  function PerTick(rate: U32): nat
    requires rate > 0
  {
    US / rate
  }

  /** Microseconds in a number of ticks. */
  function Worth(ticks: nat, rate: U32): nat
    requires rate > 0
  {
    ticks * PerTick(rate)
  }

  /** What set subtracts, from a product of 32 bits, and what get adds, from one of 64. */
  function SetMicros(nticks: U32, rate: U32): nat
    requires rate > 0
  {
    Worth(nticks, rate) % WORD % US
  }

  function GetMicros(nticks: U32, rate: U32): (r: nat)
    requires rate > 0
    ensures r < US
  {
    Worth(nticks, rate) % US
  }

  /** The sum of two times with its microseconds brought below a second; a sum whose
      microseconds are negative is taken as zero when there is no second to borrow. */
  function Normalised(sum: Time): Time {
    if sum.usec < 0 then if sum.sec <= 0 then Time(0, 0) else Time(sum.sec - 1, sum.usec + US)
    else if sum.usec >= US then Time(Long(sum.sec + 1), sum.usec - US)
    else sum
  }

  /** The time shown when the counter reads `nticks`. */
  function Shown(reset: Time, nticks: U32, rate: U32): Time
    requires rate > 0
  {
    Normalised(Time(Long(reset.sec + nticks / rate), reset.usec + GetMicros(nticks, rate)))
  }

  class WallClock {
    var nticks: U32
    var tickRate: U32
    var reset: Time
    var zone: Zone

    /** settimeofday */
    method Set(t: Time, tz: Zone) returns (status: Status)
      modifies this`reset, this`zone
      ensures status == if tickRate == 0 then NotSupported else Done
      ensures tickRate == 0 ==> reset == old(reset) && zone == old(zone)
      ensures tickRate > 0 ==> zone == tz && reset == Stored(t, nticks, tickRate)
    {
      if tickRate == 0 {
        return NotSupported;
      }
      reset := Time(Long(t.sec - nticks / tickRate), Long(t.usec - SetMicros(nticks, tickRate)));
      zone := tz;
      status := Done;
    }

    /** The two loops of gettimeofday. */
    static method Normalise(sum: Time) returns (time: Time)
      requires -US < sum.usec < 2 * US
      ensures time == Normalised(sum)
    {
      time := sum;
      while time.usec < 0
        invariant time == sum || (sum.usec < 0 && time == Normalised(sum))
        decreases -time.usec
      {
        if time.sec <= 0 {
          time := Time(0, 0);
          break;
        } else {
          time := Time(time.sec - 1, time.usec + US);
        }
      }
      while time.usec >= US
        invariant 0 <= time.usec && (time == sum || time == Normalised(sum))
      {
        time := Time(Long(time.sec + 1), time.usec - US);
      }
    }

    /** gettimeofday */
    method Get() returns (status: Status, time: Time, tz: Zone)
      requires -US < reset.usec < US
      ensures status == if tickRate == 0 then NotSupported else Done
      ensures status.Done? ==> tz == zone && time == Shown(reset, nticks, tickRate)
    {
      time, tz := Time(0, 0), zone;
      if tickRate == 0 {
        return NotSupported, time, tz;
      }
      hide GetMicros, Long;
      var elapsed := nticks / tickRate;
      time := Normalise(Time(Long(reset.sec + elapsed), reset.usec + GetMicros(nticks, tickRate)));
      status := Done;
    }
  }

  // ----- set, then get -----

  /** What set stores. */
  function Stored(t: Time, nticks: U32, rate: U32): Time
    requires rate > 0
  {
    Time(Long(t.sec - nticks / rate), Long(t.usec - SetMicros(nticks, rate)))
  }

  /** For a tick rate that divides a second, seconds and microseconds make up the ticks. */
  lemma TicksAdd(nticks: U32, rate: U32)
    requires rate > 0 && US % rate == 0
    ensures nticks / rate * US + GetMicros(nticks, rate) == Worth(nticks, rate)
  {
    var per := PerTick(rate);
    assert per * rate == US;
    var q, r := nticks / rate, nticks % rate;
    assert nticks * per == q * US + r * per by {
      assert nticks == q * rate + r;
      assert (q * rate + r) * per == q * (rate * per) + r * per;
    }
    assert 0 <= r * per < US by {
      assert r * per <= (rate - 1) * per;
      assert (rate - 1) * per == US - per;
    }
    Remainder(q, r * per);
  }

  lemma Remainder(q: nat, r: nat)
    requires r < US
    ensures (q * US + r) % US == r
  {
  }

  lemma StoredExact(t: Time, nticks: U32, rate: U32)
    requires Proper(t) && rate > 0 && US % rate == 0 && Worth(nticks, rate) < WORD
    ensures nticks / rate < 5000
    ensures Stored(t, nticks, rate) == Time(t.sec - nticks / rate, t.usec - GetMicros(nticks, rate))
    ensures Micros(Stored(t, nticks, rate)) == Micros(t) - Worth(nticks, rate)
  {
    TicksAdd(nticks, rate);
    var product := Worth(nticks, rate);
    SmallProduct(product);
    assert SetMicros(nticks, rate) == GetMicros(nticks, rate);
    hide Worth, GetMicros, SetMicros, PerTick, Long;
    var elapsed, micros := nticks / rate, GetMicros(nticks, rate);
    assert elapsed * US + micros == product;
    LongExact(t.sec - elapsed);
    LongExact(t.usec - micros);
  }

  lemma SmallProduct(x: nat)
    requires x < WORD
    ensures x % WORD % US == x % US
  {
  }

  lemma NormalisedKeeps(sum: Time)
    requires -US < sum.usec < 2 * US && Micros(sum) >= 0 && sum.sec < 0x7fff_ffff
    ensures var time := Normalised(sum); 0 <= time.usec < US && 0 <= time.sec && Micros(time) == Micros(sum)
  {
  }

  lemma MicrosInjective(s: Time, t: Time)
    requires 0 <= s.usec < US && 0 <= t.usec < US && Micros(s) == Micros(t)
    ensures s == t
  {
  }

  lemma WorthDistributes(a: nat, b: nat, rate: U32)
    requires a <= b && rate > 0
    ensures Worth(b, rate) - Worth(a, rate) == Worth(b - a, rate)
  {
  }

  lemma ShownKeeps(reset: Time, nticks: U32, rate: U32, elapsed: nat)
    requires rate > 0 && elapsed == nticks / rate && -US < reset.usec <= US
    requires -WORD / 2 <= reset.sec && reset.sec + elapsed < 0x7fff_ffff
    requires Micros(reset) + elapsed * US + GetMicros(nticks, rate) >= 0
    ensures var time := Shown(reset, nticks, rate);
      && 0 <= time.usec < US && 0 <= time.sec
      && Micros(time) == Micros(reset) + elapsed * US + GetMicros(nticks, rate)
  {
    LongExact(reset.sec + elapsed);
    var micros := GetMicros(nticks, rate);
    hide Long, Normalised, GetMicros;
    NormalisedKeeps(Time(reset.sec + elapsed, reset.usec + micros));
  }

  lemma Elapsed(t: Time, rate: U32, start: U32, now: U32, elapsed: nat)
    requires Proper(t) && rate > 0 && US % rate == 0 && elapsed == now / rate
    requires start <= now && Worth(start, rate) < WORD && t.sec + elapsed < 0x7fff_ffff
    ensures var reset := Stored(t, start, rate);
      && Micros(reset) + elapsed * US + GetMicros(now, rate) == Micros(t) + Worth(now - start, rate)
      && Micros(t) >= 0 && (now == start ==> Worth(now - start, rate) == 0)
      && -US < reset.usec <= US && -WORD / 2 <= reset.sec && reset.sec + elapsed < 0x7fff_ffff
  {
    StoredExact(t, start, rate);
    TicksAdd(now, rate);
    WorthDistributes(start, now, rate);
    hide Worth, GetMicros, SetMicros, PerTick, Long, Stored, Shown, Normalised;
  }

  /** When a second is a whole number of ticks and the ticks until the set fit a word in
      microseconds, the clock shows exactly the time set plus the ticks since. */
  lemma SetThenGet(t: Time, rate: U32, start: U32, now: U32)
    requires Proper(t) && rate > 0 && US % rate == 0
    requires start <= now && Worth(start, rate) < WORD && t.sec + now / rate < 0x7fff_ffff
    ensures var time := Shown(Stored(t, start, rate), now, rate);
      && 0 <= time.usec < US && 0 <= time.sec
      && Micros(time) == Micros(t) + Worth(now - start, rate)
      && (now == start ==> time == t)
  {
    hide Worth, GetMicros, SetMicros, PerTick, Long, Stored, Shown, Normalised, Micros;
    Elapsed(t, rate, start, now, now / rate);
    ShownKeeps(Stored(t, start, rate), now, rate, now / rate);
    if now == start {
      MicrosInjective(Shown(Stored(t, start, rate), now, rate), t);
    }
  }

  lemma DivisionGrows(a: nat, b: nat, d: nat)
    requires a <= b && d > 0
    ensures a / d <= b / d
  {
    var x, y := a / d, b / d;
    assert d * x <= a && b < d * y + d;
    assert d * (y + 1 - x) > 0;
    PositiveFactor(d, y + 1 - x);
  }

  lemma PositiveFactor(d: nat, z: int)
    requires d * z > 0
    ensures z > 0
  {
  }

  /** Hence time never goes back between two readings. */
  lemma Monotone(t: Time, rate: U32, start: U32, earlier: U32, later: U32)
    requires Proper(t) && rate > 0 && US % rate == 0
    requires start <= earlier <= later && Worth(start, rate) < WORD && t.sec + later / rate < 0x7fff_ffff
    ensures Micros(Shown(Stored(t, start, rate), later, rate)) - Micros(Shown(Stored(t, start, rate), earlier, rate))
            == Worth(later - earlier, rate) >= 0
  {
    DivisionGrows(earlier, later, rate);
    hide Stored, Shown, PerTick, Worth;
    SetThenGet(t, rate, start, earlier);
    SetThenGet(t, rate, start, later);
    WorthDistributes(earlier - start, later - start, rate);
  }

  // ----- exactly when the time just set is the time shown -----

  /** The product of set wraps at 2^32: its remainder in microseconds survives exactly when
      the number of wraps is a multiple of 5^6. */
  lemma WrapSurvives(x: nat)
    ensures x % WORD % US == x % US <==> x / WORD % 15625 == 0
  {
    var k, low := x / WORD, x % WORD;
    assert x == WORD * k + low;
    if k % 15625 == 0 {
      var m := k / 15625;
      assert WORD * k == US * (67108864 * m);
      Shifted(low, 67108864 * m);
    }
    if low % US == x % US {
      WrapsDivide(k, x / US - low / US);
    }
  }

  lemma WrapsDivide(k: nat, q: int)
    requires WORD * k == US * q
    ensures k % 15625 == 0
  {
    assert k == 15625 * (q * 12659 - k * 54369991);
  }

  lemma Shifted(low: nat, q: nat)
    ensures (US * q + low) % US == low % US
  {
  }

  /** For any time and any tick rate, an immediate reading shows the time just set if and
      only if the wraps of the product in set add up to nothing, or the time is zero and
      clamped to zero again. */
  lemma SetGetIdentityIff(t: Time, nticks: U32, rate: U32)
    requires Timeval(t) && rate > 0
    ensures Shown(Stored(t, nticks, rate), nticks, rate) == t
            <==> Worth(nticks, rate) / WORD % 15625 == 0
                 || (t == Time(0, 0) && GetMicros(nticks, rate) < SetMicros(nticks, rate))
  {
    WrapSurvives(Worth(nticks, rate));
    LongSum(t.sec - nticks / rate, nticks / rate);
    LongExact(t.sec);
    LongNext(t.sec);
    LongExact(t.usec - SetMicros(nticks, rate));
    hide Worth, PerTick, Long;
  }

  lemma LongNext(x: int)
    ensures Long(x + 1) != Long(x)
  {
  }

  /** For instance at a thousand ticks a second, 4,294,968 ticks (72 minutes) after reset: the time
      set is not the time shown. */
  lemma SetGetDeparts(t: Time, nticks: U32, rate: U32)
    requires t == Time(1_700_000_000, 0) && nticks == 4_294_968 && rate == 1000
    ensures Shown(Stored(t, nticks, rate), nticks, rate) != t
  {
    SetGetIdentityIff(t, nticks, rate);
    assert Worth(nticks, rate) == 4_294_968_000;
  }
}
