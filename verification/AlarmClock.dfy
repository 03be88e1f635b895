/** When an alarm calls back: 32-bit times and a rollover flag against the true tick count. */
module AlarmClock {
  import opened Options

  const WRAP := 0x1_0000_0000

  /** An unsigned 32-bit tick count. */
  type Ticks = x: int | 0 <= x < WRAP witness 0

  /** The part of a registered alarm that decides when it calls back. `callback` gives the
      period returned by each call, `calls` counts the calls made. */
  datatype Alarm = Alarm(time: Ticks, rollover: bool, callback: nat -> Ticks, calls: nat)

  /** What one tick does to an alarm: `after` is its state unless it was removed. */
  datatype Outcome = Outcome(fired: bool, after: Option<Alarm>)

  function Sum(x: Ticks, y: Ticks): Ticks { (x + y) % WRAP }

  /** An alarm registered when the counter reads `current`. */
  function Arm(current: Ticks, delay: Ticks, callback: nat -> Ticks): Alarm {
    var time := Sum(Sum(delay, current), 1);
    Alarm(time, time < current, callback, 0)
  }

  /** The body of the tick loop for one alarm; `nticks` is the counter after the increment. */
  function OnTick(a: Alarm, nticks: Ticks): Outcome {
    var rollover := a.rollover && nticks != 0;
    if a.time <= nticks && !rollover then
      var period := a.callback(a.calls);
      if period == 0 then Outcome(true, None)
      else
        var time := Sum(a.time, period);
        Outcome(true, Some(Alarm(time, time < nticks, a.callback, a.calls + 1)))
    else Outcome(false, Some(a.(rollover := rollover)))
  }

  // ----- the invariant -----

  /** Before tick `now + 1` the alarm waits for tick `due`: less than one wrap ahead, with
      the rollover flag set exactly when `due` lies in the next wrap of the counter. */
  predicate Waits(a: Alarm, now: nat, due: nat) {
    && now < due < now + WRAP
    && a.time == due % WRAP
    && (a.rollover <==> due / WRAP == now / WRAP + 1)
  }

  lemma Wrapped(x: nat, y: nat)
    requires x <= y < x + WRAP
    ensures y / WRAP == x / WRAP || y / WRAP == x / WRAP + 1
    ensures y / WRAP == x / WRAP + 1 <==> y % WRAP < x % WRAP
  {
  }

  lemma SumWraps(x: nat, y: nat)
    requires y < WRAP
    ensures Sum(x % WRAP, y) == (x + y) % WRAP
  {
  }

  /** A new alarm waits for its first due tick, if that is less than one wrap ahead. */
  lemma ArmWaits(now: nat, delay: Ticks, callback: nat -> Ticks)
    requires delay < WRAP - 1
    ensures Waits(Arm(now % WRAP, delay, callback), now, now + delay + 1)
  {
    SumWraps(now, delay);
    SumWraps(now + delay, 1);
    Wrapped(now, now + delay + 1);
  }

  /** A tick calls back exactly when it is the due tick, removes the alarm exactly when the
      callback returns 0, and otherwise leaves it waiting for its next due tick. */
  lemma TickKeepsWaiting(a: Alarm, now: nat, due: nat)
    requires Waits(a, now, due)
    ensures var o := OnTick(a, (now + 1) % WRAP);
      && (o.fired <==> due == now + 1)
      && (o.after.None? <==> o.fired && a.callback(a.calls) == 0)
      && (o.after.Some? ==>
            && o.after.value.callback == a.callback
            && o.after.value.calls == (if o.fired then a.calls + 1 else a.calls)
            && Waits(o.after.value, now + 1, if o.fired then due + a.callback(a.calls) else due))
  {
    var n := now + 1;
    Wrapped(n, due);
    Wrapped(now, n);
    if due == n {
      var period := a.callback(a.calls);
      SumWraps(n, period);
      Wrapped(n, n + period);
    }
  }

  // ----- whole runs -----

  /** The true ticks at which the alarm calls back in the `n` ticks after `now`. */
  function Calls(a: Alarm, now: nat, n: nat): seq<nat>
    decreases n
  {
    if n == 0 then []
    else
      var o := OnTick(a, (now + 1) % WRAP);
      (if o.fired then [now + 1] else []) + (if o.after.None? then [] else Calls(o.after.value, now + 1, n - 1))
  }

  /** The ticks the application asked for, up to `last`: the first, then each later one the
      returned period after the one before, until a call returns 0. */
  function DueTicks(due: nat, callback: nat -> Ticks, calls: nat, last: nat): seq<nat>
    decreases last + 1 - due
  {
    if due > last then []
    else [due] + (if callback(calls) == 0 then [] else DueTicks(due + callback(calls), callback, calls + 1, last))
  }

  lemma {:induction false} WaitingRunIsPunctual(a: Alarm, now: nat, due: nat, n: nat)
    requires Waits(a, now, due)
    ensures Calls(a, now, n) == DueTicks(due, a.callback, a.calls, now + n)
    decreases n
  {
    hide OnTick;
    if n > 0 {
      TickKeepsWaiting(a, now, due);
      var o := OnTick(a, (now + 1) % WRAP);
      if o.after.Some? {
        var due' := if o.fired then due + a.callback(a.calls) else due;
        WaitingRunIsPunctual(o.after.value, now + 1, due', n - 1);
      }
    }
  }

  /** Over any number of ticks and counter wraps, an alarm calls back at exactly the ticks
      asked for. */
  lemma Punctual(now: nat, delay: Ticks, callback: nat -> Ticks, n: nat)
    requires delay < WRAP - 1
    ensures Calls(Arm(now % WRAP, delay, callback), now, n) == DueTicks(now + delay + 1, callback, 0, now + n)
  {
    ArmWaits(now, delay, callback);
    WaitingRunIsPunctual(Arm(now % WRAP, delay, callback), now, now + delay + 1, n);
  }

  /** The longest delay puts the due tick a whole wrap ahead; it is served on time only when
      the alarm is started at the last count before a wrap, and at the next tick otherwise. */
  lemma LongestDelay(now: nat, callback: nat -> Ticks, n: nat)
    ensures var a := Arm(now % WRAP, WRAP - 1, callback);
      && (now % WRAP == WRAP - 1 ==> Calls(a, now, n) == DueTicks(now + WRAP, callback, 0, now + n))
      && (now % WRAP != WRAP - 1 ==> Calls(a, now, 1) == [now + 1])
  {
    hide Arm, Waits, OnTick, DueTicks, Calls;
    var a := Arm(now % WRAP, WRAP - 1, callback);
    LongestIsNow(now, callback);
    if now % WRAP == WRAP - 1 {
      CallsUnfolds(a, now, n);
      if n > 0 {
        AtTheWrap(a, now, callback);
        WaitingRunIsPunctual(a, now + 1, now + WRAP, n - 1);
      } else {
        NothingDue(now + WRAP, callback, now);
      }
    } else {
      var o := OnTick(a, (now + 1) % WRAP);
      AfterTheStart(a, now, callback);
      CallsUnfolds(a, now, 1);
      if o.after.Some? {
        CallsUnfolds(o.after.value, now + 1, 0);
      }
    }
  }

  lemma CallsUnfolds(a: Alarm, now: nat, n: nat)
    ensures var o := OnTick(a, (now + 1) % WRAP);
      Calls(a, now, n)
      == if n == 0 then [] else (if o.fired then [now + 1] else []) + (if o.after.None? then [] else Calls(o.after.value, now + 1, n - 1))
  {
  }

  /** The longest delay sets the time to the count at the start. */
  lemma LongestIsNow(now: nat, callback: nat -> Ticks)
    ensures Arm(now % WRAP, WRAP - 1, callback) == Alarm(now % WRAP, false, callback, 0)
  {
    SumWraps(now, WRAP - 1);
    SumWraps(now + WRAP - 1, 1);
  }

  /** Started at the last count, the alarm waits for the whole wrap to come. */
  lemma AtTheWrap(a: Alarm, now: nat, callback: nat -> Ticks)
    requires now % WRAP == WRAP - 1 && a == Alarm(WRAP - 1, false, callback, 0)
    ensures (now + 1) % WRAP == 0 && OnTick(a, 0) == Outcome(false, Some(a)) && Waits(a, now + 1, now + WRAP)
  {
    assert (now + 1) % WRAP == 0;
  }

  /** At any other count it is due at once. */
  lemma AfterTheStart(a: Alarm, now: nat, callback: nat -> Ticks)
    requires now % WRAP != WRAP - 1 && a == Alarm(now % WRAP, false, callback, 0)
    ensures OnTick(a, (now + 1) % WRAP).fired
  {
    assert (now + 1) % WRAP == now % WRAP + 1;
  }

  lemma NothingDue(due: nat, callback: nat -> Ticks, last: nat)
    requires due > last
    ensures DueTicks(due, callback, 0, last) == []
  {
  }

  /** Exactly which delays are served as asked. */
  lemma PunctualIff(now: nat, delay: Ticks, callback: nat -> Ticks)
    ensures (forall n: nat :: Calls(Arm(now % WRAP, delay, callback), now, n)
                              == DueTicks(now + delay + 1, callback, 0, now + n))
            <==> delay < WRAP - 1 || now % WRAP == WRAP - 1
  {
    hide Arm, Calls, DueTicks;
    var a := Arm(now % WRAP, delay, callback);
    if delay < WRAP - 1 {
      forall n: nat ensures Calls(a, now, n) == DueTicks(now + delay + 1, callback, 0, now + n) {
        Punctual(now, delay, callback, n);
      }
    } else if now % WRAP == WRAP - 1 {
      forall n: nat ensures Calls(a, now, n) == DueTicks(now + delay + 1, callback, 0, now + n) {
        LongestDelay(now, callback, n);
      }
    } else {
      LongestDelay(now, callback, 1);
      NothingDue(now + delay + 1, callback, now + 1);
    }
  }
}
