/** Registered alarms: a circular doubly linked list threaded through the alarms, walked and
    edited by the tick interrupt. */
module AlarmList {
  import opened Options
  import opened AlarmClock

  class Node {
    var next: Node?
    var previous: Node?
    var time: Ticks
    var rollover: bool
    var callback: nat -> Ticks
    var calls: nat
    ghost var fired: seq<nat>       // the true ticks of the calls so far

    /** An uninitialised alarm. */
    constructor ()
      ensures next == null && previous == null
    {
      next, previous := null, null;
      time, rollover, callback, calls, fired := 0, false, _ => 0, 0, [];
    }

    /** The head of an empty list. */
    constructor Head()
      ensures next == this && previous == this
    {
      time, rollover, callback, calls, fired := 0, false, _ => 0, 0, [];
      new;
      next, previous := this, this;
    }

    function Alarm(): AlarmClock.Alarm
      reads this`time, this`rollover, this`callback, this`calls
    {
      AlarmClock.Alarm(time, rollover, callback, calls)
    }
  }

  function First(head: Node, s: seq<Node>): Node { if s == [] then head else s[0] }

  function Last(head: Node, s: seq<Node>): Node { if s == [] then head else s[|s| - 1] }

  ghost function Nodes(s: seq<Node>): set<Node> { set n | n in s }

  lemma AllInside(s: seq<Node>)
    ensures Inside(s, Nodes(s))
  {
  }

  ghost predicate Inside(s: seq<Node>, area: set<Node>) {
    forall i :: 0 <= i < |s| ==> s[i] in area
  }

  ghost predicate Distinct(s: seq<Node>) {
    forall i, j :: 0 <= i < j < |s| ==> s[i] != s[j]
  }

  /** From `head` around, `next` passes through `s` in order, and `previous` back. */
  ghost predicate Linked(head: Node, s: seq<Node>)
    reads head`next, head`previous, s`next, s`previous
  {
    && head !in s && Distinct(s)
    && head.next == First(head, s) && head.previous == Last(head, s)
    && First(head, s).previous == head && Last(head, s).next == head
    && forall i, j :: 0 <= i && j == i + 1 && j < |s| ==> s[i].next == s[j] && s[j].previous == s[i]
  }

  /** An entry that was removed points to itself. */
  predicate Detached(n: Node)
    reads n`next, n`previous
  {
    n.next == n && n.previous == n
  }

  ghost function IndexOf(s: seq<Node>, n: Node): (k: nat)
    requires n in s
    ensures k < |s| && s[k] == n
  {
    var k: nat :| 0 <= k < |s| && s[k] == n; k
  }

  ghost function Without(s: seq<Node>, n: Node): seq<Node> {
    if n in s then s[..IndexOf(s, n)] + s[IndexOf(s, n) + 1..] else s
  }

  lemma FirstOf(head: Node, s: seq<Node>)
    requires Linked(head, s)
    ensures head.next == First(head, s) && head !in s && Distinct(s)
  {
  }

  lemma Neighbours(head: Node, s: seq<Node>, k: nat)
    requires Linked(head, s) && k < |s|
    ensures Distinct(s) && head !in s
    ensures s[k].previous == Last(head, s[..k]) && s[k].next == First(head, s[k + 1..])
  {
  }

  /** A new entry becomes the first. */
  method Insert(list: Node, entry: Node, ghost s: seq<Node>)
    requires Linked(list, s) && entry != list && entry !in s
    modifies list`next, entry`next, entry`previous, list.next`previous
    ensures Linked(list, [entry] + s)
  {
    entry.previous := list;
    entry.next := list.next;
    list.next.previous := entry;
    list.next := entry;
  }

  /** The neighbours of an entry are joined, and the entry to itself. */
  method Remove(entry: Node)
    requires entry.next != null && entry.previous != null
    modifies entry`next, entry`previous, entry.next`previous, entry.previous`next
    ensures Detached(entry)
    ensures old(entry.next) != entry ==> old(entry.next).previous == old(entry.previous)
    ensures old(entry.previous) != entry ==> old(entry.previous).next == old(entry.next)
  {
    entry.next.previous := entry.previous;
    entry.previous.next := entry.next;
    entry.previous := entry;
    entry.next := entry;
  }

  /** An entry leaves the list; the others stay linked in their order. */
  method RemoveEntry(entry: Node, ghost list: Node, ghost s: seq<Node>, ghost k: nat)
    requires Linked(list, s) && k < |s| && s[k] == entry
    requires entry.next != null && entry.previous != null
    modifies entry`next, entry`previous, entry.next`previous, entry.previous`next
    ensures Linked(list, s[..k] + s[k + 1..]) && Detached(entry)
  {
    ghost var before, after := entry.previous, entry.next;
    Neighbours(list, s, k);
    assert k > 0 ==> before == s[k - 1];
    assert k + 1 < |s| ==> after == s[k + 1];
    Remove(entry);
    ghost var t := s[..k] + s[k + 1..];
    forall i, j | 0 <= i && j == i + 1 && j < |t| ensures t[i].next == t[j] && t[j].previous == t[i] {
      if j < k {
        assert t[i] == s[i] && t[j] == s[j] && s[i] != before && s[j] != after;
      } else if i >= k {
        assert t[i] == s[i + 1] && t[j] == s[j + 1] && s[i + 1] != before && s[j + 1] != after;
      }
    }
    assert k > 0 ==> First(list, t) == s[0];
    assert k + 1 < |s| ==> Last(list, t) == s[|s| - 1];
  }

  /** Removing an entry again is harmless. */
  method RemoveAgain(entry: Node, ghost list: Node, ghost s: seq<Node>)
    requires Linked(list, s) && entry != list && entry !in s && Detached(entry)
    modifies entry`next, entry`previous
    ensures Linked(list, s) && unchanged(entry)
  {
    Remove(entry);
  }

  // ----- the timer -----

  datatype Status = Started | InvalidArgument | NotSupported

  /** The states of a list of alarms. */
  ghost function States(s: seq<Node>): seq<Alarm>
    reads s
  {
    seq(|s|, i requires 0 <= i < |s| reads s => s[i].Alarm())
  }

  /** The alarms that stay registered after a tick. */
  ghost function Kept(s: seq<Node>, states: seq<Alarm>, nticks: Ticks): seq<Node>
    requires |s| == |states|
  {
    if s == [] then []
    else
      var last := |s| - 1;
      Kept(s[..last], states[..last], nticks) + if OnTick(states[last], nticks).after.Some? then [s[last]] else []
  }

  lemma KeptNone(nticks: Ticks)
    ensures Kept([], [], nticks) == []
  {
  }

  lemma {:induction false} KeptMembers(s: seq<Node>, states: seq<Alarm>, nticks: Ticks)
    requires |s| == |states| && Distinct(s)
    ensures forall n :: n in Kept(s, states, nticks) ==> n in s
    ensures forall i :: 0 <= i < |s| ==> (s[i] in Kept(s, states, nticks) <==> OnTick(states[i], nticks).after.Some?)
  {
    hide OnTick;
    if s != [] {
      var last := |s| - 1;
      KeptMembers(s[..last], states[..last], nticks);
      assert s == s[..last] + [s[last]];
      forall i | 0 <= i < |s| ensures s[i] in Kept(s, states, nticks) <==> OnTick(states[i], nticks).after.Some? {
        if i < last { assert s[..last][i] == s[i]; }
      }
    }
  }

  /** The list in the middle of a tick: alarms kept so far, then the ones still to come. */
  lemma TurnSplits(all: seq<Node>, states: seq<Alarm>, k: nat, nticks: Ticks)
    requires k < |all| == |states| && Distinct(all)
    ensures var kept := Kept(all[..k], states[..k], nticks);
      var list := kept + all[k..];
      && list[|kept|] == all[k] && list[|kept| + 1..] == all[k + 1..]
      && (Distinct(list) ==> (if OnTick(states[k], nticks).after.Some? then list else Without(list, all[k]))
                             == Kept(all[..k + 1], states[..k + 1], nticks) + all[k + 1..])
      && (forall i :: 0 <= i < |all| && i != k ==> all[i] != all[k])
      && (forall i :: 0 <= i < k && OnTick(states[i], nticks).after.None? ==> all[i] !in list)
  {
    hide OnTick;
    assert all[..k + 1][..k] == all[..k] && states[..k + 1][..k] == states[..k];
    var kept := Kept(all[..k], states[..k], nticks);
    var list := kept + all[k..];
    assert list[|kept|] == all[k];
    assert list[..|kept|] == kept && list[|kept| + 1..] == all[k + 1..];
    KeptMembers(all[..k], states[..k], nticks);
    forall i | 0 <= i < k && OnTick(states[i], nticks).after.None? ensures all[i] !in list {
      assert all[i] == all[..k][i];
    }
    assert list == kept + [all[k]] + all[k + 1..];
    if Distinct(list) {
      assert IndexOf(list, all[k]) == |kept|;
    }
  }

  lemma AllIn(s: seq<Node>, area: set<Node>)
    requires Inside(s, area)
    ensures forall i :: 0 <= i < |s| ==> s[i] in area
  {
  }

  /** What a tick leaves of an alarm. */
  ghost predicate Ticked(n: Node, state: Alarm, fired: seq<nat>, now: nat)
    reads n`time, n`rollover, n`callback, n`calls, n`fired
  {
    TickedAs(n.Alarm(), n.fired, state, fired, now)
  }

  ghost predicate TickedAs(a: Alarm, fired': seq<nat>, state: Alarm, fired: seq<nat>, now: nat) {
    var o := OnTick(state, now % WRAP);
    fired' == fired + (if o.fired then [now] else []) && (o.after.Some? ==> a == o.after.value)
  }

  class Timer {
    const alarmList: Node
    var tickRate: Ticks
    var nticks: Ticks
    ghost var now: nat                 // ticks since reset
    ghost var alarms: seq<Node>

    ghost predicate Valid()
      reads this, alarmList, alarms
    {
      Linked(alarmList, alarms) && nticks == now % WRAP
    }

    constructor ()
      ensures Valid() && alarms == [] && now == 0 && tickRate == 0
      ensures fresh(alarmList)
    {
      alarmList := new Node.Head();
      tickRate, nticks, now, alarms := 0, 0, 0, [];
    }

    /** The clock driver sets the rate once. */
    method InitClock(rate: Ticks) returns (ok: bool)
      modifies this`tickRate
      ensures ok <==> old(tickRate) == 0
      ensures tickRate == if ok then rate else old(tickRate)
    {
      ok := tickRate == 0;
      if ok {
        tickRate := rate;
      }
    }

    /** alt_alarm_start */
    method Start(alarm: Node?, delay: Ticks, callback: nat -> Ticks) returns (status: Status)
      requires Valid()
      requires alarm != null ==> alarm != alarmList && alarm !in alarms
      modifies this`alarms, alarmList, alarms, alarm
      ensures status == if tickRate == 0 then NotSupported else if alarm == null then InvalidArgument else Started
      ensures Valid()
      ensures status.Started? ==> alarms == [alarm] + old(alarms) && alarm.Alarm() == Arm(nticks, delay, callback)
      ensures !status.Started? ==> alarms == old(alarms)
      ensures forall n :: n in old(alarms) ==> n.Alarm() == old(n.Alarm()) && n.fired == old(n.fired)
      ensures alarm != null ==> alarm.fired == old(alarm.fired)
    {
      if tickRate == 0 {
        return NotSupported;
      }
      if alarm == null {
        return InvalidArgument;
      }
      alarm.callback := callback;
      alarm.calls := 0;
      alarm.time := Sum(Sum(delay, nticks), 1);
      alarm.rollover := alarm.time < nticks;
      Insert(alarmList, alarm, alarms);
      alarms := [alarm] + alarms;
      status := Started;
    }

    /** alt_alarm_stop on a registered alarm */
    method Stop(alarm: Node, ghost area: set<Node>)
      requires Valid() && alarm in alarms && Inside(alarms, area)
      modifies this`alarms, alarmList`next, alarmList`previous, area`next, area`previous
      ensures Valid() && Detached(alarm) && Inside(alarms, area)
      ensures alarms == old(Without(alarms, alarm))
      ensures forall n :: n in area && n !in old(alarms) && n != alarmList ==> n.next == old(n.next) && n.previous == old(n.previous)
    {
      ghost var k := IndexOf(alarms, alarm);
      Neighbours(alarmList, alarms, k);
      RemoveEntry(alarm, alarmList, alarms, k);
      alarms := Without(alarms, alarm);
    }

    /** One turn of the tick loop: the next alarm to look at, and this one ticked. */
    method Process(alarm: Node, ghost state: Alarm, ghost area: set<Node>) returns (next: Node)
      requires Valid() && alarm in alarms && Inside(alarms, area) && alarm.Alarm() == state
      modifies this`alarms, alarmList`next, alarmList`previous, area`next, area`previous
      modifies alarm`time, alarm`rollover, alarm`calls, alarm`fired
      ensures Valid() && Inside(alarms, area) && next == old(alarm.next)
      ensures Ticked(alarm, state, old(alarm.fired), now)
      ensures OnTick(state, nticks).after.None? ==> Detached(alarm)
      ensures alarms == if OnTick(state, nticks).after.Some? then old(alarms) else old(Without(alarms, alarm))
      ensures forall n :: n in area && n !in old(alarms) && n != alarmList ==> n.next == old(n.next) && n.previous == old(n.previous)
    {
      hide Linked, Distinct, Waits;
      Neighbours(alarmList, alarms, IndexOf(alarms, alarm));
      next := alarm.next;
      if alarm.rollover && nticks == 0 {
        alarm.rollover := false;
      }
      if alarm.time <= nticks && !alarm.rollover {
        var nextCallback := alarm.callback(alarm.calls);
        alarm.calls := alarm.calls + 1;
        alarm.fired := alarm.fired + [now];
        if nextCallback == 0 {
          Stop(alarm, area);
        } else {
          alarm.time := Sum(alarm.time, nextCallback);
          if alarm.time < nticks {
            alarm.rollover := true;
          }
        }
      }
    }

    /** In the middle of a tick: the first `k` of the alarms registered at its start are
        done, the others are as they were, and the list holds exactly those not removed. */
    ghost predicate Walking(all: seq<Node>, states: seq<Alarm>, fired: seq<seq<nat>>, k: nat, area: set<Node>)
      requires k <= |all| == |states| == |fired|
      reads this, alarmList, alarms, all
    {
      && Valid() && Distinct(all) && alarmList !in all && Inside(all, area)
      && alarms == Kept(all[..k], states[..k], nticks) + all[k..]
      && (forall i :: 0 <= i < k ==> HadTurn(all[i], states[i], fired[i]))
      && (forall i :: k <= i < |all| ==> all[i].Alarm() == states[i] && all[i].fired == fired[i])
    }

    /** The alarm is ticked, and linked to nothing if that removed it. */
    ghost predicate HadTurn(n: Node, state: Alarm, fired: seq<nat>)
      reads this, n
    {
      Ticked(n, state, fired, now) && (OnTick(state, nticks).after.None? ==> Detached(n))
    }

    /** One turn as the list sees it. */
    method TurnList(alarm: Node, ghost all: seq<Node>, ghost states: seq<Alarm>, ghost fired: seq<seq<nat>>, ghost k: nat,
                    ghost area: set<Node>)
        returns (next: Node)
      requires k < |all| == |states| == |fired| && Walking(all, states, fired, k, area) && alarm == all[k]
      requires Inside(alarms, area)
      modifies this`alarms, alarmList`next, alarmList`previous, area`next, area`previous
      modifies alarm`time, alarm`rollover, alarm`calls, alarm`fired
      ensures Valid() && Inside(alarms, area) && HadTurn(alarm, states[k], fired[k])
      ensures alarms == Kept(all[..k + 1], states[..k + 1], nticks) + all[k + 1..]
      ensures next == First(alarmList, all[k + 1..])
      ensures forall n :: n in area && n !in old(alarms) && n != alarmList ==> n.next == old(n.next) && n.previous == old(n.previous)
    {
      hide OnTick, Kept, Sum, Linked, Without, First, TickedAs, Distinct, Detached, Inside;
      TurnSplits(all, states, k, nticks);
      Neighbours(alarmList, alarms, |Kept(all[..k], states[..k], nticks)|);
      assert alarm.next == First(alarmList, all[k + 1..]);
      next := Process(alarm, states[k], area);
    }

    /** One turn of the tick loop. */
    method Turn(alarm: Node, ghost all: seq<Node>, ghost states: seq<Alarm>, ghost fired: seq<seq<nat>>, ghost k: nat,
                ghost area: set<Node>)
        returns (next: Node)
      requires k < |all| == |states| == |fired| && Walking(all, states, fired, k, area) && alarm == all[k]
      requires Inside(alarms, area)
      modifies this`alarms, alarmList`next, alarmList`previous, area`next, area`previous
      modifies alarm`time, alarm`rollover, alarm`calls, alarm`fired
      ensures Walking(all, states, fired, k + 1, area) && next == First(alarmList, all[k + 1..])
      ensures Inside(alarms, area)
    {
      hide OnTick, Kept, Sum, Linked, Without, First, TickedAs, Distinct, Detached, Inside, Valid;
      ghost var list := alarms;
      AllIn(all, area);
      TurnSplits(all, states, k, nticks);
      next := TurnList(alarm, all, states, fired, k, area);
      forall i | 0 <= i < k ensures HadTurn(all[i], states[i], fired[i]) {
        var n := all[i];
        assert n != alarm && n in area && n != alarmList;
        assert n !in list ==> n.next == old(n.next) && n.previous == old(n.previous);
        assert n.Alarm() == old(n.Alarm()) && n.fired == old(n.fired) && old(HadTurn(n, states[i], fired[i]));
      }
      forall i | k < i < |all| ensures all[i].Alarm() == states[i] && all[i].fired == fired[i] {
        assert old(all[i].Alarm()) == states[i] && old(all[i].fired) == fired[i];
      }
    }

    /** The tick loop: every alarm registered at its start gets exactly one turn. */
    method Walk(ghost all: seq<Node>, ghost states: seq<Alarm>, ghost fired: seq<seq<nat>>, ghost area: set<Node>)
      requires |all| == |states| == |fired| && Walking(all, states, fired, 0, area) && alarms == all
      modifies this`alarms, alarmList, area
      ensures Walking(all, states, fired, |all|, area) && Inside(alarms, area)
    {
      hide OnTick, Kept, Ticked, Distinct, Linked;
      FirstOf(alarmList, alarms);
      assert all[0..] == all;
      var alarm := alarmList.next;
      ghost var k := 0;
      while alarm != alarmList
        invariant 0 <= k <= |all| && Walking(all, states, fired, k, area) && Inside(alarms, area)
        invariant alarm == First(alarmList, all[k..])
        decreases |all| - k
      {
        assert alarm == all[k];
        var next := Turn(alarm, all, states, fired, k, area);
        alarm := next;
        k := k + 1;
      }
    }

    /** alt_tick */
    method Tick()
      requires Valid()
      modifies this`nticks, this`now, this`alarms, alarmList, Nodes(alarms)
      ensures Valid() && now == old(now) + 1
      ensures alarms == Kept(old(alarms), old(States(alarms)), nticks)
      ensures forall i :: 0 <= i < |old(alarms)| ==>
        var n, state := old(alarms)[i], old(States(alarms))[i];
        HadTurn(n, state, old(n.fired))
    {
      hide OnTick, Kept, Ticked, Sum, Linked, Distinct, Nodes, Inside;
      FirstOf(alarmList, alarms);
      ghost var all, states := alarms, States(alarms);
      ghost var fired := seq(|all|, i requires 0 <= i < |all| reads all => all[i].fired);
      SumWraps(now, 1);
      nticks := Sum(nticks, 1);
      now := now + 1;
      KeptNone(nticks);
      assert all[..0] == [] && states[..0] == [];
      AllInside(all);
      Walk(all, states, fired, Nodes(all));
      assert all[..|all|] == all && states[..|all|] == states;
    }

    /** With `left` ticks to go, the calls of `n` are bound to end up as `target`. */
    ghost predicate Reaches(n: Node, target: seq<nat>, left: nat)
      reads this, n
    {
      target == n.fired + if n in alarms then Calls(n.Alarm(), now, left) else []
    }

    lemma OneCloser(n: Node, target: seq<nat>, left: nat, state: Alarm, fired: seq<nat>)
      requires left > 0 && now > 0 && nticks == now % WRAP
      requires target == fired + Calls(state, now - 1, left) && Ticked(n, state, fired, now)
      requires n in alarms <==> OnTick(state, nticks).after.Some?
      ensures Reaches(n, target, left - 1)
    {
      hide Calls, OnTick;
      CallsStep(state, now - 1, left, fired);
    }

    lemma Aims(n: Node, left: nat)
      ensures Reaches(n, n.fired + if n in alarms then Calls(n.Alarm(), now, left) else [], left)
    {
    }

    lemma Arrived(n: Node, target: seq<nat>)
      requires Reaches(n, target, 0)
      ensures n.fired == target
    {
      CallsNone(n.Alarm(), now, n.fired);
    }

    /** One tick brings every alarm one step closer to its target. */
    method TickTowards(ghost all: seq<Node>, ghost target: map<Node, seq<nat>>, ghost left: nat)
      requires Valid() && left > 0 && alarmList !in all
      requires forall i :: 0 <= i < |alarms| ==> alarms[i] in all
      requires forall n :: n in all ==> n in target && Reaches(n, target[n], left)
      modifies this`nticks, this`now, this`alarms, alarmList, Nodes(alarms)
      ensures Valid() && now == old(now) + 1
      ensures forall i :: 0 <= i < |alarms| ==> alarms[i] in all
      ensures forall n :: n in all ==> Reaches(n, target[n], left - 1)
    {
      hide Linked, Calls, OnTick, Kept, Distinct, Ticked;
      ghost var before, states, fired := alarms, States(alarms), map n | n in alarms :: n.fired;
      FirstOf(alarmList, alarms);
      Tick();
      KeptMembers(before, states, nticks);
      forall n | n in all ensures Reaches(n, target[n], left - 1) {
        if n in before {
          var i :| 0 <= i < |before| && before[i] == n;
          assert old(Reaches(n, target[n], left));
          OneCloser(n, target[n], left, states[i], fired[n]);
        }
      }
      forall i | 0 <= i < |alarms| ensures alarms[i] in all {
        assert alarms[i] in before;
      }
    }

    /** Any number of ticks: every alarm registered before them has been called back at
        exactly the ticks its own clock gives, whatever the other alarms do. */
    method Ticks(count: nat)
      requires Valid()
      modifies this`nticks, this`now, this`alarms, alarmList, Nodes(alarms)
      ensures Valid() && now == old(now) + count
      ensures forall n :: n in old(alarms) ==> n.fired == old(n.fired) + Calls(old(n.Alarm()), old(now), count)
    {
      hide Linked, Calls, Reaches;
      FirstOf(alarmList, alarms);
      ghost var all := alarms;
      ghost var target := map n | n in all :: n.fired + Calls(n.Alarm(), now, count);
      forall n | n in all ensures Reaches(n, target[n], count) {
        Aims(n, count);
      }
      var done := 0;
      while done < count
        invariant 0 <= done <= count && Valid() && now == old(now) + done
        invariant forall i :: 0 <= i < |alarms| ==> alarms[i] in all
        invariant forall n :: n in all ==> Reaches(n, target[n], count - done)
      {
        TickTowards(all, target, count - done);
        done := done + 1;
      }
      forall n | n in all ensures n.fired == target[n] {
        Arrived(n, target[n]);
      }
    }

    /** From start to callbacks: an alarm started with any delay but the longest is called
        back at the ticks asked for and at no others. */
    method StartAndRun(alarm: Node, delay: AlarmClock.Ticks, callback: nat -> AlarmClock.Ticks, count: nat)
      requires Valid() && tickRate != 0 && delay < WRAP - 1
      requires alarm != alarmList && alarm !in alarms
      modifies this`nticks, this`now, this`alarms, alarmList, alarms, alarm
      ensures alarm.fired == old(alarm.fired) + DueTicks(old(now) + delay + 1, callback, 0, old(now) + count)
    {
      hide Linked, Calls, DueTicks, Arm;
      var _ := Start(alarm, delay, callback);
      Punctual(now, delay, callback, count);
      Ticks(count);
    }
  }

  lemma CallsStep(a: Alarm, now: nat, n: nat, fired: seq<nat>)
    requires n > 0
    ensures var o := OnTick(a, (now + 1) % WRAP);
      fired + Calls(a, now, n)
      == (fired + if o.fired then [now + 1] else []) + if o.after.Some? then Calls(o.after.value, now + 1, n - 1) else []
  {
  }

  lemma CallsNone(a: Alarm, now: nat, fired: seq<nat>)
    ensures fired + Calls(a, now, 0) == fired && fired + [] == fired
  {
  }
}
