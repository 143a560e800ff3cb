/**
 * What `timer_add` promises its caller: the timer is kept with the argument and the interval it was
 * last given, and does not fire before that interval has passed.
 */
module TimerSettings {
  import opened Octets
  import opened Timers

  /** What was asked for last, and when: at the last addition, or at the last firing since. */
  datatype Setting = Setting(since: nat, arg: nat, interval: Ticks)

  datatype Asked = Nothing | Asked(setting: Setting)

  /** The record after one more event; it is no part of the program. */
  function Noted(n: Asked, s: State, e: Event, cbk: nat): Asked {
    match e
    case Add(c, arg, interval) =>
      if c == cbk && cbk != 0 && CallerRuns(s) && (Registered(s, cbk) || Registered(s, 0))
      then Asked(Setting(s.now, arg, interval)) else n
    case Remove(c) => if c == cbk && CallerRuns(s) then Nothing else n
    case Scan => if n.Asked? && Fires(s, e, cbk) then Asked(n.setting.(since := s.now)) else n
    case _ => n
  }

  function NotedIn(n: Asked, s: State, es: seq<Event>, cbk: nat): Asked
    decreases |es|
  {
    if es == [] then n else NotedIn(Noted(n, s, es[0], cbk), Step(s, es[0]), es[1..], cbk)
  }

  /** A callback returns to its timer's slot that was called before the last addition or firing. */
  predicate Outdated(n: Asked, s: State, e: Event, cbk: nat) {
    && e.Return? && s.stack != [] && Calls(s.Top(), cbk) && s.Top().i < |s.slots| && s.slots[s.Top().i].cbk == cbk
    && n.Asked? && n.setting.since % TWO32 != s.Top().at % TWO32
  }

  predicate NeverOutdated(n: Asked, s: State, es: seq<Event>, cbk: nat)
    decreases |es|
  {
    es == [] || (!Outdated(n, s, es[0], cbk) && NeverOutdated(Noted(n, s, es[0], cbk), Step(s, es[0]), es[1..], cbk))
  }

  /** The timer is registered as it was asked for, and its slot, unless marked, says since when. */
  ghost predicate AsAsked(n: Asked, s: State, cbk: nat) {
    n.Asked? ==>
      && n.setting.since <= s.now && Registered(s, cbk)
      && forall i :: 0 <= i < |s.slots| && s.slots[i].cbk == cbk ==>
           && s.slots[i].arg == n.setting.arg && s.slots[i].interval == n.setting.interval
           && (!s.slots[i].inProgress ==> s.slots[i].start == n.setting.since % TWO32)
  }

  lemma AdditionIsAsAsked(n: Asked, s: State, e: Event, cbk: nat)
    requires Compact(s.slots) && AsAsked(n, s, cbk) && cbk != 0 && e.Add?
    ensures AsAsked(Noted(n, s, e, cbk), Step(s, e), cbk)
  {
    hide Find;
    IsRegistered(s.slots, cbk);
    IsRegistered(s.slots, 0);
    if CallerRuns(s) && e.cbk != 0 {
      AddKeepsCompact(s.slots, e.cbk, e.arg, e.interval, s.Counter());
      var slots' := Step(s, e).slots;
      var i, j := Find(s.slots, e.cbk), Find(s.slots, 0);
      if i < |s.slots| {
        assert slots'[i].cbk == e.cbk;
      } else if j < |s.slots| {
        assert slots'[j].cbk == e.cbk;
      }
      if k :| 0 <= k < |s.slots| && s.slots[k].cbk == cbk {
        assert slots'[k].cbk == cbk;
      }
    }
  }

  lemma RemovalKeepsOthers(slots: seq<Slot>, c: nat, cbk: nat)
    requires c != cbk && cbk != 0 && exists i :: 0 <= i < |slots| && slots[i].cbk == cbk
    ensures exists i :: 0 <= i < |RemoveFrom(slots, c)| && RemoveFrom(slots, c)[i].cbk == cbk
  {
    var i :| 0 <= i < |slots| && slots[i].cbk == cbk;
    var k := Find(slots, c);
    if k < |slots| {
      RemovedAt(slots, c);
      hide RemoveFrom, Find;
      var j := if i < k then i else i - 1;
      assert RemoveFrom(slots, c)[j] == slots[i];
    } else {
      assert RemoveFrom(slots, c)[i].cbk == cbk;
    }
  }

  lemma RemovalIsAsAsked(n: Asked, s: State, c: nat, cbk: nat)
    requires Compact(s.slots) && AsAsked(n, s, cbk) && cbk != 0
    ensures AsAsked(Noted(n, s, Remove(c), cbk), Step(s, Remove(c)), cbk)
  {
    hide Find;
    var s' := Step(s, Remove(c));
    if n.Asked? && s' != s && c != cbk {
      RemovalKeepsOthers(s.slots, c, cbk);
      forall i | 0 <= i < |s'.slots| && s'.slots[i].cbk == cbk
        ensures exists j :: 0 <= j < |s.slots| && s.slots[j] == s'.slots[i]
      {
        RemovedFrom(s.slots, c, i);
      }
    }
  }

  lemma MarkingIsAsAsked(n: Asked, s: State, e: Event, cbk: nat)
    requires Compact(s.slots) && AsAsked(n, s, cbk) && cbk != 0 && (e.Scan? || e.Return?)
    ensures AsAsked(Noted(n, s, e, cbk), Step(s, e), cbk) <==> !Outdated(n, s, e, cbk)
  {
    var s' := Step(s, e);
    assert |s'.slots| == |s.slots| && forall j :: 0 <= j < |s.slots| ==> s'.slots[j].cbk == s.slots[j].cbk;
    if i :| 0 <= i < |s.slots| && s.slots[i].cbk == cbk {
      assert s'.slots[i].cbk == cbk;
    }
  }

  /** Of all events exactly the outdated returns spoil it. */
  lemma OnlyOutdatedReturnsSpoil(n: Asked, s: State, e: Event, cbk: nat)
    requires Compact(s.slots) && AsAsked(n, s, cbk) && cbk != 0
    ensures AsAsked(Noted(n, s, e, cbk), Step(s, e), cbk) <==> !Outdated(n, s, e, cbk)
  {
    match e
    case Add(_, _, _) => AdditionIsAsAsked(n, s, e, cbk);
    case Remove(c) => RemovalIsAsAsked(n, s, c, cbk);
    case Scan => MarkingIsAsAsked(n, s, e, cbk);
    case Return => MarkingIsAsAsked(n, s, e, cbk);
    case _ =>
  }

  lemma {:induction false} RunIsAsAsked(n: Asked, s: State, es: seq<Event>, cbk: nat)
    requires Compact(s.slots) && AsAsked(n, s, cbk) && cbk != 0 && NeverOutdated(n, s, es, cbk)
    ensures Compact(Run(s, es).slots) && AsAsked(NotedIn(n, s, es, cbk), Run(s, es), cbk)
    decreases |es|
  {
    if es != [] {
      hide Compact, AsAsked, Step, Outdated, Noted;
      StepKeepsCompact(s, es[0]);
      OnlyOutdatedReturnsSpoil(n, s, es[0], cbk);
      RunIsAsAsked(Noted(n, s, es[0], cbk), Step(s, es[0]), es[1..], cbk);
    }
  }

  /**
   * A timer that was added is registered until it is removed, with the argument and interval last asked
   * for; and when it fires, at least that interval of true ticks has passed since it was last added or
   * last fired, however often the counter has wrapped, unless a return was outdated.
   */
  lemma NotBeforeItsInterval(s0: State, es: seq<Event>, cbk: nat)
    requires Fresh(s0) && cbk != 0 && NeverOutdated(Nothing, s0, es, cbk)
    ensures var s, n := Run(s0, es), NotedIn(Nothing, s0, es, cbk);
      n.Asked? ==>
        && Registered(s, cbk)
        && (Fires(s, Scan, cbk) ==>
              var slot := s.slots[s.Top().i];
              && slot.interval == n.setting.interval && slot.arg == n.setting.arg
              && n.setting.since + n.setting.interval <= s.now)
  {
    RunIsAsAsked(Nothing, s0, es, cbk);
    var s, n := Run(s0, es), NotedIn(Nothing, s0, es, cbk);
    if n.Asked? && Fires(s, Scan, cbk) {
      ModuloAtMost(s.now, n.setting.since);
    }
  }

  /** And it is due as soon as the interval has passed, until the counter wraps. */
  lemma DueAfterItsInterval(s0: State, es: seq<Event>, cbk: nat, i: nat)
    requires Fresh(s0) && cbk != 0 && NeverOutdated(Nothing, s0, es, cbk)
    requires i < |Run(s0, es).slots| && Run(s0, es).slots[i].cbk == cbk && !Run(s0, es).slots[i].inProgress
    ensures var s, n := Run(s0, es), NotedIn(Nothing, s0, es, cbk);
      n.Asked? && s.now < n.setting.since + TWO32 ==>
        (Due(s.slots[i], s.Counter()) <==> s.now >= n.setting.since + n.setting.interval)
  {
    RunIsAsAsked(Nothing, s0, es, cbk);
    var s, n := Run(s0, es), NotedIn(Nothing, s0, es, cbk);
    if n.Asked? && s.now < n.setting.since + TWO32 {
      ElapsedIs(s.now, n.setting.since);
    }
  }

  lemma ElapsedIs(now: nat, before: nat)
    requires before <= now < before + TWO32
    ensures Elapsed(now % TWO32, before % TWO32) == now - before
  {
  }

  // ---------- What callers can see to ----------

  /** The timer is not added while a callback of its is being executed. */
  predicate Patient(s: State, e: Event, cbk: nat) {
    e.Add? && e.cbk == cbk ==> !Running(s, cbk)
  }

  predicate RunPatient(s: State, es: seq<Event>, cbk: nat)
    decreases |es|
  {
    es == [] || (Patient(s, es[0], cbk) && RunPatient(Step(s, es[0]), es[1..], cbk))
  }

  /** A callback that is being executed was called when its timer last fired. */
  ghost predicate InTime(n: Asked, s: State, cbk: nat) {
    Spaced(s, cbk)
    && (n.Asked? ==> forall k :: 0 <= k < |s.stack| && Calls(s.stack[k], cbk) ==> s.stack[k].at == n.setting.since)
  }

  lemma StepKeepsInTime(n: Asked, s: State, e: Event, cbk: nat)
    requires InTime(n, s, cbk) && cbk != 0 && Patient(s, e, cbk)
    ensures InTime(Noted(n, s, e, cbk), Step(s, e), cbk)
  {
    StepKeepsSpaced(s, e, cbk);
    hide Spaced;
    var s', n' := Step(s, e), Noted(n, s, e, cbk);
    forall k | 0 <= k < |s'.stack| && Calls(s'.stack[k], cbk) && n'.Asked? ensures s'.stack[k].at == n'.setting.since {
      if k < |s.stack| && s'.stack[k] == s.stack[k] {
        assert Running(s, cbk);
      }
    }
  }

  lemma {:induction false} PatienceAvoidsOutdatedReturns(n: Asked, s: State, es: seq<Event>, cbk: nat)
    requires InTime(n, s, cbk) && cbk != 0 && RunPatient(s, es, cbk)
    ensures NeverOutdated(n, s, es, cbk)
    decreases |es|
  {
    if es != [] {
      StepKeepsInTime(n, s, es[0], cbk);
      assert s.stack != [] ==> s.Top() == s.stack[|s.stack| - 1];
      hide Step, Noted, Spaced;
      PatienceAvoidsOutdatedReturns(Noted(n, s, es[0], cbk), Step(s, es[0]), es[1..], cbk);
    }
  }

  /** Hence it never fires before its interval. */
  lemma PatientIsNotBeforeItsInterval(s0: State, es: seq<Event>, cbk: nat)
    requires Fresh(s0) && cbk != 0 && RunPatient(s0, es, cbk)
    ensures NeverOutdated(Nothing, s0, es, cbk)
    ensures var s, n := Run(s0, es), NotedIn(Nothing, s0, es, cbk);
      n.Asked? && Fires(s, Scan, cbk) ==> n.setting.since + n.setting.interval <= s.now
  {
    PatienceAvoidsOutdatedReturns(Nothing, s0, es, cbk);
    NotBeforeItsInterval(s0, es, cbk);
  }

  /** One event and then the others. */
  lemma Chained(n: Asked, s: State, e: Event, es: seq<Event>, cbk: nat)
    ensures var s', n' := Step(s, e), Noted(n, s, e, cbk);
      && Run(s, [e] + es) == Run(s', es) && NotedIn(n, s, [e] + es, cbk) == NotedIn(n', s', es, cbk)
      && (Outdated(n, s, e, cbk) || !NeverOutdated(n', s', es, cbk) ==> !NeverOutdated(n, s, [e] + es, cbk))
      && (!Patient(s, e, cbk) || !RunPatient(s', es, cbk) ==> !RunPatient(s, [e] + es, cbk))
  {
    assert ([e] + es)[1..] == es;
  }

  function InCallback(cbk: nat, interval: Ticks, now: nat): State {
    TableOf(Slot(cbk, interval, 0, 0, true), now, 0, [Calling(0, cbk, interval)], map[cbk := interval])
  }

  function Restarted(cbk: nat, interval: Ticks, d: nat): State
    requires interval + d < TWO32
  {
    TableOf(Slot(cbk, interval, interval + d, 0, true), interval + d, 0, [Calling(0, cbk, interval)], map[])
  }

  function ReturnedFrom(cbk: nat, interval: Ticks, now: nat, previous: Ticks, stack: seq<Frame>): State {
    TableOf(Slot(cbk, interval, interval, 0, false), now, previous, stack, map[])
  }

  lemma RestartSteps(cbk: nat, interval: Ticks, d: nat)
    requires cbk != 0 && 1 <= d < interval < TWO32 / 2
    ensures var s0 := TableOf(Slot(cbk, interval, 0, 0, false), interval, 0, [], map[]);
      var s3 := InCallback(cbk, interval, interval + d);
      && Step(s0, Enter) == s0.(stack := [Scanning(0)])
      && Step(s0.(stack := [Scanning(0)]), Scan) == InCallback(cbk, interval, interval)
      && Step(InCallback(cbk, interval, interval), Pass(d)) == s3
      && Step(s3, Add(cbk, 0, interval)) == Restarted(cbk, interval, d)
      && Noted(Nothing, s3, Add(cbk, 0, interval), cbk) == Asked(Setting(interval + d, 0, interval))
      && !Patient(s3, Add(cbk, 0, interval), cbk)
  {
    var s3 := InCallback(cbk, interval, interval + d);
    assert Calls(s3.stack[0], cbk);
    assert s3.slots[0].cbk == cbk;
    assert Find(s3.slots, cbk) == 0;
    assert s3.slots[0 := Slot(cbk, interval, interval + d, 0, true)] == [Slot(cbk, interval, interval + d, 0, true)];
  }

  lemma ReturnSteps(cbk: nat, interval: Ticks, d: nat)
    requires cbk != 0 && 1 <= d < interval < TWO32 / 2
    ensures var s4 := Restarted(cbk, interval, d);
      var s5 := ReturnedFrom(cbk, interval, interval + d, 0, [Scanning(1)]);
      var s6 := ReturnedFrom(cbk, interval, interval + d, interval + d, []);
      var s7 := ReturnedFrom(cbk, interval, 2 * interval, interval + d, []);
      var n := Asked(Setting(interval + d, 0, interval));
      && Step(s4, Return) == s5 && Outdated(n, s4, Return, cbk) && Step(s5, Scan) == s6
      && Step(s6, Pass(interval - d)) == s7 && Step(s7, Enter) == s7.(stack := [Scanning(0)])
      && Noted(n, s5, Scan, cbk) == n && Fires(s7.(stack := [Scanning(0)]), Scan, cbk)
  {
    var s4 := Restarted(cbk, interval, d);
    assert s4.slots[0 := Slot(cbk, interval, interval, 0, false)] == [Slot(cbk, interval, interval, 0, false)];
    assert Elapsed(2 * interval, interval) == interval;
  }

  /**
   * A callback that takes `d` ticks and then restarts its own timer: the restart is forgotten when it
   * returns, and the timer fires `d` ticks before its interval has passed.
   */
  lemma RestartFromCallbackFiresTooEarly(cbk: nat, interval: Ticks, d: nat)
    requires cbk != 0 && 1 <= d < interval < TWO32 / 2
    ensures var s0 := TableOf(Slot(cbk, interval, 0, 0, false), interval, 0, [], map[]);
      var es := [Enter, Scan, Pass(d), Add(cbk, 0, interval), Return, Scan, Pass(interval - d), Enter];
      var s, n := Run(s0, es), NotedIn(Nothing, s0, es, cbk);
      && Fresh(s0) && !RunPatient(s0, es, cbk) && !NeverOutdated(Nothing, s0, es, cbk)
      && n == Asked(Setting(interval + d, 0, interval)) && Fires(s, Scan, cbk)
      && s.now == n.setting.since + n.setting.interval - d
  {
    RestartRun(cbk, interval, d);
    hide *;
    RestartIs(cbk, interval, d);
  }

  lemma RestartRun(cbk: nat, interval: Ticks, d: nat)
    requires cbk != 0 && 1 <= d < interval < TWO32 / 2
    ensures var s0 := TableOf(Slot(cbk, interval, 0, 0, false), interval, 0, [], map[]);
      var es := [Enter] + ([Scan] + ([Pass(d)] + ([Add(cbk, 0, interval)] + Returning(interval, d))));
      var s, n := Run(s0, es), NotedIn(Nothing, s0, es, cbk);
      && Fresh(s0) && !RunPatient(s0, es, cbk) && !NeverOutdated(Nothing, s0, es, cbk)
      && n == Asked(Setting(interval + d, 0, interval)) && Fires(s, Scan, cbk)
      && s.now == n.setting.since + n.setting.interval - d
  {
    var s0 := TableOf(Slot(cbk, interval, 0, 0, false), interval, 0, [], map[]);
    var s1, s2 := s0.(stack := [Scanning(0)]), InCallback(cbk, interval, interval);
    var s3, s4 := InCallback(cbk, interval, interval + d), Restarted(cbk, interval, d);
    var n := Asked(Setting(interval + d, 0, interval));
    RestartSteps(cbk, interval, d);
    ReturnRun(cbk, interval, d);
    hide Step, Outdated, Patient, Fires, Run, NotedIn, NeverOutdated, RunPatient, InCallback, Restarted, Returning;
    var es4 := Returning(interval, d);
    var es3 := [Add(cbk, 0, interval)] + es4;
    Chained(Nothing, s3, Add(cbk, 0, interval), es4, cbk);
    Chained(Nothing, s2, Pass(d), es3, cbk);
    Chained(Nothing, s1, Scan, [Pass(d)] + es3, cbk);
    Chained(Nothing, s0, Enter, [Scan] + ([Pass(d)] + es3), cbk);
  }

  function Returning(interval: Ticks, d: nat): seq<Event>
    requires d < interval
  {
    [Return, Scan, Pass(interval - d), Enter]
  }

  lemma RestartIs(cbk: nat, interval: Ticks, d: nat)
    requires d < interval
    ensures [Enter] + ([Scan] + ([Pass(d)] + ([Add(cbk, 0, interval)] + Returning(interval, d)))) ==
      [Enter, Scan, Pass(d), Add(cbk, 0, interval), Return, Scan, Pass(interval - d), Enter]
  {
  }

  lemma ReturnRun(cbk: nat, interval: Ticks, d: nat)
    requires cbk != 0 && 1 <= d < interval < TWO32 / 2
    ensures var s4, n := Restarted(cbk, interval, d), Asked(Setting(interval + d, 0, interval));
      var es := Returning(interval, d);
      && Run(s4, es) == ReturnedFrom(cbk, interval, 2 * interval, interval + d, [Scanning(0)])
      && NotedIn(n, s4, es, cbk) == n && !NeverOutdated(n, s4, es, cbk)
      && Fires(Run(s4, es), Scan, cbk) && Run(s4, es).now == 2 * interval
  {
    var s4, n := Restarted(cbk, interval, d), Asked(Setting(interval + d, 0, interval));
    var s5 := ReturnedFrom(cbk, interval, interval + d, 0, [Scanning(1)]);
    var s6 := ReturnedFrom(cbk, interval, interval + d, interval + d, []);
    var s7 := ReturnedFrom(cbk, interval, 2 * interval, interval + d, []);
    ReturnSteps(cbk, interval, d);
    hide Step, Outdated, Patient, Fires, Restarted;
    Chained(n, s7, Enter, [], cbk);
    Chained(n, s6, Pass(interval - d), [Enter], cbk);
    Chained(n, s5, Scan, [Pass(interval - d), Enter], cbk);
    Chained(n, s4, Return, [Scan, Pass(interval - d), Enter], cbk);
    assert [Enter] + [] == [Enter];
    assert [Pass(interval - d)] + [Enter] == [Pass(interval - d), Enter];
    assert [Scan] + [Pass(interval - d), Enter] == [Scan, Pass(interval - d), Enter];
    assert [Return] + [Scan, Pass(interval - d), Enter] == Returning(interval, d);
    hide Run, NotedIn, NeverOutdated, RunPatient;
  }
}
