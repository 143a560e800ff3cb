/**
 * The timer table of src/kernel/timer.c: a compacted array that callbacks may change while the
 * scan that called them is still running, with a tick counter that wraps.
 */
module Timers {
  import opened Octets

  type Ticks = U32

  /** `struct timer_t`; callbacks are identified by a number, zero standing for NULL. */
  datatype Slot = Slot(cbk: nat, interval: Ticks, start: Ticks, arg: nat, inProgress: bool)

  const EMPTY := Slot(0, 0, 0, 0, false)

  /** `curr - start` in 32-bit arithmetic. */
  function Elapsed(curr: Ticks, start: Ticks): Ticks {
    (curr - start) % TWO32
  }

  predicate Due(s: Slot, curr: Ticks) {
    !s.inProgress && (s.interval == 0 || Elapsed(curr, s.start) >= s.interval)
  }

  /** Registered timers come first, without a gap, and no callback twice. */
  predicate Compact(slots: seq<Slot>) {
    && (forall i, j :: 0 <= i < j < |slots| && slots[j].cbk != 0 ==> slots[i].cbk != 0)
    && (forall i, j :: 0 <= i < j < |slots| && slots[j].cbk != 0 ==> slots[i].cbk != slots[j].cbk)
  }

  /** The index of the first slot with this callback, or the table length. */
  function Find(slots: seq<Slot>, cbk: nat): (i: nat)
    ensures i <= |slots|
    ensures i < |slots| ==> slots[i].cbk == cbk
    ensures forall j :: 0 <= j < i ==> slots[j].cbk != cbk
  {
    if slots == [] || slots[0].cbk == cbk then 0 else 1 + Find(slots[1..], cbk)
  }

  lemma FindIs(slots: seq<Slot>, cbk: nat, i: nat)
    requires i <= |slots| && (i < |slots| ==> slots[i].cbk == cbk)
    requires forall j :: 0 <= j < i ==> slots[j].cbk != cbk
    ensures Find(slots, cbk) == i
  {
  }

  /** `timer_add`: a registered timer is restarted in place, another takes the first empty slot. */
  function AddTo(slots: seq<Slot>, cbk: nat, arg: nat, interval: Ticks, curr: Ticks): seq<Slot>
    requires cbk != 0
  {
    var i := Find(slots, cbk);
    var j := Find(slots, 0);
    if i < |slots| then slots[i := slots[i].(interval := interval, start := curr, arg := arg)]
    else if j < |slots| then slots[j := Slot(cbk, interval, curr, arg, false)]
    else slots
  }

  /** `timer_remove`: the slots behind move down; the last one keeps its other fields. */
  function RemoveFrom(slots: seq<Slot>, cbk: nat): seq<Slot> {
    var i := Find(slots, cbk);
    if i == |slots| then slots
    else slots[..i] + slots[i + 1..] + [slots[|slots| - 1].(cbk := 0)]
  }

  lemma RemovedAt(slots: seq<Slot>, cbk: nat)
    requires Find(slots, cbk) < |slots|
    ensures |RemoveFrom(slots, cbk)| == |slots|
    ensures forall j {:trigger RemoveFrom(slots, cbk)[j]} :: 0 <= j < |slots| - 1 ==>
      RemoveFrom(slots, cbk)[j] == if j < Find(slots, cbk) then slots[j] else slots[j + 1]
    ensures RemoveFrom(slots, cbk)[|slots| - 1] == slots[|slots| - 1].(cbk := 0)
  {
    hide Find;
    var i := Find(slots, cbk);
    var rest := slots[..i] + slots[i + 1..];
    assert |rest| == |slots| - 1;
    assert forall j :: 0 <= j < |rest| ==> rest[j] == if j < i then slots[j] else slots[j + 1];
  }

  lemma AddKeepsCompact(slots: seq<Slot>, cbk: nat, arg: nat, interval: Ticks, curr: Ticks)
    requires Compact(slots) && cbk != 0
    ensures Compact(AddTo(slots, cbk, arg, interval, curr))
  {
    hide Find;
  }

  lemma RemoveKeepsCompact(slots: seq<Slot>, cbk: nat)
    requires Compact(slots)
    ensures Compact(RemoveFrom(slots, cbk))
  {
    if Find(slots, cbk) < |slots| {
      hide RemoveFrom, Find;
      RemovedAt(slots, cbk);
    }
  }

  // ---------- The table in memory ----------

  class SysTimer {
    const timer: array<Slot>

    constructor (n: nat)
      ensures timer.Length == n && fresh(timer)
    {
      timer := new Slot[n](_ => EMPTY);
    }

    /** `sys_timer_init` */
    method Init()
      modifies timer
      ensures forall i :: 0 <= i < timer.Length ==> timer[i].cbk == 0
    {
      var i := 0;
      while i < timer.Length
        invariant 0 <= i <= timer.Length
        invariant forall j :: 0 <= j < i ==> timer[j].cbk == 0
      {
        timer[i] := timer[i].(cbk := 0);
        i := i + 1;
      }
    }

    /** `timer_add` at counter value `curr`. */
    method Add(func: nat, arg: nat, interval: Ticks, curr: Ticks) returns (ok: bool)
      modifies timer
      ensures timer[..] == if func == 0 then old(timer[..]) else AddTo(old(timer[..]), func, arg, interval, curr)
      ensures ok <==> func != 0 && (Find(old(timer[..]), func) < timer.Length || Find(old(timer[..]), 0) < timer.Length)
    {
      if func == 0 {
        return false;
      }
      var i := 0;
      while i < timer.Length
        invariant 0 <= i <= timer.Length && timer[..] == old(timer[..])
        invariant forall j :: 0 <= j < i ==> timer[j].cbk != func
      {
        if timer[i].cbk != 0 {
          if func == timer[i].cbk {
            FindIs(timer[..], func, i);
            timer[i] := timer[i].(interval := interval, start := curr, arg := arg);
            return true;
          }
        }
        i := i + 1;
      }
      FindIs(timer[..], func, timer.Length);
      i := 0;
      while i < timer.Length
        invariant 0 <= i <= timer.Length && timer[..] == old(timer[..])
        invariant forall j :: 0 <= j < i ==> timer[j].cbk != 0
      {
        if timer[i].cbk == 0 {
          FindIs(timer[..], 0, i);
          timer[i] := Slot(func, interval, curr, arg, false);
          return true;
        }
        i := i + 1;
      }
      FindIs(timer[..], 0, timer.Length);
      ok := false;
    }

    /** `timer_remove` */
    method Remove(func: nat)
      modifies timer
      ensures timer[..] == RemoveFrom(old(timer[..]), func)
    {
      hide Find;
      ghost var slots := timer[..];
      var i := 0;
      while i < timer.Length && timer[i].cbk != func
        invariant 0 <= i <= timer.Length
        invariant forall j :: 0 <= j < i ==> timer[j].cbk != func
      {
        i := i + 1;
      }
      FindIs(slots, func, i);
      if i == timer.Length {
        return;
      }
      ghost var k := i;
      while i < timer.Length - 1
        invariant k <= i <= timer.Length - 1
        invariant forall j :: 0 <= j < k || i <= j < timer.Length ==> timer[j] == slots[j]
        invariant forall j {:trigger timer[j]} :: k <= j < i ==> timer[j] == slots[j + 1]
      {
        assert timer[i + 1] == slots[i + 1];
        timer[i] := timer[i + 1];
        i := i + 1;
      }
      timer[i] := timer[i].(cbk := 0);
      RemovedAt(slots, func);
    }

    /** The scan's visit to slot `i`: the callback to call, if its timer is due. */
    method Visit(i: nat, curr: Ticks) returns (cbk: nat, fire: bool)
      requires i < timer.Length
      modifies timer
      ensures cbk == old(timer[i].cbk) && (fire <==> cbk != 0 && Due(old(timer[i]), curr))
      ensures timer[..] == if fire then MarkFired(old(timer[..]), i) else old(timer[..])
    {
      cbk, fire := timer[i].cbk, false;
      if cbk == 0 {
        return;
      }
      if !timer[i].inProgress {
        if timer[i].interval == 0 || Elapsed(curr, timer[i].start) >= timer[i].interval {
          timer[i] := timer[i].(inProgress := true);
          fire := true;
        }
      }
    }

    /** After the callback has returned: the slot is looked at again, it may hold another timer now. */
    method Returned(i: nat, cbk: nat, curr: Ticks)
      requires i < timer.Length
      modifies timer
      ensures timer[..] == MarkReturned(old(timer[..]), i, cbk, curr)
    {
      if timer[i].cbk == cbk {
        timer[i] := timer[i].(inProgress := false, start := curr);
      }
    }
  }

  function MarkFired(slots: seq<Slot>, i: nat): seq<Slot>
    requires i < |slots|
  {
    slots[i := slots[i].(inProgress := true)]
  }

  function MarkReturned(slots: seq<Slot>, i: nat, cbk: nat, curr: Ticks): seq<Slot>
    requires i < |slots|
  {
    if slots[i].cbk == cbk then slots[i := slots[i].(inProgress := false, start := curr)] else slots
  }

  // ---------- Runs ----------

  /** A running `sys_timer_task`: about to visit slot `i`, or waiting for the callback it called from there. */
  datatype Frame =
    | Scanning(i: nat)
    | Calling(i: nat, cbk: nat, at: nat)

  /**
   * `now` is the true time, the counter being `now` modulo 2^32; `stack` holds the nested runs
   * of the scan, the innermost last. `fired` remembers when a timer last fired, if it was neither added
   * nor removed since.
   */
  datatype State = State(slots: seq<Slot>, now: nat, previous: Ticks, stack: seq<Frame>, fired: map<nat, nat>)
  {
    function Counter(): Ticks {
      now % TWO32
    }

    function Top(): Frame
      requires stack != []
    {
      stack[|stack| - 1]
    }

    function Replace(f: Frame): seq<Frame>
      requires stack != []
    {
      stack[|stack| - 1 := f]
    }
  }

  /** What may happen next: time passes, other code runs, or a scan makes a step. */
  datatype Event =
    | Pass(ticks: nat)
    | Add(cbk: nat, arg: nat, interval: Ticks)
    | Remove(cbk: nat)
    | Enter
    | Scan
    | Return

  /** Only a callback, or the main loop when no scan runs, can call something. */
  predicate CallerRuns(s: State) {
    s.stack == [] || s.Top().Calling?
  }

  function Step(s: State, e: Event): State {
    match e
    case Pass(ticks) => s.(now := s.now + ticks)
    case Add(cbk, arg, interval) =>
      if cbk == 0 || !CallerRuns(s) then s
      else s.(slots := AddTo(s.slots, cbk, arg, interval, s.Counter()), fired := s.fired - {cbk})
    case Remove(cbk) =>
      if !CallerRuns(s) then s
      else s.(slots := RemoveFrom(s.slots, cbk), fired := s.fired - {cbk})
    case Enter =>
      if CallerRuns(s) && s.previous != s.Counter() then s.(stack := s.stack + [Scanning(0)]) else s
    case Scan =>
      if s.stack == [] || !s.Top().Scanning? then s
      else
        var i := s.Top().i;
        if i >= |s.slots| || s.slots[i].cbk == 0 then
          s.(stack := s.stack[..|s.stack| - 1], previous := s.Counter())
        else if Due(s.slots[i], s.Counter()) then
          s.(slots := MarkFired(s.slots, i),
             stack := s.Replace(Calling(i, s.slots[i].cbk, s.now)),
             fired := s.fired[s.slots[i].cbk := s.now])
        else
          s.(stack := s.Replace(Scanning(i + 1)))
    case Return =>
      if s.stack == [] || !s.Top().Calling? || s.Top().i >= |s.slots| then s
      else
        var f := s.Top();
        s.(slots := MarkReturned(s.slots, f.i, f.cbk, f.at % TWO32), stack := s.Replace(Scanning(f.i + 1)))
  }

  function Run(s: State, es: seq<Event>): State
    decreases |es|
  {
    if es == [] then s else Run(Step(s, es[0]), es[1..])
  }

  /** The timer that fires in this step. */
  predicate Fires(s: State, e: Event, cbk: nat) {
    && e.Scan? && s.stack != [] && s.Top().Scanning? && s.Top().i < |s.slots|
    && cbk != 0 && s.slots[s.Top().i].cbk == cbk && Due(s.slots[s.Top().i], s.Counter())
  }

  predicate Calls(f: Frame, cbk: nat) {
    f.Calling? && f.cbk == cbk
  }

  /** A callback of this timer is being executed. */
  predicate Running(s: State, cbk: nat) {
    exists k :: 0 <= k < |s.stack| && Calls(s.stack[k], cbk)
  }

  predicate Registered(s: State, cbk: nat) {
    exists i :: 0 <= i < |s.slots| && s.slots[i].cbk == cbk
  }

  lemma StepKeepsCompact(s: State, e: Event)
    requires Compact(s.slots)
    ensures Compact(Step(s, e).slots) && |Step(s, e).slots| == |s.slots|
  {
    match e
    case Add(cbk, arg, interval) => if cbk != 0 { AddKeepsCompact(s.slots, cbk, arg, interval, s.Counter()); }
    case Remove(cbk) => RemoveKeepsCompact(s.slots, cbk);
    case _ =>
  }

  /** Any interleaving of additions, removals, nested scans and returns keeps the table compact. */
  lemma {:induction false} RunKeepsCompact(s: State, es: seq<Event>)
    requires Compact(s.slots)
    ensures Compact(Run(s, es).slots)
    decreases |es|
  {
    if es != [] {
      StepKeepsCompact(s, es[0]);
      RunKeepsCompact(Step(s, es[0]), es[1..]);
    }
  }

  /** The rest of a scan whose callbacks return at once, without calling anything. */
  function Sweep(s: State): State
    requires s.stack != [] && s.Top().Scanning?
    decreases |s.slots| - s.Top().i
  {
    var i, next := s.Top().i, Step(s, Scan);
    if i >= |s.slots| || s.slots[i].cbk == 0 then next
    else if Due(s.slots[i], s.Counter()) then Sweep(Step(next, Return))
    else Sweep(next)
  }

  /** The sweep ends at the first empty slot, and yet exactly the timers that were due have fired. */
  lemma {:induction false} SweepFiresAllDue(s: State, j: nat)
    requires s.stack != [] && s.Top().Scanning? && Compact(s.slots)
    requires j < |s.slots| && s.slots[j].cbk != 0
    ensures s.Top().i <= j && Due(s.slots[j], s.Counter()) ==>
      s.slots[j].cbk in Sweep(s).fired && Sweep(s).fired[s.slots[j].cbk] == s.now
    ensures s.Top().i > j || !Due(s.slots[j], s.Counter()) ==>
      && (s.slots[j].cbk in Sweep(s).fired <==> s.slots[j].cbk in s.fired)
      && (s.slots[j].cbk in s.fired ==> Sweep(s).fired[s.slots[j].cbk] == s.fired[s.slots[j].cbk])
    decreases |s.slots| - s.Top().i
  {
    var i, next := s.Top().i, Step(s, Scan);
    if i < |s.slots| && s.slots[i].cbk != 0 {
      StepKeepsCompact(s, Scan);
      if Due(s.slots[i], s.Counter()) {
        StepKeepsCompact(next, Return);
        SweepFiresAllDue(Step(next, Return), j);
      } else {
        SweepFiresAllDue(next, j);
      }
    }
  }

  /** No event has happened yet. */
  predicate Fresh(s: State) {
    Compact(s.slots) && s.stack == [] && s.fired == map[]
  }

  // ---------- A timer does not fire too early ----------

  /** The callback that returns now was called before the last firing of its timer, whose slot is still there. */
  predicate Stale(s: State, cbk: nat) {
    && s.stack != [] && Calls(s.Top(), cbk) && s.Top().i < |s.slots| && s.slots[s.Top().i].cbk == cbk
    && cbk in s.fired && s.fired[cbk] % TWO32 != s.Top().at % TWO32
  }

  /** No return in the run writes an outdated start time for `cbk`. */
  predicate NoStaleReturn(s: State, es: seq<Event>, cbk: nat)
    decreases |es|
  {
    es == [] || (!(es[0].Return? && Stale(s, cbk)) && NoStaleReturn(Step(s, es[0]), es[1..], cbk))
  }

  /** While its slot is not marked, it says when the timer last fired. */
  predicate Dated(s: State, cbk: nat) {
    cbk in s.fired ==>
      && s.fired[cbk] <= s.now
      && forall i :: 0 <= i < |s.slots| && s.slots[i].cbk == cbk && !s.slots[i].inProgress ==>
           s.slots[i].start == s.fired[cbk] % TWO32
  }

  /** A slot of another timer in a table that lost one was there before. */
  lemma RemovalKeepsDated(s: State, c: nat, cbk: nat)
    requires Compact(s.slots) && Dated(s, cbk) && cbk != 0
    ensures Dated(Step(s, Remove(c)), cbk)
  {
    var s' := Step(s, Remove(c));
    if s' != s {
      forall i | 0 <= i < |s'.slots| && s'.slots[i].cbk == cbk
        ensures exists j :: 0 <= j < |s.slots| && s.slots[j] == s'.slots[i]
      {
        RemovedFrom(s.slots, c, i);
      }
    }
  }

  /** Exactly the stale returns spoil the record. */
  lemma OnlyStaleReturnsSpoil(s: State, e: Event, cbk: nat)
    requires Compact(s.slots) && Dated(s, cbk) && cbk != 0
    ensures Dated(Step(s, e), cbk) <==> !(e.Return? && Stale(s, cbk))
  {
    hide Find;
    var s' := Step(s, e);
    match e
    case Remove(c) => RemovalKeepsDated(s, c, cbk);
    case Return =>
      if s.stack != [] && s.Top().Calling? && s.Top().i < |s.slots| {
        assert forall j :: 0 <= j < |s.slots| && j != s.Top().i ==> s'.slots[j] == s.slots[j];
        assert s'.slots[s.Top().i].cbk == s.slots[s.Top().i].cbk;
      }
    case _ =>
  }

  lemma {:induction false} RunKeepsDated(s: State, es: seq<Event>, cbk: nat)
    requires Compact(s.slots) && Dated(s, cbk) && cbk != 0 && NoStaleReturn(s, es, cbk)
    ensures Compact(Run(s, es).slots) && Dated(Run(s, es), cbk)
    decreases |es|
  {
    if es != [] {
      hide Compact, Dated, Step, Stale;
      StepKeepsCompact(s, es[0]);
      OnlyStaleReturnsSpoil(s, es[0], cbk);
      RunKeepsDated(Step(s, es[0]), es[1..], cbk);
    }
  }

  /**
   * Between two firings without an addition or removal of the timer there are at least `interval`
   * true ticks, however often the counter has wrapped in between, unless a return was stale.
   */
  lemma NeverTooEarly(s0: State, es: seq<Event>, cbk: nat)
    requires Fresh(s0) && cbk != 0 && NoStaleReturn(s0, es, cbk)
    ensures var s := Run(s0, es);
      Fires(s, Scan, cbk) && cbk in s.fired ==> s.fired[cbk] + s.slots[s.Top().i].interval <= s.now
  {
    RunKeepsDated(s0, es, cbk);
    var s := Run(s0, es);
    if Fires(s, Scan, cbk) && cbk in s.fired {
      ModuloAtMost(s.now, s.fired[cbk]);
    }
  }

  lemma ModuloAtMost(now: nat, before: nat)
    requires before <= now
    ensures Elapsed(now % TWO32, before % TWO32) <= now - before
  {
  }

  // ---------- What callers can see to ----------

  /** While a callback of `cbk` is being executed, `cbk` is not registered anew. */
  predicate Disciplined(s: State, e: Event, cbk: nat) {
    e.Add? && e.cbk == cbk && Running(s, cbk) ==> Registered(s, cbk)
  }

  predicate RunDisciplined(s: State, es: seq<Event>, cbk: nat)
    decreases |es|
  {
    es == [] || (Disciplined(s, es[0], cbk) && RunDisciplined(Step(s, es[0]), es[1..], cbk))
  }

  /** At most one callback of `cbk` is being executed, and while none is, its slot says when it last fired. */
  predicate Spaced(s: State, cbk: nat) {
    && Compact(s.slots)
    && (forall k, l :: 0 <= k < l < |s.stack| && Calls(s.stack[k], cbk) ==> !Calls(s.stack[l], cbk))
    && (forall i :: 0 <= i < |s.slots| && s.slots[i].cbk == cbk && Running(s, cbk) ==> s.slots[i].inProgress)
    && (cbk in s.fired ==>
      && s.fired[cbk] <= s.now
      && (forall i :: 0 <= i < |s.slots| && s.slots[i].cbk == cbk && !s.slots[i].inProgress ==>
            s.slots[i].start == s.fired[cbk] % TWO32)
      && (forall k :: 0 <= k < |s.stack| && Calls(s.stack[k], cbk) ==> s.stack[k].at == s.fired[cbk]))
  }

  lemma ScanKeepsSpaced(s: State, cbk: nat)
    requires Spaced(s, cbk) && cbk != 0
    ensures Spaced(Step(s, Scan), cbk)
  {
    hide Find;
    var s' := Step(s, Scan);
    assert forall k :: 0 <= k < |s'.stack| - 1 ==> s'.stack[k] == s.stack[k];
    if Fires(s, Scan, cbk) {
      assert !Running(s, cbk);
    } else {
      assert forall k :: 0 <= k < |s'.stack| && Calls(s'.stack[k], cbk) ==> Calls(s.stack[k], cbk);
    }
  }

  lemma ReturnKeepsSpaced(s: State, cbk: nat)
    requires Spaced(s, cbk) && cbk != 0
    ensures Spaced(Step(s, Return), cbk)
  {
    var s' := Step(s, Return);
    if s' != s {
      assert forall k :: 0 <= k < |s'.stack| - 1 ==> s'.stack[k] == s.stack[k];
      if Calls(s.Top(), cbk) {
        assert Running(s, cbk);
        assert !Running(s', cbk);
      } else {
        assert Running(s', cbk) ==> Running(s, cbk);
      }
    }
  }

  /** A slot of `cbk` in a table without the timer `c` was one before. */
  lemma RemovedFrom(slots: seq<Slot>, c: nat, i: nat)
    requires i < |slots|
    ensures |RemoveFrom(slots, c)| == |slots|
    ensures RemoveFrom(slots, c)[i].cbk != 0 ==>
      exists j :: 0 <= j < |slots| && slots[j] == RemoveFrom(slots, c)[i]
    ensures c != 0 && Compact(slots) ==> RemoveFrom(slots, c)[i].cbk != c
  {
    var k := Find(slots, c);
    if k < |slots| && i < |slots| - 1 {
      assert RemoveFrom(slots, c)[i] == slots[if i < k then i else i + 1];
    }
  }

  lemma RemoveKeepsSpaced(s: State, c: nat, cbk: nat)
    requires Spaced(s, cbk) && cbk != 0
    ensures Spaced(Step(s, Remove(c)), cbk)
  {
    var s' := Step(s, Remove(c));
    if s' != s {
      RemoveKeepsCompact(s.slots, c);
      assert Running(s', cbk) ==> Running(s, cbk);
      forall i | 0 <= i < |s'.slots| && s'.slots[i].cbk == cbk
        ensures exists j :: 0 <= j < |s.slots| && s.slots[j] == s'.slots[i]
      {
        RemovedFrom(s.slots, c, i);
      }
    }
  }

  lemma AddKeepsSpaced(s: State, e: Event, cbk: nat)
    requires Spaced(s, cbk) && cbk != 0 && Disciplined(s, e, cbk) && e.Add?
    ensures Spaced(Step(s, e), cbk)
  {
    var s' := Step(s, e);
    if s' != s {
      AddKeepsCompact(s.slots, e.cbk, e.arg, e.interval, s.Counter());
      assert Running(s', cbk) ==> Running(s, cbk);
    }
  }

  lemma StepKeepsSpaced(s: State, e: Event, cbk: nat)
    requires Spaced(s, cbk) && cbk != 0 && Disciplined(s, e, cbk)
    ensures Spaced(Step(s, e), cbk)
  {
    var s' := Step(s, e);
    match e
    case Add(_, _, _) => AddKeepsSpaced(s, e, cbk);
    case Remove(c) => RemoveKeepsSpaced(s, c, cbk);
    case Enter =>
      assert forall k :: 0 <= k < |s'.stack| && Calls(s'.stack[k], cbk) ==> Calls(s.stack[k], cbk);
    case Pass(_) =>
      assert Running(s', cbk) ==> Running(s, cbk);
    case Scan => ScanKeepsSpaced(s, cbk);
    case Return => ReturnKeepsSpaced(s, cbk);
  }

  lemma {:induction false} RunKeepsSpaced(s: State, es: seq<Event>, cbk: nat)
    requires Spaced(s, cbk) && cbk != 0 && RunDisciplined(s, es, cbk)
    ensures Spaced(Run(s, es), cbk)
    decreases |es|
  {
    if es != [] {
      StepKeepsSpaced(s, es[0], cbk);
      RunKeepsSpaced(Step(s, es[0]), es[1..], cbk);
    }
  }

  /** No return of `cbk` is stale in a state where its last firing is that of the one running callback. */
  lemma {:induction false} DisciplineAvoidsStaleReturns(s: State, es: seq<Event>, cbk: nat)
    requires Spaced(s, cbk) && cbk != 0 && RunDisciplined(s, es, cbk)
    ensures NoStaleReturn(s, es, cbk)
    decreases |es|
  {
    if es != [] {
      StepKeepsSpaced(s, es[0], cbk);
      assert s.stack != [] ==> s.Top() == s.stack[|s.stack| - 1];
      hide Step, Disciplined;
      DisciplineAvoidsStaleReturns(Step(s, es[0]), es[1..], cbk);
    }
  }

  /** Hence a timer that is not registered anew while its callback runs never fires too early. */
  lemma DisciplinedIsNeverTooEarly(s0: State, es: seq<Event>, cbk: nat)
    requires Fresh(s0) && cbk != 0 && RunDisciplined(s0, es, cbk)
    ensures NoStaleReturn(s0, es, cbk)
    ensures var s := Run(s0, es);
      Fires(s, Scan, cbk) && cbk in s.fired ==> s.fired[cbk] + s.slots[s.Top().i].interval <= s.now
  {
    DisciplineAvoidsStaleReturns(s0, es, cbk);
    NeverTooEarly(s0, es, cbk);
  }

  /** A timer whose callback removes and re-adds it, and whose new registration fires in a nested scan. */
  function Rearming(cbk: nat, interval: Ticks): (es: seq<Event>)
    ensures |es| == 7
  {
    [Enter, Scan, Remove(cbk), Add(cbk, 0, interval), Pass(interval), Enter, Scan]
  }

  /** The two callbacks return, the scans end, and one tick later the next one starts. */
  const UNWINDING := [Return, Scan, Return, Scan, Pass(1), Enter]

  function TableOf(s: Slot, now: nat, previous: Ticks, stack: seq<Frame>, fired: map<nat, nat>): State {
    State([s], now, previous, stack, fired)
  }

  lemma RearmedSteps(cbk: nat, interval: Ticks)
    requires cbk != 0 && 2 <= interval < TWO32 / 2
    ensures var es := Rearming(cbk, interval);
      var s0 := TableOf(Slot(cbk, interval, 0, 0, false), interval, 0, [], map[]);
      var s2 := TableOf(Slot(cbk, interval, 0, 0, true), interval, 0, [Calling(0, cbk, interval)], map[cbk := interval]);
      var s3 := TableOf(Slot(0, interval, 0, 0, true), interval, 0, [Calling(0, cbk, interval)], map[]);
      && Step(Step(s0, es[0]), es[1]) == s2 && Step(s2, es[2]) == s3 && !Disciplined(s3, es[3], cbk)
      && Step(s3, es[3]) == s3.(slots := [Slot(cbk, interval, interval, 0, false)])
  {
    var s2 := TableOf(Slot(cbk, interval, 0, 0, true), interval, 0, [Calling(0, cbk, interval)], map[cbk := interval]);
    var s3 := TableOf(Slot(0, interval, 0, 0, true), interval, 0, [Calling(0, cbk, interval)], map[]);
    RearmingSteps(s2, s3, s3.(slots := [Slot(cbk, interval, interval, 0, false)]), cbk, interval);
  }

  lemma NestedSteps(cbk: nat, interval: Ticks)
    requires cbk != 0 && 2 <= interval < TWO32 / 2
    ensures var es := Rearming(cbk, interval);
      var s4 := TableOf(Slot(cbk, interval, interval, 0, false), interval, 0, [Calling(0, cbk, interval)], map[]);
      Step(Step(Step(s4, es[4]), es[5]), es[6]) ==
        TableOf(Slot(cbk, interval, interval, 0, true), 2 * interval, 0,
          [Calling(0, cbk, interval), Calling(0, cbk, 2 * interval)], map[cbk := 2 * interval])
  {
    var es := Rearming(cbk, interval);
    var s5 := TableOf(Slot(cbk, interval, interval, 0, false), 2 * interval, 0, [Calling(0, cbk, interval)], map[]);
    assert s5.Counter() == 2 * interval;
    var s6 := s5.(stack := [Calling(0, cbk, interval), Scanning(0)]);
    assert Step(s5, es[5]) == s6;
    assert Elapsed(2 * interval, interval) == interval;
  }

  lemma Rearmed(cbk: nat, interval: Ticks)
    requires cbk != 0 && 2 <= interval < TWO32 / 2
    ensures var s0 := TableOf(Slot(cbk, interval, 0, 0, false), interval, 0, [], map[]);
      && Run(s0, Rearming(cbk, interval)) == TableOf(Slot(cbk, interval, interval, 0, true), 2 * interval, 0,
                                               [Calling(0, cbk, interval), Calling(0, cbk, 2 * interval)],
                                               map[cbk := 2 * interval])
      && !RunDisciplined(s0, Rearming(cbk, interval), cbk)
  {
    hide Step, Disciplined, Rearming;
    var es := Rearming(cbk, interval);
    assert |es| == 7;
    var s0 := TableOf(Slot(cbk, interval, 0, 0, false), interval, 0, [], map[]);
    RearmedSteps(cbk, interval);
    NestedSteps(cbk, interval);
    var s1 := Step(s0, es[0]);
    var s2 := Step(s1, es[1]);
    var s3 := Step(s2, es[2]);
    var s4 := Step(s3, es[3]);
    Chain(s0, s1, es); Chain(s1, s2, es[1..]); Chain(s2, s3, es[2..]); Chain(s3, s4, es[3..]);
    Chain(s4, Step(s4, es[4]), es[4..]); Chain(Step(s4, es[4]), Step(Step(s4, es[4]), es[5]), es[5..]);
    Chain(Step(Step(s4, es[4]), es[5]), Step(Step(Step(s4, es[4]), es[5]), es[6]), es[6..]);
  }

  lemma Unwound(cbk: nat, interval: Ticks)
    requires cbk != 0 && 2 <= interval < TWO32 / 2
    ensures var s0 := TableOf(Slot(cbk, interval, interval, 0, true), 2 * interval, 0,
                [Calling(0, cbk, interval), Calling(0, cbk, 2 * interval)], map[cbk := 2 * interval]);
      Run(s0, UNWINDING) == TableOf(Slot(cbk, interval, interval, 0, false), 2 * interval + 1, 2 * interval,
                              [Scanning(0)], map[cbk := 2 * interval])
  {
    var es := UNWINDING;
    var s0 := TableOf(Slot(cbk, interval, interval, 0, true), 2 * interval, 0,
                [Calling(0, cbk, interval), Calling(0, cbk, 2 * interval)], map[cbk := 2 * interval]);
    var after := Slot(cbk, interval, 2 * interval, 0, false);
    var s1 := s0.(slots := [after], stack := [Calling(0, cbk, interval), Scanning(1)]);
    var s2 := s1.(stack := [Calling(0, cbk, interval)], previous := 2 * interval);
    var s3 := s2.(slots := [after.(start := interval)], stack := [Scanning(1)]);
    var s4 := s3.(stack := []);
    var s5 := s4.(now := 2 * interval + 1);
    var s6 := s5.(stack := [Scanning(0)]);
    assert Step(s0, es[0]) == s1;
    assert Step(s1, es[1]) == s2;
    assert Step(s2, es[2]) == s3;
    assert Step(s3, es[3]) == s4;
    assert Step(s4, es[4]) == s5;
    assert Step(s5, es[5]) == s6;
    hide Step;
    Chain(s0, s1, es); Chain(s1, s2, es[1..]); Chain(s2, s3, es[2..]);
    Chain(s3, s4, es[3..]); Chain(s4, s5, es[4..]); Chain(s5, s6, es[5..]);
  }

  lemma Chain(s: State, t: State, es: seq<Event>)
    requires es != [] && Step(s, es[0]) == t
    ensures Run(s, es) == Run(t, es[1..])
    ensures forall cbk :: RunDisciplined(s, es, cbk) <==> Disciplined(s, es[0], cbk) && RunDisciplined(t, es[1..], cbk)
  {
  }

  lemma {:induction false} RunAppends(s: State, a: seq<Event>, b: seq<Event>)
    ensures Run(s, a + b) == Run(Run(s, a), b)
    decreases |a|
  {
    if a == [] {
      assert a + b == b;
    } else {
      assert (a + b)[1..] == a[1..] + b;
      RunAppends(Step(s, a[0]), a[1..], b);
    }
  }

  /**
   * Without the discipline the timer fires again after a single tick, whatever its interval: the
   * outer scan writes the start time of the firing before the last one.
   */
  lemma RearmedFiresTooEarly(cbk: nat, interval: Ticks)
    requires cbk != 0 && 2 <= interval < TWO32 / 2
    ensures var s0 := TableOf(Slot(cbk, interval, 0, 0, false), interval, 0, [], map[]);
      var s := Run(s0, Rearming(cbk, interval) + UNWINDING);
      && Fresh(s0) && !RunDisciplined(s0, Rearming(cbk, interval), cbk)
      && !NoStaleReturn(s0, Rearming(cbk, interval) + UNWINDING, cbk)
      && Fires(s, Scan, cbk) && s.fired == map[cbk := s.now - 1] && s.slots[s.Top().i].interval == interval
  {
    hide Run, Rearming, RunDisciplined, NoStaleReturn, Step, Fires;
    var s0 := TableOf(Slot(cbk, interval, 0, 0, false), interval, 0, [], map[]);
    Rearmed(cbk, interval);
    Unwound(cbk, interval);
    RunAppends(s0, Rearming(cbk, interval), UNWINDING);
    FiresAfterOneTick(cbk, interval);
    if NoStaleReturn(s0, Rearming(cbk, interval) + UNWINDING, cbk) {
      NeverTooEarly(s0, Rearming(cbk, interval) + UNWINDING, cbk);
    }
  }

  lemma FiresAfterOneTick(cbk: nat, interval: Ticks)
    requires cbk != 0 && 2 <= interval < TWO32 / 2
    ensures Fires(TableOf(Slot(cbk, interval, interval, 0, false), 2 * interval + 1, 2 * interval,
                    [Scanning(0)], map[cbk := 2 * interval]), Scan, cbk)
  {
    assert Elapsed(2 * interval + 1, interval) == interval + 1;
  }

  // ---------- Every stale return lets a timer fire too early ----------

  /** What holds of every reachable stack: only the innermost scan is not waiting, and calls precede later firings. */
  predicate Sound(s: State) {
    && Compact(s.slots)
    && (forall k :: 0 <= k < |s.stack| - 1 ==> s.stack[k].Calling?)
    && (forall k :: 0 <= k < |s.stack| && s.stack[k].Calling? ==>
          && s.stack[k].cbk != 0 && s.stack[k].i < |s.slots| && s.stack[k].at <= s.now
          && (s.stack[k].cbk in s.fired ==> s.stack[k].at <= s.fired[s.stack[k].cbk]))
    && (forall c :: c in s.fired ==> s.fired[c] <= s.now)
  }

  lemma StepKeepsSound(s: State, e: Event)
    requires Sound(s)
    ensures Sound(Step(s, e))
  {
    hide Compact, Find, AddTo, RemoveFrom;
    StepKeepsCompact(s, e);
    var s' := Step(s, e);
    assert forall k :: 0 <= k < |s'.stack| - 1 && k < |s.stack| ==> s'.stack[k] == s.stack[k];
  }

  lemma {:induction false} ReachableIsSound(s: State, es: seq<Event>)
    requires Sound(s)
    ensures Sound(Run(s, es)) && |Run(s, es).slots| == |s.slots|
    decreases |es|
  {
    if es != [] {
      hide Sound, Step;
      assert Compact(s.slots) by { SoundIsCompact(s); }
      StepKeepsCompact(s, es[0]);
      StepKeepsSound(s, es[0]);
      ReachableIsSound(Step(s, es[0]), es[1..]);
    }
  }

  lemma SoundIsCompact(s: State)
    requires Sound(s)
    ensures Compact(s.slots)
  {
  }

  /** What a scan that passes slots of other timers, whose callbacks return at once, leaves alone. */
  predicate SameFor(s: State, t: State, cbk: nat) {
    && t.now == s.now && t.previous == s.previous && |t.slots| == |s.slots|
    && (forall j :: 0 <= j < |s.slots| ==> t.slots[j].cbk == s.slots[j].cbk)
    && (forall j :: 0 <= j < |s.slots| && s.slots[j].cbk == cbk ==> t.slots[j] == s.slots[j])
    && (cbk in t.fired <==> cbk in s.fired) && (cbk in s.fired ==> t.fired[cbk] == s.fired[cbk])
  }

  /** The events of such a scan up to slot `target`. */
  lemma {:induction false} PassOver(s: State, target: nat, cbk: nat) returns (es: seq<Event>)
    requires s.stack != [] && s.Top().Scanning? && s.Top().i <= target <= |s.slots|
    requires forall j :: s.Top().i <= j < target ==> s.slots[j].cbk != 0 && s.slots[j].cbk != cbk
    ensures var t := Run(s, es);
      SameFor(s, t, cbk) && t.stack == s.stack[..|s.stack| - 1] + [Scanning(target)]
    decreases target - s.Top().i
  {
    var i := s.Top().i;
    es := [];
    if i < target {
      var step := PassOne(s, cbk);
      var s1 := Run(s, step);
      es := PassOver(s1, target, cbk);
      RunAppends(s, step, es);
      es := step + es;
      assert s1.stack[..|s1.stack| - 1] == s.stack[..|s.stack| - 1];
    } else {
      assert s.stack == s.stack[..|s.stack| - 1] + [Scanning(target)];
    }
  }

  lemma PassOne(s: State, cbk: nat) returns (es: seq<Event>)
    requires s.stack != [] && s.Top().Scanning? && s.Top().i < |s.slots|
    requires s.slots[s.Top().i].cbk != 0 && s.slots[s.Top().i].cbk != cbk
    ensures var t := Run(s, es);
      SameFor(s, t, cbk) && t.stack == s.stack[..|s.stack| - 1] + [Scanning(s.Top().i + 1)]
  {
    hide Run;
    if Due(s.slots[s.Top().i], s.Counter()) {
      es := [Scan, Return];
      RunOfTwo(s, Scan, Return);
    } else {
      es := [Scan];
      RunOfOne(s, Scan);
    }
  }

  lemma RunOfOne(s: State, e: Event)
    ensures Run(s, [e]) == Step(s, e)
  {
    hide Step;
    assert [e][1..] == [];
  }

  lemma RunOfTwo(s: State, e: Event, f: Event)
    ensures Run(s, [e, f]) == Step(Step(s, e), f)
  {
    hide Step;
    assert [e, f][1..] == [f];
    RunOfOne(Step(s, e), f);
  }

  lemma RunOfThree(s: State, e: Event, f: Event, g: Event)
    ensures Run(s, [e, f, g]) == Step(Step(Step(s, e), f), g)
  {
    hide Step;
    assert [e, f, g][1..] == [f, g];
    RunOfTwo(Step(s, e), f, g);
  }

  /** The scan after a return runs to its end, and `wait` ticks later the next one is at its first slot. */
  lemma ToNextScan(s: State, cbk: nat, wait: nat) returns (es: seq<Event>)
    requires Sound(s) && s.stack != [] && s.Top().Scanning? && s.Top().i <= |s.slots| && 0 < wait < TWO32
    requires forall j :: s.Top().i <= j < |s.slots| ==> s.slots[j].cbk != cbk
    requires cbk != 0 && forall j :: 0 <= j < s.Top().i ==> s.slots[j].cbk != 0
    ensures var t := Run(s, es);
      && SameFor(s, t.(now := s.now, previous := s.previous), cbk) && t.now == s.now + wait
      && t.stack == s.stack[..|s.stack| - 1] + [Scanning(0)]
  {
    hide Compact, Run, Due, Find;
    var end := Find(s.slots, 0);
    var pass := PassOver(s, end, cbk);
    var s1 := Run(s, pass);
    var tail := [Scan, Pass(wait), Enter];
    RunOfThree(s1, Scan, Pass(wait), Enter);
    RunAppends(s, pass, tail);
    es := pass + tail;
    var s2 := Step(s1, Scan);
    assert s2.stack == s.stack[..|s.stack| - 1];
    var s3 := Step(s2, Pass(wait));
    LaterIsAnotherTick(s.now, wait);
    assert CallerRuns(s3);
  }

  lemma LaterIsAnotherTick(now: nat, wait: nat)
    requires 0 < wait < TWO32
    ensures (now + wait) % TWO32 != now % TWO32
  {
    var q := (now + wait) / TWO32 - now / TWO32;
    assert wait == TWO32 * q + ((now + wait) % TWO32 - now % TWO32);
  }

  /**
   * In any reachable state, a stale return has a continuation in which the timer fires too early, if
   * its interval is long enough for time to be left since the last firing.
   */
  lemma StaleReturnFiresTooEarly(s: State, cbk: nat) returns (es: seq<Event>)
    requires Sound(s) && Stale(s, cbk)
    requires s.now + 1 < s.fired[cbk] + s.slots[s.Top().i].interval && s.now + 1 < s.Top().at + TWO32
    ensures es != [] && es[0] == Return
    ensures var t := Run(s, es);
      Fires(t, Scan, cbk) && cbk in t.fired && t.now < t.fired[cbk] + t.slots[t.Top().i].interval
  {
    hide Run, Find;
    var f := s.Top();
    var i, interval := f.i, s.slots[f.i].interval;
    assert f == s.stack[|s.stack| - 1];
    var s1 := Step(s, Return);
    StepKeepsSound(s, Return);
    var wait := if s.now < f.at + interval then f.at + interval - s.now else 1;
    hide Step;
    var next := ToNextScan(s1, cbk, wait);
    var s2 := Run(s1, next);
    var pass := PassOver(s2, i, cbk);
    var s3 := Run(s2, pass);
    RunAppends(s1, next, pass);
    RunOfOne(s, Return);
    RunAppends(s, [Return], next + pass);
    es := [Return] + (next + pass);
    assert s3.slots[i] == s1.slots[i];
    ElapsedBetween(s3.now, f.at);
  }

  lemma ElapsedBetween(now: nat, at: nat)
    requires at <= now < at + TWO32
    ensures Elapsed(now % TWO32, at % TWO32) == now - at
  {
  }

  /** A callback that removes and re-adds its own timer, without a nested scan, does no harm. */
  lemma SelfRearmingIsHarmless(cbk: nat, interval: Ticks)
    requires cbk != 0 && 0 < interval
    ensures var s0 := TableOf(Slot(cbk, interval, 0, 0, false), interval, 0, [], map[]);
      var es := [Enter, Scan, Remove(cbk), Add(cbk, 0, interval), Return, Scan];
      Fresh(s0) && !RunDisciplined(s0, es, cbk) && NoStaleReturn(s0, es, cbk)
  {
    var s0 := TableOf(Slot(cbk, interval, 0, 0, false), interval, 0, [], map[]);
    var es := [Enter, Scan, Remove(cbk), Add(cbk, 0, interval), Return, Scan];
    var s1 := s0.(stack := [Scanning(0)]);
    var s2 := TableOf(Slot(cbk, interval, 0, 0, true), interval, 0, [Calling(0, cbk, interval)], map[cbk := interval]);
    var s3 := TableOf(Slot(0, interval, 0, 0, true), interval, 0, [Calling(0, cbk, interval)], map[]);
    var s4 := s3.(slots := [Slot(cbk, interval, interval, 0, false)]);
    var s5 := s4.(stack := [Scanning(1)]);
    hide Step, Disciplined;
    FirstFiring(s0, s1, s2, cbk, interval);
    RearmingSteps(s2, s3, s4, cbk, interval);
    ReturnUnstale(s4, s5, cbk, interval);
    NoStaleChain(s0, s1, es, cbk); NoStaleChain(s1, s2, es[1..], cbk); NoStaleChain(s2, s3, es[2..], cbk);
    NoStaleChain(s3, s4, es[3..], cbk); NoStaleChain(s4, s5, es[4..], cbk); NoStaleChain(s5, Step(s5, Scan), es[5..], cbk);
  }

  lemma FirstFiring(s0: State, s1: State, s2: State, cbk: nat, interval: Ticks)
    requires cbk != 0 && 0 < interval
    requires s0 == TableOf(Slot(cbk, interval, 0, 0, false), interval, 0, [], map[]) && s1 == s0.(stack := [Scanning(0)])
    requires s2 == TableOf(Slot(cbk, interval, 0, 0, true), interval, 0, [Calling(0, cbk, interval)], map[cbk := interval])
    ensures Step(s0, Enter) == s1 && Step(s1, Scan) == s2 && Fresh(s0)
  {
    assert Elapsed(interval, 0) == interval;
  }

  lemma ReturnUnstale(s4: State, s5: State, cbk: nat, interval: Ticks)
    requires s4 == TableOf(Slot(cbk, interval, interval, 0, false), interval, 0, [Calling(0, cbk, interval)], map[])
    requires s5 == s4.(stack := [Scanning(1)])
    ensures Step(s4, Return) == s5
  {
  }

  lemma RearmingSteps(s2: State, s3: State, s4: State, cbk: nat, interval: Ticks)
    requires cbk != 0
    requires s2 == TableOf(Slot(cbk, interval, 0, 0, true), interval, 0, [Calling(0, cbk, interval)], map[cbk := interval])
    requires s3 == TableOf(Slot(0, interval, 0, 0, true), interval, 0, [Calling(0, cbk, interval)], map[])
    requires s4 == s3.(slots := [Slot(cbk, interval, interval, 0, false)])
    ensures Step(s2, Remove(cbk)) == s3 && Step(s3, Add(cbk, 0, interval)) == s4
    ensures !Disciplined(s3, Add(cbk, 0, interval), cbk)
  {
    FindIs(s2.slots, cbk, 0);
    assert s2.fired - {cbk} == s3.fired;
    FindIs(s3.slots, cbk, 1);
    FindIs(s3.slots, 0, 0);
    assert s3.fired - {cbk} == s3.fired;
    assert Calls(s3.stack[0], cbk) && Running(s3, cbk) && !Registered(s3, cbk);
  }

  lemma NoStaleChain(s: State, t: State, es: seq<Event>, cbk: nat)
    requires es != [] && Step(s, es[0]) == t
    ensures NoStaleReturn(s, es, cbk) <==> !(es[0].Return? && Stale(s, cbk)) && NoStaleReturn(t, es[1..], cbk)
    ensures RunDisciplined(s, es, cbk) <==> Disciplined(s, es[0], cbk) && RunDisciplined(t, es[1..], cbk)
  {
  }

  // ---------- A timer that is lost ----------

  /** Marked as in progress although no callback of it is being executed. */
  predicate Lost(s: State, cbk: nat) {
    && Compact(s.slots) && !Running(s, cbk)
    && exists i :: 0 <= i < |s.slots| && s.slots[i].cbk == cbk && s.slots[i].inProgress
  }

  /** A callback that removes a timer from a slot before its own: its own timer is lost when it returns. */
  lemma RemovingAnEarlierTimerLosesOwn(s: State, j: nat)
    requires s.stack != [] && s.Top().Calling? && j < s.Top().i < |s.slots|
    requires s.Top().cbk != 0 && Spaced(s, s.Top().cbk) && s.slots[s.Top().i].cbk == s.Top().cbk
    ensures Lost(Step(Step(s, Remove(s.slots[j].cbk)), Return), s.Top().cbk)
  {
    var i, cbk := s.Top().i, s.Top().cbk;
    var s1 := Step(s, Remove(s.slots[j].cbk));
    assert Calls(s.stack[|s.stack| - 1], cbk) && Running(s, cbk);
    FindIs(s.slots, s.slots[j].cbk, j);
    assert s1.slots[i - 1] == s.slots[i];
    RemoveKeepsCompact(s.slots, s.slots[j].cbk);
    assert s1.slots[i].cbk != cbk;
    var s2 := Step(s1, Return);
    assert s2.slots == s1.slots;
    forall k | 0 <= k < |s2.stack| ensures !Calls(s2.stack[k], cbk) {
      if k < |s.stack| - 1 {
        assert s2.stack[k] == s.stack[k];
      }
    }
  }

  lemma StillNotRunning(s: State, e: Event, cbk: nat)
    requires Lost(s, cbk) && cbk != 0
    ensures !Fires(s, e, cbk) && !Running(Step(s, e), cbk)
  {
    var s' := Step(s, e);
    forall k | 0 <= k < |s'.stack| ensures !Calls(s'.stack[k], cbk) {
      if k < |s.stack| && s'.stack[k] == s.stack[k] {
        assert !Calls(s.stack[k], cbk);
      }
    }
  }

  lemma NothingRemoved(slots: seq<Slot>, c: nat)
    requires Find(slots, c) == |slots|
    ensures RemoveFrom(slots, c) == slots
  {
  }

  lemma StillMarked(s: State, e: Event, cbk: nat, i: nat) returns (j: nat)
    requires Lost(s, cbk) && cbk != 0 && e != Remove(cbk) && i < |s.slots| && s.slots[i].cbk == cbk && s.slots[i].inProgress
    ensures j < |Step(s, e).slots| && Step(s, e).slots[j].cbk == cbk && Step(s, e).slots[j].inProgress
  {
    hide RemoveFrom, Find;
    j := i;
    match e
    case Remove(c) =>
      if CallerRuns(s) && Find(s.slots, c) < |s.slots| {
        RemovedAt(s.slots, c);
        j := if Find(s.slots, c) < i then i - 1 else i;
        assert RemoveFrom(s.slots, c)[j] == s.slots[i];
      } else if CallerRuns(s) {
        NothingRemoved(s.slots, c);
      }
    case Add(c, arg, interval) =>
    case Return =>
      if s.stack != [] && s.Top().Calling? {
        assert !Calls(s.stack[|s.stack| - 1], cbk);
      }
    case _ =>
  }

  lemma StepKeepsLost(s: State, e: Event, cbk: nat)
    requires Lost(s, cbk) && cbk != 0 && e != Remove(cbk)
    ensures !Fires(s, e, cbk) && Lost(Step(s, e), cbk)
  {
    hide Step, Running;
    StepKeepsCompact(s, e);
    StillNotRunning(s, e, cbk);
    var i :| 0 <= i < |s.slots| && s.slots[i].cbk == cbk && s.slots[i].inProgress;
    var j := StillMarked(s, e, cbk, i);
  }

  /** A lost timer never fires again until it is removed; adding it again does not help. */
  lemma {:induction false} LostNeverFires(s: State, es: seq<Event>, cbk: nat)
    requires Lost(s, cbk) && cbk != 0 && Remove(cbk) !in es
    ensures forall k :: 0 <= k < |es| ==> !Fires(Run(s, es[..k]), es[k], cbk)
    decreases |es|
  {
    if es != [] {
      StepKeepsLost(s, es[0], cbk);
      LostNeverFires(Step(s, es[0]), es[1..], cbk);
      forall k | 0 <= k < |es| ensures !Fires(Run(s, es[..k]), es[k], cbk) {
        if k > 0 {
          assert es[..k][1..] == es[1..][..k - 1];
          assert es[k] == es[1..][k - 1];
        }
      }
    }
  }

  // ---------- Exactly when a timer is lost ----------

  /** The callback on top was called from a slot that its timer, still registered, is not in any more. */
  predicate Misses(s: State, cbk: nat) {
    && s.stack != [] && Calls(s.Top(), cbk) && Registered(s, cbk)
    && s.Top().i < |s.slots| && s.slots[s.Top().i].cbk != cbk
  }

  /** The marks of a timer that is not lost: one of its callbacks is being executed, or its slot is not marked. */
  lemma NotLost(s: State, cbk: nat)
    requires Compact(s.slots)
    ensures !Lost(s, cbk) <==>
      Running(s, cbk) || forall i :: 0 <= i < |s.slots| && s.slots[i].cbk == cbk ==> !s.slots[i].inProgress
  {
  }

  lemma ReturnLoses(s: State, cbk: nat)
    requires Spaced(s, cbk) && Sound(s) && cbk != 0 && !Lost(s, cbk)
    ensures Lost(Step(s, Return), cbk) <==> Misses(s, cbk)
  {
    hide Find;
    var s' := Step(s, Return);
    if s' != s {
      var i := s.Top().i;
      assert s.Top() == s.stack[|s.stack| - 1];
      assert forall k :: 0 <= k < |s'.stack| - 1 ==> s'.stack[k] == s.stack[k];
      assert Compact(s'.slots) by { StepKeepsCompact(s, Return); }
      assert forall j :: 0 <= j < |s.slots| && j != i ==> s'.slots[j] == s.slots[j];
      NotLost(s, cbk);
      if Calls(s.Top(), cbk) {
        assert Running(s, cbk) && !Running(s', cbk);
      } else {
        assert Running(s', cbk) <==> Running(s, cbk);
        assert forall j :: 0 <= j < |s.slots| && s.slots[j].cbk == cbk ==> s'.slots[j] == s.slots[j];
      }
    } else {
      assert s.stack != [] ==> s.Top() == s.stack[|s.stack| - 1];
    }
  }

  lemma RemovalLosesNone(s: State, c: nat, cbk: nat)
    requires Compact(s.slots) && cbk != 0 && !Lost(s, cbk)
    ensures !Lost(Step(s, Remove(c)), cbk)
  {
    hide Find;
    var s' := Step(s, Remove(c));
    if s' != s {
      RemoveKeepsCompact(s.slots, c);
      NotLost(s, cbk);
      NotLost(s', cbk);
      assert Running(s', cbk) <==> Running(s, cbk);
      forall i | 0 <= i < |s'.slots| && s'.slots[i].cbk == cbk
        ensures exists j :: 0 <= j < |s.slots| && s.slots[j] == s'.slots[i]
      {
        RemovedFrom(s.slots, c, i);
      }
    }
  }

  lemma OthersLoseNone(s: State, e: Event, cbk: nat)
    requires Spaced(s, cbk) && cbk != 0 && Disciplined(s, e, cbk) && !Lost(s, cbk) && !e.Return? && !e.Remove?
    ensures !Lost(Step(s, e), cbk)
  {
    hide Find;
    var s' := Step(s, e);
    StepKeepsCompact(s, e);
    NotLost(s, cbk);
    NotLost(s', cbk);
    if Running(s, cbk) {
      var k :| 0 <= k < |s.stack| && Calls(s.stack[k], cbk);
      assert Calls(s'.stack[k], cbk);
    } else if Fires(s, e, cbk) {
      assert Calls(s'.stack[|s'.stack| - 1], cbk);
    }
  }

  /** Of all events only the return of its own callback loses a timer, and that exactly when it misses its slot. */
  lemma LostExactlyByMissing(s: State, e: Event, cbk: nat)
    requires Spaced(s, cbk) && Sound(s) && cbk != 0 && Disciplined(s, e, cbk) && !Lost(s, cbk)
    ensures Lost(Step(s, e), cbk) <==> e.Return? && Misses(s, cbk)
  {
    hide Step, Lost, Misses, Spaced, Sound;
    match e
    case Return => ReturnLoses(s, cbk);
    case Remove(c) => SoundIsCompact(s); RemovalLosesNone(s, c, cbk);
    case _ => OthersLoseNone(s, e, cbk);
  }

  /** Some timer in a slot before that of a running callback of `cbk` is removed, while `cbk` is registered. */
  predicate Shifts(s: State, e: Event, cbk: nat) {
    && e.Remove? && CallerRuns(s) && Registered(s, cbk)
    && exists k :: 0 <= k < |s.stack| && Calls(s.stack[k], cbk) && Find(s.slots, e.cbk) < s.stack[k].i
  }

  predicate ShiftedIn(s: State, es: seq<Event>, cbk: nat)
    decreases |es|
  {
    es != [] && (Shifts(s, es[0], cbk) || ShiftedIn(Step(s, es[0]), es[1..], cbk))
  }

  /** A running callback's timer is registered in a slot before the one it was called from. */
  predicate Displaced(s: State, cbk: nat) {
    && Registered(s, cbk)
    && exists k :: 0 <= k < |s.stack| && Calls(s.stack[k], cbk) && Find(s.slots, cbk) < s.stack[k].i
  }

  /** It is never in a slot behind that one. */
  predicate Tracked(s: State, cbk: nat) {
    && cbk != 0 && Spaced(s, cbk) && Sound(s)
    && (Registered(s, cbk) ==>
          forall k :: 0 <= k < |s.stack| && Calls(s.stack[k], cbk) ==> Find(s.slots, cbk) <= s.stack[k].i)
  }

  lemma IsRegistered(slots: seq<Slot>, cbk: nat)
    ensures (exists i :: 0 <= i < |slots| && slots[i].cbk == cbk) <==> Find(slots, cbk) < |slots|
  {
  }

  /** Marks do not move timers. */
  lemma FindKept(slots: seq<Slot>, slots': seq<Slot>, cbk: nat)
    requires |slots'| == |slots| && forall j :: 0 <= j < |slots| ==> slots'[j].cbk == slots[j].cbk
    ensures Find(slots', cbk) == Find(slots, cbk)
  {
    FindIs(slots', cbk, Find(slots, cbk));
  }

  /** Neither does adding one. */
  lemma FindAfterAdd(slots: seq<Slot>, c: nat, arg: nat, interval: Ticks, curr: Ticks, cbk: nat)
    requires c != 0 && cbk != 0
    ensures Find(slots, cbk) < |slots| || cbk != c ==> Find(AddTo(slots, c, arg, interval, curr), cbk) == Find(slots, cbk)
  {
    if Find(slots, cbk) < |slots| || cbk != c {
      FindIs(AddTo(slots, c, arg, interval, curr), cbk, Find(slots, cbk));
    }
  }

  /** Removing another one moves the timers behind it down by one. */
  lemma FindAfterRemove(slots: seq<Slot>, c: nat, cbk: nat)
    requires Compact(slots) && cbk != 0
    ensures Find(RemoveFrom(slots, c), cbk) ==
            if c == cbk then |slots|
            else if Find(slots, cbk) < |slots| && Find(slots, c) < Find(slots, cbk) then Find(slots, cbk) - 1
            else Find(slots, cbk)
  {
    hide Find;
    var k, i := Find(slots, c), Find(slots, cbk);
    if k < |slots| {
      RemovedAt(slots, c);
      hide RemoveFrom;
      FindIs(RemoveFrom(slots, c), cbk, if c == cbk then |slots| else if i < |slots| && k < i then i - 1 else i);
    } else {
      assert RemoveFrom(slots, c) == slots;
    }
  }

  /** Where an event leaves a timer. */
  function PlaceAfter(s: State, e: Event, cbk: nat): nat {
    var i := Find(s.slots, cbk);
    if !e.Remove? || !CallerRuns(s) then i
    else if e.cbk == cbk then |s.slots|
    else if i < |s.slots| && Find(s.slots, e.cbk) < i then i - 1
    else i
  }

  lemma StepMoves(s: State, e: Event, cbk: nat)
    requires Compact(s.slots) && cbk != 0 && (e.Add? && e.cbk == cbk ==> Registered(s, cbk))
    ensures |Step(s, e).slots| == |s.slots| && Find(Step(s, e).slots, cbk) == PlaceAfter(s, e, cbk)
  {
    hide Compact, Find, AddTo, RemoveFrom, Due;
    StepKeepsCompact(s, e);
    IsRegistered(s.slots, cbk);
    match e
    case Add(c, arg, interval) => if c != 0 { FindAfterAdd(s.slots, c, arg, interval, s.Counter(), cbk); }
    case Remove(c) => FindAfterRemove(s.slots, c, cbk);
    case _ => FindKept(s.slots, Step(s, e).slots, cbk);
  }

  /** The calls of `cbk` after an event: one more when it fires, the last one less when that returns. */
  lemma CallsAfter(s: State, e: Event, cbk: nat)
    ensures forall k :: 0 <= k < |Step(s, e).stack| && Calls(Step(s, e).stack[k], cbk) ==>
      || (k < |s.stack| && Step(s, e).stack[k] == s.stack[k])
      || (Fires(s, e, cbk) && k == |s.stack| - 1 && Step(s, e).stack[k] == Calling(s.Top().i, cbk, s.now))
    ensures forall k :: 0 <= k < |s.stack| && Calls(s.stack[k], cbk) ==>
      || (k < |Step(s, e).stack| && Step(s, e).stack[k] == s.stack[k])
      || (e.Return? && k == |s.stack| - 1 && Calls(s.Top(), cbk))
  {
    hide Find, AddTo, RemoveFrom;
  }

  lemma FiresInPlace(s: State, e: Event, cbk: nat)
    requires Compact(s.slots) && Fires(s, e, cbk)
    ensures e.Scan? && Find(s.slots, cbk) == s.Top().i
  {
    FindIs(s.slots, cbk, s.Top().i);
  }

  lemma StepKeepsTracked(s: State, e: Event, cbk: nat)
    requires Tracked(s, cbk) && Disciplined(s, e, cbk)
    ensures Tracked(Step(s, e), cbk)
  {
    hide Step, Spaced, Sound, Compact, Find, Fires;
    var s' := Step(s, e);
    SoundIsCompact(s);
    StepKeepsSpaced(s, e, cbk);
    StepKeepsSound(s, e);
    CallsAfter(s, e, cbk);
    IsRegistered(s.slots, cbk);
    IsRegistered(s'.slots, cbk);
    if Fires(s, e, cbk) {
      FiresInPlace(s, e, cbk);
    }
    if e.Add? && e.cbk == cbk && !Registered(s, cbk) {
      assert !Fires(s, e, cbk) by { NoFiringBut(s, e, cbk); }
    } else {
      StepMoves(s, e, cbk);
    }
  }

  lemma NoFiringBut(s: State, e: Event, cbk: nat)
    requires !e.Scan?
    ensures !Fires(s, e, cbk)
  {
  }

  /** Without a shift no running callback's timer is displaced. */
  lemma StepKeepsInPlace(s: State, e: Event, cbk: nat)
    requires Tracked(s, cbk) && Disciplined(s, e, cbk) && !Displaced(s, cbk) && !Shifts(s, e, cbk)
    ensures !Displaced(Step(s, e), cbk)
  {
    hide Step, Spaced, Sound, Compact, Find, Fires;
    var s' := Step(s, e);
    SoundIsCompact(s);
    CallsAfter(s, e, cbk);
    IsRegistered(s.slots, cbk);
    IsRegistered(s'.slots, cbk);
    if Fires(s, e, cbk) {
      FiresInPlace(s, e, cbk);
    }
    if e.Add? && e.cbk == cbk && !Registered(s, cbk) {
      assert !Fires(s, e, cbk) by { NoFiringBut(s, e, cbk); }
    } else {
      StepMoves(s, e, cbk);
      forall k | 0 <= k < |s'.stack| && Calls(s'.stack[k], cbk) && Registered(s', cbk)
        ensures Find(s'.slots, cbk) >= s'.stack[k].i
      {
        assert Registered(s, cbk);
        if k < |s.stack| && s'.stack[k] == s.stack[k] {
          assert Calls(s.stack[k], cbk);
        }
      }
    }
  }

  /** While the callback runs and its timer is not removed, a shift displaces it, and once displaced it stays so. */
  lemma StepDisplaces(s: State, e: Event, cbk: nat)
    requires Tracked(s, cbk) && Running(s, cbk) && Registered(s, cbk) && e != Remove(cbk)
    requires !(e.Return? && s.stack != [] && Calls(s.Top(), cbk))
    ensures Running(Step(s, e), cbk) && Registered(Step(s, e), cbk)
    ensures Displaced(Step(s, e), cbk) <==> Displaced(s, cbk) || Shifts(s, e, cbk)
  {
    var s' := Step(s, e);
    assert !Displaced(s, cbk) && !Shifts(s, e, cbk) ==> !Displaced(s', cbk) by {
      if !Displaced(s, cbk) && !Shifts(s, e, cbk) {
        StepKeepsInPlace(s, e, cbk);
      }
    }
    hide Step, Spaced, Sound, Compact, Find, Fires;
    SoundIsCompact(s);
    CallsAfter(s, e, cbk);
    StepMoves(s, e, cbk);
    IsRegistered(s.slots, cbk);
    IsRegistered(s'.slots, cbk);
    var k :| 0 <= k < |s.stack| && Calls(s.stack[k], cbk);
    assert s'.stack[k] == s.stack[k];
  }

  /** The run ends with the return of the callback of `cbk` that is being executed. */
  predicate EndsCallback(s: State, es: seq<Event>, cbk: nat)
    decreases |es|
  {
    && es != []
    && if es[0].Return? && s.stack != [] && Calls(s.Top(), cbk) then |es| == 1
       else EndsCallback(Step(s, es[0]), es[1..], cbk)
  }

  lemma DisplacedMisses(s: State, cbk: nat)
    requires Tracked(s, cbk) && Registered(s, cbk) && s.stack != [] && Calls(s.Top(), cbk)
    ensures Misses(s, cbk) <==> Displaced(s, cbk)
    ensures !Lost(s, cbk)
  {
    IsRegistered(s.slots, cbk);
    assert s.Top() == s.stack[|s.stack| - 1] && Running(s, cbk);
    if s.slots[s.Top().i].cbk == cbk {
      FindIs(s.slots, cbk, s.Top().i);
    }
  }

  /**
   * Over the life of a callback whose timer stays registered: the timer is lost at its end exactly
   * when a timer in a slot before the callback's own was removed meanwhile.
   */
  lemma {:induction false} LostIffShifted(s: State, es: seq<Event>, cbk: nat)
    requires Tracked(s, cbk) && Running(s, cbk) && Registered(s, cbk)
    requires RunDisciplined(s, es, cbk) && EndsCallback(s, es, cbk) && Remove(cbk) !in es
    ensures Lost(Run(s, es), cbk) <==> Displaced(s, cbk) || ShiftedIn(s, es, cbk)
    decreases |es|
  {
    var e := es[0];
    if e.Return? && s.stack != [] && Calls(s.Top(), cbk) {
      assert es == [e];
      RunOfOne(s, e);
      DisplacedMisses(s, cbk);
      hide Lost, Misses, Displaced, Step, Spaced, Sound;
      LostExactlyByMissing(s, e, cbk);
    } else {
      hide Step, Displaced, Shifts, Tracked, Running, Registered, Lost, Calls;
      StepKeepsTracked(s, e, cbk);
      StepDisplaces(s, e, cbk);
      LostIffShifted(Step(s, e), es[1..], cbk);
    }
  }

  /** A firing starts such a life. */
  lemma FiringIsInPlace(s: State, cbk: nat)
    requires Tracked(s, cbk) && Fires(s, Scan, cbk)
    ensures var t := Step(s, Scan);
      Tracked(t, cbk) && Running(t, cbk) && Registered(t, cbk) && !Displaced(t, cbk)
  {
    hide Find;
    var t := Step(s, Scan);
    StepKeepsTracked(s, Scan, cbk);
    SoundIsCompact(s);
    StepMoves(s, Scan, cbk);
    FiresInPlace(s, Scan, cbk);
    assert Calls(t.stack[|t.stack| - 1], cbk);
    assert t.slots[s.Top().i].cbk == cbk;
    forall k | 0 <= k < |t.stack| && Calls(t.stack[k], cbk) ensures k == |t.stack| - 1 {
      assert Spaced(t, cbk);
    }
  }

  /** So from a firing to the callback's return: lost exactly when a timer in an earlier slot is removed meanwhile. */
  lemma LostFromFiringToReturn(s: State, es: seq<Event>, cbk: nat)
    requires Tracked(s, cbk) && Fires(s, Scan, cbk)
    requires var t := Step(s, Scan); RunDisciplined(t, es, cbk) && EndsCallback(t, es, cbk) && Remove(cbk) !in es
    ensures var t := Step(s, Scan); Lost(Run(t, es), cbk) <==> ShiftedIn(t, es, cbk)
  {
    hide *;
    FiringIsInPlace(s, cbk);
    LostIffShifted(Step(s, Scan), es, cbk);
  }

  lemma {:induction false} StaysUnlost(s: State, es: seq<Event>, cbk: nat)
    requires Tracked(s, cbk) && !Lost(s, cbk) && !Displaced(s, cbk)
    requires RunDisciplined(s, es, cbk) && !ShiftedIn(s, es, cbk)
    ensures !Lost(Run(s, es), cbk)
    decreases |es|
  {
    if es != [] {
      var e := es[0];
      StepKeepsTracked(s, e, cbk);
      StepKeepsInPlace(s, e, cbk);
      if Misses(s, cbk) {
        DisplacedMisses(s, cbk);
      }
      assert Spaced(s, cbk) && Sound(s) && cbk != 0;
      hide Step, Displaced, Shifts, Tracked, Lost, Misses, Spaced, Sound;
      LostExactlyByMissing(s, e, cbk);
      StaysUnlost(Step(s, e), es[1..], cbk);
    }
  }

  /**
   * From a table nothing has happened to: a timer that is not registered anew while its callback
   * runs, and before whose running callback no slot is freed, is never lost.
   */
  lemma NeverLost(s0: State, es: seq<Event>, cbk: nat)
    requires Fresh(s0) && cbk != 0 && !Lost(s0, cbk) && RunDisciplined(s0, es, cbk) && !ShiftedIn(s0, es, cbk)
    ensures !Lost(Run(s0, es), cbk)
  {
    StaysUnlost(s0, es, cbk);
  }

  lemma SecondFires(a: nat, b: nat, interval: Ticks)
    requires a != 0 && b != 0 && a != b && 2 <= interval
    ensures var first, second := Slot(a, interval, 0, 0, false), Slot(b, 1, 0, 0, false);
      var s0 := State([first, second], 1, 0, [], map[]);
      Step(Step(Step(s0, Enter), Scan), Scan) ==
        s0.(slots := [first, second.(inProgress := true)], stack := [Calling(1, b, 1)], fired := map[b := 1])
  {
    var s0 := State([Slot(a, interval, 0, 0, false), Slot(b, 1, 0, 0, false)], 1, 0, [], map[]);
    assert Step(Step(s0, Enter), Scan) == s0.(stack := [Scanning(1)]);
  }

  /** Two timers, the second of which is due and removes the first. */
  lemma RemovingAnEarlierTimerRun(a: nat, b: nat, interval: Ticks)
    requires a != 0 && b != 0 && a != b && 2 <= interval
    ensures var s0 := State([Slot(a, interval, 0, 0, false), Slot(b, 1, 0, 0, false)], 1, 0, [], map[]);
      var es := [Enter, Scan, Scan, Remove(a), Return];
      Fresh(s0) && !Lost(s0, b) && RunDisciplined(s0, es, b) && Lost(Run(s0, es), b)
  {
    var first, second := Slot(a, interval, 0, 0, false), Slot(b, 1, 0, 0, false);
    var s0 := State([first, second], 1, 0, [], map[]);
    var es := [Enter, Scan, Scan, Remove(a), Return];
    var s3 := s0.(slots := [first, second.(inProgress := true)], stack := [Calling(1, b, 1)], fired := map[b := 1]);
    SecondFires(a, b, interval);
    hide Step, Run, RunDisciplined, RemoveFrom, Find;
    RunOfThree(s0, Enter, Scan, Scan);
    assert s3.Top() == Calling(1, b, 1);
    SpacedOnce(s3, b);
    RemovingAnEarlierTimerLosesOwn(s3, 0);
    RunOfTwo(s3, Remove(a), Return);
    RunAppends(s0, [Enter, Scan, Scan], [Remove(a), Return]);
    assert es == [Enter, Scan, Scan] + [Remove(a), Return];
    OnlyAddsMatter(s0, es, b);
  }

  lemma SpacedOnce(s: State, b: nat)
    requires Compact(s.slots) && |s.slots| == 2 && s.slots[0].cbk != b && s.slots[1].cbk == b && s.slots[1].inProgress
    requires s.stack == [Calling(1, b, s.now)] && s.fired == map[b := s.now]
    ensures Spaced(s, b)
  {
  }

  lemma {:induction false} OnlyAddsMatter(s: State, es: seq<Event>, cbk: nat)
    requires forall e :: e in es ==> !e.Add?
    ensures RunDisciplined(s, es, cbk)
    decreases |es|
  {
    hide Step;
    if es != [] {
      OnlyAddsMatter(Step(s, es[0]), es[1..], cbk);
    }
  }
}
