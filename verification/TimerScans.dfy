/**
 * Which timers one scan of the timer table visits and fires, whatever the callbacks it calls do:
 * they may add and remove timers, let time pass and run nested scans.
 */
module TimerScans {
  import opened Octets
  import opened Timers

  // ---------- The break at the first empty slot ----------

  /** Wherever a reachable scan breaks off, no slot from there on is in use. */
  lemma BreakMissesNone(s0: State, es: seq<Event>)
    requires Fresh(s0)
    ensures var s := Run(s0, es);
      BreaksOff(s) ==> forall j :: s.Top().i <= j < |s.slots| ==> s.slots[j].cbk == 0
  {
    RunKeepsCompact(s0, es);
  }

  predicate BreaksOff(s: State) {
    s.stack != [] && s.Top().Scanning? && s.Top().i < |s.slots| && s.slots[s.Top().i].cbk == 0
  }

  // ---------- One scan with arbitrary callbacks ----------

  /** The scan at depth `d` of the stack goes on with this slot. */
  function NextSlot(s: State, d: nat): nat
    requires d < |s.stack|
  {
    match s.stack[d]
    case Scanning(i) => i
    case Calling(i, _, _) => i + 1
  }

  /** The scan has not come to the timer yet. */
  predicate Ahead(s: State, d: nat, cbk: nat) {
    d < |s.stack| && Registered(s, cbk) && NextSlot(s, d) <= Find(s.slots, cbk)
  }

  /** The scan looks at the timer's slot. */
  predicate Visits(s: State, e: Event, d: nat, cbk: nat) {
    && e.Scan? && |s.stack| == d + 1 && s.Top().Scanning? && s.Top().i < |s.slots|
    && s.slots[s.Top().i].cbk == cbk
  }

  /** The timer is in the next slot, and a callback frees one at or before the slot the scan has come to. */
  predicate Skips(s: State, e: Event, d: nat, cbk: nat) {
    && e.Remove? && CallerRuns(s) && d < |s.stack| && s.stack[d].Calling? && Registered(s, cbk)
    && Find(s.slots, cbk) == s.stack[d].i + 1 && Find(s.slots, e.cbk) <= s.stack[d].i
  }

  predicate VisitedIn(s: State, es: seq<Event>, d: nat, cbk: nat)
    decreases |es|
  {
    es != [] && (Visits(s, es[0], d, cbk) || VisitedIn(Step(s, es[0]), es[1..], d, cbk))
  }

  predicate SkippedIn(s: State, es: seq<Event>, d: nat, cbk: nat)
    decreases |es|
  {
    es != [] && (Skips(s, es[0], d, cbk) || SkippedIn(Step(s, es[0]), es[1..], d, cbk))
  }

  predicate FiredIn(s: State, es: seq<Event>, cbk: nat)
    decreases |es|
  {
    es != [] && (Fires(s, es[0], cbk) || FiredIn(Step(s, es[0]), es[1..], cbk))
  }

  /** The events last exactly until the scan at depth `d` ends. */
  predicate ScanLasts(s: State, es: seq<Event>, d: nat)
    decreases |es|
  {
    if es == [] then |s.stack| == d
    else |s.stack| > d && ScanLasts(Step(s, es[0]), es[1..], d)
  }

  /** Nothing but the scans and the callbacks of the timer itself concerns its slot. */
  predicate Untouched(es: seq<Event>, cbk: nat) {
    forall e :: e in es ==> !((e.Add? || e.Remove?) && e.cbk == cbk)
  }

  /** How an event moves the scan at depth `d`. */
  lemma StepOfScan(s: State, e: Event, d: nat, cbk: nat)
    requires Sound(s) && d < |s.stack| && cbk != 0 && Registered(s, cbk)
    ensures d < |Step(s, e).stack| ==>
      NextSlot(Step(s, e), d) ==
        if |s.stack| == d + 1 && s.Top().Scanning? && e.Scan? then s.Top().i + 1 else NextSlot(s, d)
    ensures d >= |Step(s, e).stack| ==>
      && |s.stack| == d + 1 && s.Top().Scanning? && e.Scan? && |Step(s, e).stack| == d
      && !Ahead(s, d, cbk)
    ensures e.Remove? && CallerRuns(s) ==> s.stack[d].Calling?
  {
    hide Find, AddTo, RemoveFrom;
    assert |s.stack| == d + 1 ==> s.Top() == s.stack[d];
    IsRegistered(s.slots, cbk);
  }

  /** An event leaves the timer ahead of the scan exactly when it neither visits nor skips it. */
  lemma StepKeepsAhead(s: State, e: Event, d: nat, cbk: nat)
    requires Sound(s) && d < |s.stack| && cbk != 0 && Registered(s, cbk)
    requires !((e.Add? || e.Remove?) && e.cbk == cbk)
    ensures Registered(Step(s, e), cbk)
    ensures d < |Step(s, e).stack| ==>
      (Ahead(Step(s, e), d, cbk) <==> Ahead(s, d, cbk) && !Visits(s, e, d, cbk) && !Skips(s, e, d, cbk))
    ensures d >= |Step(s, e).stack| ==> !Ahead(s, d, cbk)
    ensures Visits(s, e, d, cbk) || Skips(s, e, d, cbk) ==> Ahead(s, d, cbk)
  {
    hide Step, Sound, Find, Compact;
    SoundIsCompact(s);
    StepOfScan(s, e, d, cbk);
    StepMoves(s, e, cbk);
    IsRegistered(s.slots, cbk);
    IsRegistered(Step(s, e).slots, cbk);
    assert |s.stack| == d + 1 ==> s.Top() == s.stack[d];
    VisitedAt(s, e, d, cbk);
  }

  lemma VisitedAt(s: State, e: Event, d: nat, cbk: nat)
    requires Compact(s.slots) && cbk != 0
    ensures Visits(s, e, d, cbk) <==>
      && e.Scan? && |s.stack| == d + 1 && s.Top().Scanning? && s.Top().i < |s.slots|
      && Find(s.slots, cbk) == s.Top().i
  {
    if Visits(s, e, d, cbk) {
      FindIs(s.slots, cbk, s.Top().i);
    }
  }

  /**
   * Until it ends, a scan visits a registered timer it has not come to yet exactly when no callback
   * skips it, whatever else the callbacks do to other timers.
   */
  lemma {:induction false} VisitedUnlessSkipped(s: State, es: seq<Event>, d: nat, cbk: nat)
    requires Sound(s) && d < |s.stack| && cbk != 0 && Registered(s, cbk)
    requires Untouched(es, cbk) && ScanLasts(s, es, d)
    ensures if Ahead(s, d, cbk) then VisitedIn(s, es, d, cbk) <==> !SkippedIn(s, es, d, cbk)
            else !VisitedIn(s, es, d, cbk) && !SkippedIn(s, es, d, cbk)
    decreases |es|
  {
    var e := es[0];
    assert e in es;
    StepKeepsAhead(s, e, d, cbk);
    StepKeepsSound(s, e);
    assert !(Visits(s, e, d, cbk) && Skips(s, e, d, cbk));
    hide Step, Sound, Ahead, Visits, Skips, Registered;
    if d < |Step(s, e).stack| {
      assert Untouched(es[1..], cbk);
      VisitedUnlessSkipped(Step(s, e), es[1..], d, cbk);
    }
  }

  /** While no callback of the timer is being executed and it does not fire, its slot keeps its contents. */
  lemma SlotKept(s: State, e: Event, cbk: nat)
    requires Sound(s) && cbk != 0 && Registered(s, cbk) && !Running(s, cbk) && !Fires(s, e, cbk)
    requires !((e.Add? || e.Remove?) && e.cbk == cbk)
    ensures var i, j := Find(s.slots, cbk), Find(Step(s, e).slots, cbk);
      i < |s.slots| && j < |Step(s, e).slots| && Step(s, e).slots[j] == s.slots[i]
    ensures !Running(Step(s, e), cbk)
  {
    SoundIsCompact(s);
    IsRegistered(s.slots, cbk);
    StepMoves(s, e, cbk);
    CallsAfter(s, e, cbk);
    hide Find, Compact;
    if e.Remove? {
      if CallerRuns(s) && Find(s.slots, e.cbk) < |s.slots| {
        RemovedAt(s.slots, e.cbk);
        hide RemoveFrom;
      }
    } else {
      OthersKeep(s, e, cbk, Find(s.slots, cbk));
      hide Step;
    }
  }

  lemma OthersKeep(s: State, e: Event, cbk: nat, i: nat)
    requires Sound(s) && cbk != 0 && i < |s.slots| && s.slots[i].cbk == cbk && !Running(s, cbk) && !Fires(s, e, cbk)
    requires !e.Remove? && !(e.Add? && e.cbk == cbk)
    ensures |Step(s, e).slots| == |s.slots| && Step(s, e).slots[i] == s.slots[i]
  {
    hide Find, Compact;
    if e.Return? && s.stack != [] {
      assert s.Top() == s.stack[|s.stack| - 1];
      assert !Calls(s.Top(), cbk);
    }
  }

  lemma {:induction false} TimeGrows(s: State, es: seq<Event>)
    ensures Run(s, es).now >= s.now
    decreases |es|
  {
    if es != [] {
      TimeGrows(Step(s, es[0]), es[1..]);
    }
  }

  lemma ElapsedGrows(now: nat, ticks: nat, start: Ticks)
    requires Elapsed(now % TWO32, start) + ticks < TWO32
    ensures Elapsed((now + ticks) % TWO32, start) == Elapsed(now % TWO32, start) + ticks
  {
    var e := Elapsed(now % TWO32, start);
    var p, q := now / TWO32, (now % TWO32 - start) / TWO32;
    assert now - start == e + TWO32 * (p + q);
    var r := (now + ticks) / TWO32;
    assert (now + ticks) % TWO32 - start == e + ticks + TWO32 * (p + q - r);
    SameResidue((now + ticks) % TWO32 - start, e + ticks, p + q - r);
  }

  lemma SameResidue(x: int, r: nat, q: int)
    requires x == r + TWO32 * q && r < TWO32
    ensures x % TWO32 == r
  {
  }

  /** The timer's slot says that it is due, and that stays so for `ticks` more ticks. */
  predicate DueFor(s: State, cbk: nat, ticks: nat) {
    && Find(s.slots, cbk) < |s.slots| && !Running(s, cbk)
    && var slot := s.slots[Find(s.slots, cbk)];
       Due(slot, s.Counter()) && (slot.interval == 0 || Elapsed(s.Counter(), slot.start) + ticks < TWO32)
  }

  lemma StaysDue(s: State, e: Event, cbk: nat, ticks: nat)
    requires Sound(s) && cbk != 0 && Registered(s, cbk) && !Fires(s, e, cbk)
    requires !((e.Add? || e.Remove?) && e.cbk == cbk)
    requires DueFor(s, cbk, Step(s, e).now - s.now + ticks)
    ensures DueFor(Step(s, e), cbk, ticks)
  {
    SlotKept(s, e, cbk);
    var slot := s.slots[Find(s.slots, cbk)];
    if slot.interval != 0 {
      var passed := if e.Pass? then e.ticks else 0;
      assert Step(s, e).now == s.now + passed;
      ElapsedGrows(s.now, passed, slot.start);
    }
    hide Find, Sound, Registered, Running, Fires;
  }

  /**
   * Every timer that is due when the scan has not come to it yet fires before the scan ends, by this
   * scan or a nested one, unless a callback skips it or adds or removes it; the scan may take any
   * time short of a wrap of the time since the timer's last start.
   */
  lemma {:induction false} DueTimersFire(s: State, es: seq<Event>, d: nat, cbk: nat)
    requires Sound(s) && cbk != 0 && Ahead(s, d, cbk)
    requires Untouched(es, cbk) && ScanLasts(s, es, d) && !SkippedIn(s, es, d, cbk)
    requires Run(s, es).now >= s.now && DueFor(s, cbk, Run(s, es).now - s.now)
    ensures FiredIn(s, es, cbk)
    decreases |es|
  {
    var e := es[0];
    assert e in es;
    if !Fires(s, e, cbk) {
      StepKeepsAhead(s, e, d, cbk);
      StepKeepsSound(s, e);
      VisitingFires(s, e, d, cbk, Run(s, es).now - s.now);
      TimeGrows(s, [e]);
      RunOfOne(s, e);
      TimeGrows(Step(s, e), es[1..]);
      hide Step, Sound, Visits, Skips, DueFor, Fires;
      StaysDue(s, e, cbk, Run(s, es).now - Step(s, e).now);
      assert Untouched(es[1..], cbk);
      DueTimersFire(Step(s, e), es[1..], d, cbk);
    }
  }

  lemma VisitingFires(s: State, e: Event, d: nat, cbk: nat, ticks: nat)
    requires Sound(s) && cbk != 0 && DueFor(s, cbk, ticks)
    ensures Visits(s, e, d, cbk) ==> Fires(s, e, cbk)
  {
    SoundIsCompact(s);
    if Visits(s, e, d, cbk) {
      FindIs(s.slots, cbk, s.Top().i);
    }
  }

  /** Two due timers, the first of which removes itself in its callback: the scan ends without the second. */
  lemma SelfRemovalSkipsTheNext(a: nat, b: nat, i: Ticks, j: Ticks, now: Ticks)
    requires a != 0 && b != 0 && a != b && 0 < i <= now && 0 < j <= now
    ensures var s0 := State([Slot(a, i, 0, 0, false), Slot(b, j, 0, 0, false), EMPTY], now, 0, [], map[]);
      var es := [Enter, Scan, Remove(a), Return, Scan];
      var s := Run(s0, es);
      && Fresh(s0) && !FiredIn(s0, es, b)
      && s.stack == [] && s.previous == s.Counter()
      && |s.slots| == 3 && s.slots[0].cbk == b && Due(s.slots[0], s.Counter())
  {
    var first, second := Slot(a, i, 0, 0, false), Slot(b, j, 0, 0, false);
    var s0 := State([first, second, EMPTY], now, 0, [], map[]);
    var es := [Enter, Scan, Remove(a), Return, Scan];
    var s1 := s0.(stack := [Scanning(0)]);
    var s2 := s0.(slots := [first.(inProgress := true), second, EMPTY], stack := [Calling(0, a, now)], fired := map[a := now]);
    var s3 := s2.(slots := [second, EMPTY, EMPTY], fired := map[]);
    var s4 := s3.(stack := [Scanning(1)]);
    var s5 := s4.(stack := [], previous := now);
    assert Elapsed(now, 0) == now;
    assert Step(s0, Enter) == s1 && Step(s1, Scan) == s2;
    SelfRemoval(s2, s3, first.(inProgress := true), second);
    assert Step(s3, Return) == s4 && Step(s4, Scan) == s5;
    assert !Fires(s1, Scan, b) && !Fires(s4, Scan, b);
    hide Step;
    FiredChain(s0, s1, es, b); FiredChain(s1, s2, es[1..], b); FiredChain(s2, s3, es[2..], b);
    FiredChain(s3, s4, es[3..], b); FiredChain(s4, s5, es[4..], b);
  }

  lemma SelfRemoval(s: State, t: State, first: Slot, second: Slot)
    requires first.cbk != 0 && s.slots == [first, second, EMPTY] && s.stack != [] && s.Top().Calling?
    requires s.fired == map[first.cbk := s.now] && t == s.(slots := [second, EMPTY, EMPTY], fired := map[])
    ensures Step(s, Remove(first.cbk)) == t
  {
    FindIs(s.slots, first.cbk, 0);
    assert s.fired - {first.cbk} == map[];
    assert RemoveFrom(s.slots, first.cbk) == [second, EMPTY, EMPTY];
  }

  lemma FiredChain(s: State, t: State, es: seq<Event>, cbk: nat)
    requires es != [] && Step(s, es[0]) == t
    ensures FiredIn(s, es, cbk) <==> Fires(s, es[0], cbk) || FiredIn(t, es[1..], cbk)
    ensures Run(s, es) == Run(t, es[1..])
  {
  }

  // ---------- How often a scan starts ----------

  /** Ticks that pass in these events. */
  function TicksIn(es: seq<Event>): nat
    decreases |es|
  {
    if es == [] then 0 else (if es[0].Pass? then es[0].ticks else 0) + TicksIn(es[1..])
  }

  /** After a scan has ended outside any callback, no other starts until the counter has moved on. */
  lemma {:induction false} OneScanPerTick(s: State, es: seq<Event>)
    requires s.stack == [] && s.previous == s.Counter() && TicksIn(es) == 0
    ensures Run(s, es).stack == [] && Run(s, es).now == s.now && Run(s, es).previous == s.previous
    decreases |es|
  {
    if es != [] {
      OneScanPerTick(Step(s, es[0]), es[1..]);
    }
  }

  /** It does once it has, and a scan that ends says when. */
  lemma ScansStartAgain(s: State)
    ensures s.stack == [] && s.previous != s.Counter() ==> Step(s, Enter).stack == [Scanning(0)]
    ensures s.stack != [] && BreaksOff(s) ==> Step(s, Scan).previous == s.Counter()
  {
  }
}
