/**
 * What `uip_stop` does outside ESTABLISHED. Its bit shares a byte with the state, and the timer and
 * the search for a slot compare that byte unmasked: CLOSED and TIME_WAIT with the bit are neither.
 */
module TcpStops {
  import opened Octets
  import opened TcpSpec
  import opened TcpConnection
  import opened TcpTimeout
  import opened TcpTable

  /** After these calls the connection is stopped: some `uip_stop` has no `uip_restart` after it. */
  ghost predicate EndsStopped(initially: bool, calls: seq<AppCall>) {
    (initially && Restart !in calls) || exists k :: IsLastWord(calls, k)
  }

  ghost predicate IsLastWord(calls: seq<AppCall>, k: nat) {
    k < |calls| && calls[k] == Stop && Restart !in calls[k..]
  }

  lemma {:induction false} StoppedAfterCalls(v: AppVars, calls: seq<AppCall>)
    ensures ApplyCalls(v, calls).stopped == EndsStopped(v.stopped, calls)
    decreases |calls|
  {
    if calls != [] {
      var rest := calls[1..];
      StoppedAfterCalls(ApplyCall(v, calls[0]), rest);
      forall k: nat | k < |rest| ensures IsLastWord(rest, k) <==> IsLastWord(calls, k + 1) {
        assert calls[k + 1..] == rest[k..];
      }
      if calls[0] == Stop && Restart !in rest {
        assert IsLastWord(calls, 0);
      }
      if k: nat :| IsLastWord(calls, k) && k > 0 {
        assert IsLastWord(rest, k - 1);
      }
    }
  }

  // ---------- Which callbacks leave the bit ----------

  /**
   * The input makes a callback outside ESTABLISHED after which the engine does not write the state
   * byte: at a time-out, at an RST, at the ACK of the last FIN, at the peer's FIN in FIN_WAIT.
   */
  predicate LeavesTheByte(cfg: Config, c: Conn, i: Input) {
    match i
    case Tick(_) =>
      !c.state.FinWait2? && !c.state.TimeWait? && !c.Is(Closed) && c.len > 0 && c.timer == 0 && GivesUp(cfg, c)
    case PollRequest(_, _) => false
    case Data(seg, _, _, _) =>
      && !c.Is(Closed)
      && (seg.bits.rst
          || (!OutOfOrder(c, seg) && if c.state.LastAck? then Acknowledges(c, seg)
                                     else (c.state.FinWait1? || c.state.FinWait2?) && seg.bits.fin))
  }

  lemma SendingEffect(c: Conn, flags: set<UipFlag>, newBytes: seq<Byte>, slen: U16, app: App)
    requires c.state.Established?
    ensures var c' := CallAndSend(c, flags, newBytes, slen, app).conn; c'.stopped ==> c'.state.Established?
  {
  }

  lemma ReceivingEffect(cfg: Config, c: Conn, seg: Segment, slen: U16, newRto: Byte, app: App)
    requires cfg.Valid() && (c.stopped ==> c.state.Established?) && !c.state.Closed?
    requires forall flags, n ::
      ApplyCalls(AppVars(flags, n, false), app.elsewhere).stopped == EndsStopped(false, app.elsewhere)
    ensures var c' := Receive(cfg, c, seg, slen, newRto, app).conn;
      && (c'.stopped && !c'.state.Established? <==>
            LeavesTheByte(cfg, c, Data(seg, slen, newRto, app)) && EndsStopped(false, app.elsewhere))
      && (LeavesTheByte(cfg, c, Data(seg, slen, newRto, app)) ==> c'.state in {Closed, Closing, TimeWait})
  {
    hide CallAndSend, EndsStopped;
    var c1 := AfterAck(c, seg, newRto);
    var acked := Acknowledges(c, seg);
    match c.state
    case SynRcvd =>
      SendingEffect(AcceptPayload(c1.Enter(Established).(len := 0), seg),
                    {Connected} + FlagIf(|seg.payload| > 0, NewData), seg.payload, 0, app);
    case SynSent =>
      SendingEffect(MssFrom(cfg, c1, seg.mss).Enter(Established).(rcvNxt := Add(seg.seqno, 1), len := 0),
                    {Connected, NewData}, [], 0, app);
    case Established =>
      var accept := |seg.payload| > 0 && !c1.stopped;
      var c2 := if accept then AcceptPayload(c1, seg) else c1;
      SendingEffect(c2.(mss := if seg.wnd > c2.initialMss || seg.wnd == 0 then c2.initialMss else seg.wnd),
                    FlagIf(acked, AckData) + FlagIf(accept, NewData), if accept then seg.payload else [], 0, app);
    case _ =>
  }

  /**
   * Exactly these, with an application that ends stopped, leave a connection stopped outside
   * ESTABLISHED. The abort callback of SYN_SENT, for one, does not.
   */
  lemma StoppedExactlyBy(cfg: Config, c: Conn, i: Input)
    requires cfg.Valid() && (c.stopped ==> c.state.Established?)
    ensures var c' := ConnStep(cfg, c, i).conn;
      && (c'.stopped && !c'.state.Established? <==> LeavesTheByte(cfg, c, i) && EndsStopped(false, i.app.elsewhere))
      && (LeavesTheByte(cfg, c, i) ==> c'.state in {Closed, Closing, TimeWait})
  {
    hide CallAndSend, EndsStopped, Receive;
    forall flags, n
      ensures ApplyCalls(AppVars(flags, n, false), i.app.elsewhere).stopped == EndsStopped(false, i.app.elsewhere)
    {
      StoppedAfterCalls(AppVars(flags, n, false), i.app.elsewhere);
    }
    match i
    case Tick(app) => if c.state.Established? { SendingEffect(c, {Poll}, [], 0, app); }
    case PollRequest(slen, app) => if c.state.Established? { SendingEffect(c, {Poll}, [], slen, app); }
    case Data(seg, slen, newRto, app) =>
      if !c.Is(Closed) {
        ReceivingEffect(cfg, c, seg, slen, newRto, app);
      }
  }

  // ---------- What the timer makes of it ----------

  /** Nothing compares equal to these states with the bit, and with nothing outstanding the timer does nothing. */
  lemma {:induction false} StoppedIsStuck(cfg: Config, c: Conn, apps: seq<App>)
    requires cfg.Valid() && c.stopped && c.len == 0 && !c.state.Established?
    ensures TickRun(cfg, c, apps) == c
    decreases |apps|
  {
    if apps != [] {
      StoppedIsStuck(cfg, c, apps[1..]);
    }
  }

  /** At the end of FIN_WAIT_2 and TIME_WAIT a running connection's slot comes free, a stopped one's never. */
  lemma {:induction false} FreedUnlessStopped(cfg: Config, c: Conn, apps: seq<App>)
    requires cfg.Valid() && c.state in {FinWait2, TimeWait} && c.len == 0
    ensures TickRun(cfg, c, apps).Is(Closed) <==> !c.stopped && |apps| >= TicksLeft(cfg, c)
    decreases |apps|
  {
    if c.stopped {
      StoppedIsStuck(cfg, c, apps);
    } else if apps != [] {
      var c' := TimerStep(cfg, c, apps[0]).conn;
      if c'.state.Closed? {
        ClosedStaysClosed(cfg, c', apps[1..]);
      } else {
        FreedUnlessStopped(cfg, c', apps[1..]);
      }
    }
  }

  /** Something outstanding is retransmitted until the connection is given up, CLOSED with the bit included. */
  predicate Outstanding(cfg: Config, c: Conn) {
    && c.len > 0 && !c.state.FinWait2? && !c.state.TimeWait? && !c.Is(Closed)
    && c.nrtx <= Limit(cfg, c)
    && (c.stopped ==> !c.state.SynRcvd? && !c.state.SynSent?)
  }

  /** The timer call that gives up for the `k`-th time, if all calls before left the connection stopped. */
  function GiveUpTick(cfg: Config, c: Conn, k: nat): nat
    requires cfg.Valid()
  {
    TicksLeft(cfg, c) + if k == 0 then 0 else RetransmissionTicks(cfg, cfg.maxRtx, Limit(cfg, c)) + 0x100 * k
  }

  /** The `k`-th giving up happens in this run, and its time-out callback leaves the connection running. */
  ghost predicate LetGo(cfg: Config, c: Conn, apps: seq<App>, k: nat)
    requires cfg.Valid()
  {
    && 1 <= GiveUpTick(cfg, c, k) <= |apps|
    && !EndsStopped(false, apps[GiveUpTick(cfg, c, k) - 1].elsewhere)
  }

  lemma TimerOnOutstanding(cfg: Config, c: Conn, app: App)
    requires cfg.Valid() && Outstanding(cfg, c)
    ensures var c' := TimerStep(cfg, c, app).conn;
      if TicksLeft(cfg, c) == 1 then
        c' == c.(state := Closed, timer := 0xff, nrtx := Limit(cfg, c), stopped := EndsStopped(false, app.elsewhere))
      else
        && Outstanding(cfg, c') && Limit(cfg, c') == Limit(cfg, c) && TicksLeft(cfg, c) > 1
        && TicksLeft(cfg, c') == TicksLeft(cfg, c) - 1
  {
    hide EndsStopped;
    StoppedAfterCalls(AppVars({TimedOut}, 0, false), app.elsewhere);
  }

  lemma NextGiveUp(cfg: Config, c: Conn, app: App, k: nat)
    requires cfg.Valid() && Outstanding(cfg, c)
    ensures var c' := TimerStep(cfg, c, app).conn;
      if TicksLeft(cfg, c) == 1 then c'.Is(Closed) || GiveUpTick(cfg, c', k) == GiveUpTick(cfg, c, k + 1) - 1
      else GiveUpTick(cfg, c', k) == GiveUpTick(cfg, c, k) - 1
  {
    hide EndsStopped, TimerStep;
    TimerOnOutstanding(cfg, c, app);
    if TicksLeft(cfg, c) != 1 {
      hide RetransmissionTicks;
    }
  }

  /**
   * With a silent peer and any application: the slot is free when a time-out callback has left the
   * connection running. One that stops it makes the engine wait 256 calls and give up once more.
   */
  lemma {:induction false} FreedWhenLetGo(cfg: Config, c: Conn, apps: seq<App>)
    requires cfg.Valid() && Outstanding(cfg, c)
    ensures TickRun(cfg, c, apps).Is(Closed) <==> exists k :: LetGo(cfg, c, apps, k)
    decreases |apps|
  {
    hide EndsStopped, RetransmissionTicks, TimerStep;
    if apps != [] {
      var c', rest := TimerStep(cfg, c, apps[0]).conn, apps[1..];
      TimerOnOutstanding(cfg, c, apps[0]);
      if c'.Is(Closed) {
        ClosedStaysClosed(cfg, c', rest);
        assert LetGo(cfg, c, apps, 0);
      } else {
        FreedWhenLetGo(cfg, c', rest);
        var gaveUp := if TicksLeft(cfg, c) == 1 then 1 else 0;
        forall k: nat ensures LetGo(cfg, c', rest, k) <==> LetGo(cfg, c, apps, k + gaveUp) {
          NextGiveUp(cfg, c, apps[0], k);
        }
        if k: nat :| LetGo(cfg, c, apps, k) {
          assert k >= gaveUp && LetGo(cfg, c', rest, k - gaveUp);
        }
        if k: nat :| LetGo(cfg, c', rest, k) {
          assert LetGo(cfg, c, apps, k + gaveUp);
        }
      }
    }
  }

  /** Hence, of the connections a callback left stopped, the timer can free exactly those with something outstanding. */
  lemma TimerFreesOutstandingOnly(cfg: Config, c: Conn)
    requires cfg.Valid() && c.stopped && c.state in {Closed, Closing, TimeWait}
    requires c.nrtx <= cfg.maxRtx && (c.state.TimeWait? ==> c.len == 0)
    ensures (exists apps :: TickRun(cfg, c, apps).Is(Closed)) <==> c.len > 0
  {
    if c.len == 0 {
      forall apps ensures !TickRun(cfg, c, apps).Is(Closed) {
        StoppedIsStuck(cfg, c, apps);
      }
    } else {
      hide TickRun;
      var apps := seq(TicksLeft(cfg, c), _ => App([], []));
      FreedWhenLetGo(cfg, c, apps);
      assert LetGo(cfg, c, apps, 0);
    }
  }

  /**
   * The peer's FIN in FIN_WAIT_2, for any application: the timer frees the slot, at the end of
   * TIME_WAIT, exactly when the callback does not end stopped.
   */
  lemma StopElsewhereLeaksTheSlot(cfg: Config, c: Conn, seg: Segment, slen: U16, newRto: Byte, app: App, apps: seq<App>)
    requires cfg.Valid() && c.state.FinWait2? && c.len == 0
    requires seg.bits.fin && !seg.bits.rst && seg.seqno == c.rcvNxt
    ensures var c' := Receive(cfg, c, seg, slen, newRto, app).conn;
      && c'.state.TimeWait? && c'.stopped == EndsStopped(false, app.elsewhere)
      && (TickRun(cfg, c', apps).Is(Closed) <==> !EndsStopped(false, app.elsewhere) && |apps| >= TicksLeft(cfg, c'))
  {
    StoppedAfterCalls(AppVars({Close}, slen, false), app.elsewhere);
    hide TickRun, TicksLeft;
    FreedUnlessStopped(cfg, Receive(cfg, c, seg, slen, newRto, app).conn, apps);
  }

  /** In CLOSING the bit does no lasting harm: the ACK of the FIN clears it. */
  lemma ClosingRunsAgain(cfg: Config, c: Conn, seg: Segment, slen: U16, newRto: Byte, app: App, apps: seq<App>)
    requires cfg.Valid() && c.state.Closing? && !seg.bits.rst && !OutOfOrder(c, seg) && Acknowledges(c, seg)
    ensures var c' := Receive(cfg, c, seg, slen, newRto, app).conn;
      c'.Is(TimeWait) && (TickRun(cfg, c', apps).Is(Closed) <==> |apps| >= TicksLeft(cfg, c'))
  {
    hide TickRun, TicksLeft;
    FreedUnlessStopped(cfg, Receive(cfg, c, seg, slen, newRto, app).conn, apps);
  }

  // ---------- A leaked slot ----------

  predicate Leaked(c: Conn) {
    c.stopped && c.len == 0 && (c.state.Closed? || c.state.TimeWait?)
  }

  /** An RST whose callback leaves the connection running. */
  ghost predicate FreeingReset(i: Input) {
    i.Data? && i.seg.bits.rst && !EndsStopped(false, i.app.elsewhere)
  }

  lemma LeakedStep(cfg: Config, c: Conn, i: Input)
    requires cfg.Valid() && Leaked(c)
    ensures var c' := ConnStep(cfg, c, i).conn;
      if FreeingReset(i) then c'.Is(Closed) else Leaked(c')
  {
    hide EndsStopped;
    if i.Data? {
      StoppedAfterCalls(AppVars({Abort}, i.slen, false), i.app.elsewhere);
    }
  }

  lemma {:induction false} FreeStaysFree(cfg: Config, c: Conn, run: seq<Input>)
    requires cfg.Valid() && c.Is(Closed)
    ensures ConnRun(cfg, c, run) == c
    decreases |run|
  {
    if run != [] {
      FreeStaysFree(cfg, c, run[1..]);
    }
  }

  /** No timer call, poll or segment makes a leaked slot free for a new connection, save such an RST of its own peer. */
  lemma {:induction false} LeakedUntilReset(cfg: Config, c: Conn, run: seq<Input>)
    requires cfg.Valid() && Leaked(c)
    ensures Reusable(ConnRun(cfg, c, run)) <==> exists i :: i in run && FreeingReset(i)
    decreases |run|
  {
    hide ConnStep, FreeingReset;
    if run != [] {
      LeakedStep(cfg, c, run[0]);
      if FreeingReset(run[0]) {
        FreeStaysFree(cfg, ConnStep(cfg, c, run[0]).conn, run[1..]);
      } else {
        LeakedUntilReset(cfg, ConnStep(cfg, c, run[0]).conn, run[1..]);
      }
    }
  }

  /** On the table, whatever the application does: until then no SYN and no `uip_connect` gets the slot. */
  lemma {:induction false} LeakedSlotIsNeverOpened(cfg: Config, es: seq<Engine>, evs: seq<Event>, i: nat, k: nat)
    requires cfg.Valid() && |es| == |evs| + 1 && k < |es| && i < |es[0].conns| && Leaked(es[0].conns[i])
    requires forall j :: 0 <= j < |evs| ==> Next(cfg, es[j], evs[j], es[j + 1])
    requires forall j :: 0 <= j < k ==> !FreesSlot(es[j], evs[j], i)
    ensures i < |es[k].conns| && Leaked(es[k].conns[i])
    ensures k < |evs| ==> !Opens(es[k], evs[k], i)
    decreases k
  {
    hide Next, Opens, InputFor, ConnStep, FreeingReset;
    if k > 0 {
      LeakedSlotIsNeverOpened(cfg, es, evs, i, k - 1);
      EventBySlot(cfg, es[k - 1], evs[k - 1], es[k], i);
      assert !FreesSlot(es[k - 1], evs[k - 1], i);
      match InputFor(es[k - 1], evs[k - 1], i)
      case None =>
      case Some(input) => LeakedStep(cfg, es[k - 1].conns[i], input);
    }
    if k < |evs| {
      EventBySlot(cfg, es[k], evs[k], es[k + 1], i);
    }
  }

  ghost predicate FreesSlot(e: Engine, ev: Event, i: nat) {
    InputFor(e, ev, i).Some? && FreeingReset(InputFor(e, ev, i).value)
  }
}
