/** The closing handshake, the end of TIME_WAIT, and what an acknowledgement does to the retransmission timer. */
module TcpStates {
  import opened Octets
  import opened TcpSpec
  import opened TcpConnection
  import opened TcpTransfer
  import opened TcpTimeout
  import opened TcpAcks

  /** The closing half of the diagram of section 3.2 of RFC 793: what leads where. */
  function ClosingTo(s: TcpState, finAcked: bool, finTaken: bool): TcpState {
    match s
    case FinWait1 =>
      if finAcked && finTaken then TimeWait else if finAcked then FinWait2 else if finTaken then Closing else FinWait1
    case FinWait2 => if finTaken then TimeWait else FinWait2
    case Closing => if finAcked then TimeWait else Closing
    case LastAck => if finAcked then Closed else LastAck
    case _ => s
  }

  /**
   * Past ESTABLISHED a segment leads on exactly by acknowledging the own FIN, by bringing the peer's, or
   * both; only an RST ends it otherwise. In ESTABLISHED the peer's FIN leads to LAST_ACK.
   */
  lemma ClosingHandshake(cfg: Config, c: Conn, seg: Segment, slen: U16, newRto: Byte, app: App)
    requires cfg.Valid() && Coupled(cfg, c) && c.state in {Established, FinWait1, FinWait2, Closing, LastAck, TimeWait}
    ensures var i := Data(seg, slen, newRto, app);
      var c' := Receive(cfg, c, seg, slen, newRto, app).conn;
      && (seg.bits.rst ==> c'.state.Closed?)
      && (!seg.bits.rst && !c.state.Established? ==> c'.state == ClosingTo(c.state, Accepts(c, i), TakesFin(c, seg)))
      && (!seg.bits.rst && c.state.Established? ==> (c'.state.LastAck? <==> TakesFin(c, seg)))
  {
    if c.state.Established? {
      hide CallAndSend;
      var c1 := AfterAck(c, seg, newRto);
      var accept := |seg.payload| > 0 && !c1.stopped;
      var c2 := if accept then AcceptPayload(c1, seg) else c1;
      CallAndSendEffect(c2.(mss := if seg.wnd > c2.initialMss || seg.wnd == 0 then c2.initialMss else seg.wnd),
                        FlagIf(Acknowledges(c, seg), AckData) + FlagIf(accept, NewData),
                        if accept then seg.payload else [], 0, app);
    }
  }

  /**
   * The peer's FIN on a running ESTABLISHED connection: while data is outstanding that the segment does
   * not acknowledge, it is as if it had not arrived; otherwise it is answered with the own FIN.
   */
  lemma FinIsReturned(cfg: Config, c: Conn, seg: Segment, slen: U16, newRto: Byte, app: App)
    requires cfg.Valid() && c.state.Established? && !c.stopped && seg.bits.fin && !seg.bits.rst && seg.seqno == c.rcvNxt
    ensures var o := Receive(cfg, c, seg, slen, newRto, app);
      if c.len > 0 && !Acknowledges(c, seg) then o == Outcome(c, slen, [], Drop)
      else
        && o.conn.Is(LastAck) && o.conn.len == 1 && o.emit.Send? && o.emit.bits == FINACK && o.emit.len == 0
        && o.emit.seqno == o.conn.sndNxt && o.emit.ackno == Add(seg.seqno, 1 + |seg.payload|)
  {
    hide ApplyCalls;
  }

  /** A connection waits in TIME_WAIT for exactly the configured number of timer calls. */
  lemma TimeWaitLasts(cfg: Config, c: Conn, i: Input, apps: seq<App>)
    requires cfg.Valid() && Coupled(cfg, c) && i.app.Disciplined() && !c.state.TimeWait? && cfg.timeWaitTimeout > 0
    requires ConnStep(cfg, c, i).conn.state.TimeWait? && forall a :: a in apps ==> a.Disciplined()
    ensures TickRun(cfg, ConnStep(cfg, c, i).conn, apps).state.Closed? <==> |apps| >= cfg.timeWaitTimeout
  {
    hide ConnStep, TickRun;
    StepCoupled(cfg, c, i);
    TimeWaitStarts(cfg, c, i);
    FromItsStart(cfg, ConnStep(cfg, c, i).conn, apps);
  }

  lemma FromItsStart(cfg: Config, c: Conn, apps: seq<App>)
    requires cfg.Valid() && Coupled(cfg, c) && c.state.TimeWait? && c.timer == 0 && cfg.timeWaitTimeout > 0
    requires forall a :: a in apps ==> a.Disciplined()
    ensures TickRun(cfg, c, apps).state.Closed? <==> |apps| >= cfg.timeWaitTimeout
  {
    hide TickRun;
    SilentPeerTermination(cfg, c, apps);
  }

  lemma TimeWaitStarts(cfg: Config, c: Conn, i: Input)
    requires cfg.Valid() && Coupled(cfg, c) && !c.state.TimeWait? && ConnStep(cfg, c, i).conn.state.TimeWait?
    ensures ConnStep(cfg, c, i).conn.timer == 0
  {
    hide CallAndSend;
    match i
    case Tick(app) => if c.state.Established? { CallAndSendEffect(c, {Poll}, [], 0, app); }
    case PollRequest(slen, app) => if c.state.Established? { CallAndSendEffect(c, {Poll}, [], slen, app); }
    case Data(seg, slen, newRto, app) =>
      if !c.state.Closed? {
        ReceiveTells(cfg, c, seg, slen, newRto, app);
      }
  }

  // ---------- The retransmission timer ----------

  /**
   * An accepted acknowledgement restarts the timer with the estimator's result, which is not taken from
   * a segment that was sent more than once (Karn's rule).
   */
  ghost predicate TimerRestarted(c: Conn, newRto: Byte, c': Conn) {
    && c'.rto == (if c.nrtx == 0 then newRto else c.rto)
    && c'.timer == (if c'.state.TimeWait? then 0 else c'.rto)
  }

  lemma CallAndSendKeepsTimer(c: Conn, flags: set<UipFlag>, newBytes: seq<Byte>, slen: U16, app: App)
    requires c.state.Established?
    ensures var c' := CallAndSend(c, flags, newBytes, slen, app).conn;
      c'.rto == c.rto && c'.timer == c.timer && !c'.state.TimeWait?
    ensures var c' := CallAndSend(c, flags, newBytes, slen, app).conn;
      !c'.state.Closed? ==> c'.nrtx == 0
  {
  }

  lemma AckRestartsTimer(cfg: Config, c: Conn, seg: Segment, slen: U16, newRto: Byte, app: App)
    requires cfg.Valid() && Coupled(cfg, c) && Accepts(c, Data(seg, slen, newRto, app))
    ensures TimerRestarted(c, newRto, Receive(cfg, c, seg, slen, newRto, app).conn)
  {
    hide CallAndSend;
    var c1 := AfterAck(c, seg, newRto);
    match c.state
    case SynRcvd =>
      CallAndSendKeepsTimer(AcceptPayload(c1.Enter(Established).(len := 0), seg),
                            {Connected} + FlagIf(|seg.payload| > 0, NewData), seg.payload, 0, app);
    case SynSent =>
      CallAndSendKeepsTimer(MssFrom(cfg, c1, seg.mss).Enter(Established).(rcvNxt := Add(seg.seqno, 1), len := 0),
                            {Connected, NewData}, [], 0, app);
    case Established =>
      var accept := |seg.payload| > 0 && !c1.stopped;
      var c2 := if accept then AcceptPayload(c1, seg) else c1;
      CallAndSendKeepsTimer(c2.(mss := if seg.wnd > c2.initialMss || seg.wnd == 0 then c2.initialMss else seg.wnd),
                            FlagIf(true, AckData) + FlagIf(accept, NewData), if accept then seg.payload else [], 0, app);
    case _ =>
  }

  /** Without one the timer is left to run, except on the way into TIME_WAIT. */
  lemma OthersKeepTimer(cfg: Config, c: Conn, i: Input)
    requires cfg.Valid() && Coupled(cfg, c) && !i.Tick? && !Accepts(c, i)
    ensures var c' := ConnStep(cfg, c, i).conn;
      c'.rto == c.rto && (c'.timer == c.timer || (c'.state.TimeWait? && !c.state.TimeWait? && c'.timer == 0))
  {
    hide CallAndSend;
    match i
    case PollRequest(slen, app) => if c.state.Established? { CallAndSendKeepsTimer(c, {Poll}, [], slen, app); }
    case Data(seg, slen, newRto, app) =>
      if c.state.Established? {
        var accept := |seg.payload| > 0 && !c.stopped;
        var c2 := if accept then AcceptPayload(c, seg) else c;
        CallAndSendKeepsTimer(c2.(mss := if seg.wnd > c2.initialMss || seg.wnd == 0 then c2.initialMss else seg.wnd),
                              FlagIf(false, AckData) + FlagIf(accept, NewData), if accept then seg.payload else [], 0, app);
      }
  }

  /** Whatever becomes outstanding anew has all its retransmissions before it. */
  lemma NewSegmentStartsAnew(cfg: Config, c: Conn, i: Input)
    requires cfg.Valid() && Coupled(cfg, c)
    ensures var c' := ConnStep(cfg, c, i).conn;
      c'.len > 0 && (c.len == 0 || Accepts(c, i) || c'.state != c.state) && c'.state in {Established, FinWait1, LastAck} ==>
        c'.nrtx == 0
  {
    hide CallAndSend;
    match i
    case Tick(app) => if c.state.Established? { CallAndSendKeepsTimer(c, {Poll}, [], 0, app); }
    case PollRequest(slen, app) => if c.state.Established? { CallAndSendKeepsTimer(c, {Poll}, [], slen, app); }
    case Data(seg, slen, newRto, app) =>
      var c1 := AfterAck(c, seg, newRto);
      if c.state.Established? {
        var accept := |seg.payload| > 0 && !c1.stopped;
        var c2 := if accept then AcceptPayload(c1, seg) else c1;
        CallAndSendKeepsTimer(c2.(mss := if seg.wnd > c2.initialMss || seg.wnd == 0 then c2.initialMss else seg.wnd),
                              FlagIf(Acknowledges(c, seg), AckData) + FlagIf(accept, NewData),
                              if accept then seg.payload else [], 0, app);
      } else if c.state.SynRcvd? {
        CallAndSendKeepsTimer(AcceptPayload(c1.Enter(Established).(len := 0), seg),
                              {Connected} + FlagIf(|seg.payload| > 0, NewData), seg.payload, 0, app);
      } else if c.state.SynSent? {
        CallAndSendKeepsTimer(MssFrom(cfg, c1, seg.mss).Enter(Established).(rcvNxt := Add(seg.seqno, 1), len := 0),
                              {Connected, NewData}, [], 0, app);
      }
  }
}
