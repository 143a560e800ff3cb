/**
 * What every call and every run keeps of one connection: the coupling of `len`, `mss` and `nrtx`
 * with the state, and the state diagram.
 */
module TcpConnection {
  import opened Octets
  import opened TcpSpec

  // ---------- Coupling and the state diagram ----------

  predicate Coupled(cfg: Config, c: Conn) {
    && (c.stopped ==> c.state.Established?)
    && (c.state.SynRcvd? || c.state.SynSent? || c.state.FinWait1? || c.state.Closing? || c.state.LastAck?
        ==> c.len == 1)
    && (c.state.FinWait2? || c.state.TimeWait? ==> c.len == 0)
    && (c.state.Established? ==> c.len <= c.initialMss)
    && c.mss <= c.initialMss <= cfg.tcpMss
    && c.nrtx <= cfg.maxRtx
    && (c.state.SynRcvd? || c.state.SynSent? ==> c.nrtx <= cfg.maxSynRtx)
  }

  /** The arrows of the diagram in section 3.2 of RFC 793, CLOSE_WAIT folded into ESTABLISHED, plus resets. */
  predicate Arrow(s: TcpState, t: TcpState) {
    match s
    case SynRcvd => t in {Established, FinWait1, Closed}
    case SynSent => t in {Established, Closed}
    case Established => t in {FinWait1, LastAck, Closed}
    case FinWait1 => t in {FinWait2, Closing, TimeWait, Closed}
    case FinWait2 => t in {TimeWait, Closed}
    case Closing => t in {TimeWait, Closed}
    case TimeWait => t == Closed
    case LastAck => t == Closed
    case Closed => false
  }

  /** A call that reports UIP_CONNECTED may take the arrow out of ESTABLISHED as well. */
  predicate FollowsDiagram(s: TcpState, o: Outcome) {
    if exists k :: k in o.calls && Connected in k.flags then
      && Arrow(s, Established)
      && o.conn.state in {Established, FinWait1, Closed}
    else
      s == o.conn.state || Arrow(s, o.conn.state)
  }

  /** No callback raises a flag other than the three the application can raise. */
  lemma {:induction false} CallsRaiseOnly(v: AppVars, calls: seq<AppCall>)
    ensures ApplyCalls(v, calls).flags <= v.flags + {NewData, Close, Abort}
    decreases |calls|
  {
    if calls != [] {
      CallsRaiseOnly(ApplyCall(v, calls[0]), calls[1..]);
    }
  }

  /** Without `uip_stop` a running connection keeps running. */
  lemma {:induction false} CallsKeepRunning(v: AppVars, calls: seq<AppCall>)
    requires Stop !in calls && !v.stopped
    ensures !ApplyCalls(v, calls).stopped
    decreases |calls|
  {
    if calls != [] {
      CallsKeepRunning(ApplyCall(v, calls[0]), calls[1..]);
    }
  }

  lemma CallbackFacts(c: Conn, flags: set<UipFlag>, slen: U16, app: App)
    requires app.Disciplined()
    requires c.stopped ==> c.state.Established?
    ensures AppCallback(c, flags, slen, app).flags <= flags + {NewData, Close, Abort}
    ensures AppCallback(c, flags, slen, app).stopped ==> c.state.Established?
  {
    var v := AppVars(flags, slen, c.stopped);
    CallsRaiseOnly(v, if c.state.Established? then app.established else app.elsewhere);
    if !c.state.Established? {
      CallsKeepRunning(v, app.elsewhere);
    }
  }

  lemma CallAndSendCoupled(cfg: Config, c: Conn, flags: set<UipFlag>, newBytes: seq<Byte>, slen: U16, app: App)
    requires Coupled(cfg, c) && c.state.Established? && app.Disciplined()
    ensures var o := CallAndSend(c, flags, newBytes, slen, app);
      && Coupled(cfg, o.conn)
      && o.calls == [Callback(flags, newBytes)]
      && o.conn.state in {Established, FinWait1, Closed}
  {
    CallbackFacts(c, flags, slen, app);
  }

  lemma TimerCoupled(cfg: Config, c: Conn, app: App)
    requires cfg.Valid() && Coupled(cfg, c) && app.Disciplined()
    ensures var o := TimerStep(cfg, c, app);
      Coupled(cfg, o.conn) && FollowsDiagram(c.state, o)
  {
    hide CallAndSend;
    CallbackFacts(c.Enter(Closed).(timer := 0xff), {TimedOut}, 0, app);
    var r := c.(timer := cfg.Backoff(c.nrtx), nrtx := Add8(c.nrtx, 1));
    CallbackFacts(r, {Rexmit}, 0, app);
    if c.state.Established? {
      CallAndSendCoupled(cfg, c, {Poll}, [], 0, app);
    }
  }

  lemma AckCoupled(cfg: Config, c: Conn, seg: Segment, newRto: Byte)
    requires cfg.Valid() && Coupled(cfg, c)
    ensures Coupled(cfg, AfterAck(c, seg, newRto).(len := c.len))
  {
  }

  lemma ReceiveEstablishedCoupled(cfg: Config, c: Conn, seg: Segment, slen: U16, acked: bool, app: App)
    requires Coupled(cfg, c) && c.state.Established? && app.Disciplined()
    ensures var o := ReceiveEstablished(c, seg, slen, acked, app);
      Coupled(cfg, o.conn) && FollowsDiagram(c.state, o)
  {
    hide CallAndSend;
    var accept := |seg.payload| > 0 && !c.stopped;
    var data: seq<Byte> := if accept then seg.payload else [];
    var flags := FlagIf(acked, AckData) + FlagIf(accept, NewData);
    var c1 := if accept then AcceptPayload(c, seg) else c;
    var c2 := c1.(mss := if seg.wnd > c1.initialMss || seg.wnd == 0 then c1.initialMss else seg.wnd);
    CallAndSendCoupled(cfg, c2, flags, data, 0, app);
    assert Connected !in flags;
  }

  lemma ReceiveSynCoupled(cfg: Config, c: Conn, seg: Segment, slen: U16, acked: bool, app: App)
    requires cfg.Valid() && Coupled(cfg, c.(len := 1)) && app.Disciplined()
    requires c.state.SynRcvd? || c.state.SynSent?
    requires c.len == if acked then 0 else 1
    ensures var o := if c.state.SynRcvd? then ReceiveSynRcvd(c, seg, slen, acked, app)
                     else ReceiveSynSent(cfg, c, seg, slen, acked, app);
      Coupled(cfg, o.conn) && FollowsDiagram(c.state, o)
  {
    if c.state.SynRcvd? {
      if acked {
        var flags := {Connected} + FlagIf(|seg.payload| > 0, NewData);
        CallAndSendCoupled(cfg, AcceptPayload(c.Enter(Established).(len := 0), seg), flags, seg.payload, 0, app);
      }
    } else {
      CallbackFacts(c, {Abort}, slen, app);
      var c2 := MssFrom(cfg, c, seg.mss).Enter(Established).(rcvNxt := Add(seg.seqno, 1), len := 0);
      CallAndSendCoupled(cfg, c2, {Connected, NewData}, [], 0, app);
    }
  }

  lemma ReceiveFinWaitCoupled(cfg: Config, c: Conn, seg: Segment, slen: U16, acked: bool, app: App)
    requires Coupled(cfg, c.(len := if c.state.FinWait1? then 1 else 0)) && app.Disciplined()
    requires c.state.FinWait1? || c.state.FinWait2?
    requires c.len == if c.state.FinWait1? && !acked then 1 else 0
    ensures var o := if c.state.FinWait1? then ReceiveFinWait1(c, seg, slen, acked, app)
                     else ReceiveFinWait2(c, seg, slen, app);
      Coupled(cfg, o.conn) && FollowsDiagram(c.state, o)
  {
    var c1 := AcceptPayload(c, seg);
    var c2 := if acked then c1.Enter(TimeWait).(timer := 0, len := 0) else c1.Enter(Closing);
    CallbackFacts(c2.(rcvNxt := Add(c2.rcvNxt, 1)), {Close}, slen, app);
    CallbackFacts(c1.Enter(TimeWait).(timer := 0, rcvNxt := Add(c1.rcvNxt, 1)), {Close}, slen, app);
  }

  lemma ReceiveCoupled(cfg: Config, c: Conn, seg: Segment, slen: U16, newRto: Byte, app: App)
    requires cfg.Valid() && Coupled(cfg, c) && !c.state.Closed? && app.Disciplined()
    ensures var o := Receive(cfg, c, seg, slen, newRto, app);
      Coupled(cfg, o.conn) && FollowsDiagram(c.state, o)
  {
    CallbackFacts(c.Enter(Closed), {Abort}, slen, app);
    if !seg.bits.rst && !OutOfOrder(c, seg) {
      var acked := Acknowledges(c, seg);
      var c1 := AfterAck(c, seg, newRto);
      AckCoupled(cfg, c, seg, newRto);
      match c.state
      case SynRcvd => ReceiveSynCoupled(cfg, c1, seg, slen, acked, app);
      case SynSent => ReceiveSynCoupled(cfg, c1, seg, slen, acked, app);
      case Established => ReceiveEstablishedCoupled(cfg, c1, seg, slen, acked, app);
      case FinWait1 => ReceiveFinWaitCoupled(cfg, c1, seg, slen, acked, app);
      case FinWait2 => ReceiveFinWaitCoupled(cfg, c1, seg, slen, acked, app);
      case LastAck => CallbackFacts(c1.Enter(Closed), {Close}, slen, app);
      case TimeWait =>
      case Closing =>
    }
  }

  /** Every call keeps the coupling and follows the diagram. */
  lemma StepCoupled(cfg: Config, c: Conn, i: Input)
    requires cfg.Valid() && Coupled(cfg, c) && i.app.Disciplined()
    ensures var o := ConnStep(cfg, c, i);
      Coupled(cfg, o.conn) && FollowsDiagram(c.state, o)
  {
    match i
    case Tick(app) => TimerCoupled(cfg, c, app);
    case PollRequest(slen, app) =>
      if c.state.Established? {
        CallAndSendCoupled(cfg, c, {Poll}, [], slen, app);
      }
    case Data(seg, slen, newRto, app) =>
      if !c.Is(Closed) {
        ReceiveCoupled(cfg, c, seg, slen, newRto, app);
      }
  }

  /** A freshly opened slot satisfies the coupling, whatever an earlier connection left in it. */
  lemma OpenCoupled(cfg: Config, slot: Conn, seg: Segment, iss: U32, lport: U16, rip: U32, rport: U16)
    requires cfg.Valid() && Coupled(cfg, slot)
    ensures Coupled(cfg, PassiveOpen(cfg, slot, seg, iss))
    ensures Coupled(cfg, ActiveOpen(cfg, slot, lport, rip, rport, iss))
  {
  }

  lemma {:induction false} RunCoupled(cfg: Config, c: Conn, run: seq<Input>)
    requires cfg.Valid() && Coupled(cfg, c) && Disciplined(run)
    ensures Coupled(cfg, ConnRun(cfg, c, run))
    decreases |run|
  {
    if run != [] {
      StepCoupled(cfg, c, run[0]);
      RunCoupled(cfg, ConnStep(cfg, c, run[0]).conn, run[1..]);
    }
  }
}
