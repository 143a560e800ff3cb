/**
 * What the engine acknowledges: the bytes and the FIN it takes from the peer, over any run, in every
 * segment it sends.
 */
module TcpAcks {
  import opened Octets
  import opened TcpSpec
  import opened TcpConnection
  import opened TcpTransfer

  // ---------- One segment ----------

  /** The segment's bytes are taken from the peer, if it has any; past ESTABLISHED they are not handed up. */
  predicate Takes(c: Conn, seg: Segment) {
    && !seg.bits.rst && seg.seqno == c.rcvNxt
    && match c.state
       case SynRcvd => Acknowledges(c, seg)
       case Established => !c.stopped && (seg.bits.fin ==> c.len == 0 || Acknowledges(c, seg))
       case FinWait1 => true
       case FinWait2 => true
       case _ => false
  }

  /** Its FIN is taken. */
  predicate TakesFin(c: Conn, seg: Segment) {
    Takes(c, seg) && seg.bits.fin && !c.state.SynRcvd?
  }

  /** The sequence space an input takes from the peer. */
  function Taken(c: Conn, i: Input): nat {
    BytesTaken(c, i) + if i.Data? && TakesFin(c, i.seg) then 1 else 0
  }

  function BytesTaken(c: Conn, i: Input): nat {
    if i.Data? && Takes(c, i.seg) then |i.seg.payload| else 0
  }

  /** The SYN-ACK that answers the connection's own SYN. */
  predicate Answered(c: Conn, i: Input) {
    i.Data? && c.state.SynSent? && !i.seg.bits.rst && i.seg.bits == SYNACK && Acknowledges(c, i.seg)
  }

  lemma SendingKeepsRcvNxt(c: Conn, flags: set<UipFlag>, newBytes: seq<Byte>, slen: U16, app: App)
    ensures var o := CallAndSend(c, flags, newBytes, slen, app);
      o.conn.rcvNxt == c.rcvNxt && (o.emit.Send? ==> o.emit.ackno == c.rcvNxt)
  {
  }

  /** New data and new connections are always answered: the callback can only turn the ACK into more than that. */
  lemma NewDataIsAnswered(c: Conn, flags: set<UipFlag>, newBytes: seq<Byte>, slen: U16, app: App)
    requires NewData in flags
    ensures CallAndSend(c, flags, newBytes, slen, app).emit.Send?
  {
    assert NewData in flags * {NewData, Close, Abort};
    CallsKeepAnswer(AppVars(flags, slen, c.stopped), if c.state.Established? then app.established else app.elsewhere);
  }

  lemma {:induction false} CallsKeepAnswer(v: AppVars, calls: seq<AppCall>)
    requires v.flags * {NewData, Close, Abort} != {}
    ensures ApplyCalls(v, calls).flags * {NewData, Close, Abort} != {}
    decreases |calls|
  {
    if calls != [] {
      var w := ApplyCall(v, calls[0]);
      assert calls[0].CloseConn? ==> Close in w.flags * {NewData, Close, Abort};
      assert calls[0].AbortConn? ==> Abort in w.flags * {NewData, Close, Abort};
      assert calls[0].Restart? ==> NewData in w.flags * {NewData, Close, Abort};
      CallsKeepAnswer(w, calls[1..]);
    }
  }

  /** What one segment does to `rcv_nxt`, and what the answer acknowledges. */
  ghost predicate TakenOver(c: Conn, i: Input, o: Outcome) {
    if c.state.SynSent? then
      Answered(c, i) ==> o.conn.rcvNxt == Add(i.seg.seqno, 1) && o.emit.Send? && o.emit.ackno == o.conn.rcvNxt
    else
      && o.conn.rcvNxt == Add(c.rcvNxt, Taken(c, i))
      && (o.emit.Send? ==> o.emit.ackno == o.conn.rcvNxt)
  }

  lemma ReceiveSynTakes(cfg: Config, c: Conn, seg: Segment, slen: U16, newRto: Byte, app: App)
    requires cfg.Valid() && (c.state.SynRcvd? || c.state.SynSent?)
    ensures TakenOver(c, Data(seg, slen, newRto, app), Receive(cfg, c, seg, slen, newRto, app))
  {
    hide CallAndSend;
    AddZero(c.rcvNxt);
    var c1 := AfterAck(c, seg, newRto);
    if c.state.SynRcvd? {
      var flags := {Connected} + FlagIf(|seg.payload| > 0, NewData);
      SendingKeepsRcvNxt(AcceptPayload(c1.Enter(Established).(len := 0), seg), flags, seg.payload, 0, app);
    } else {
      var c2 := MssFrom(cfg, c1, seg.mss).Enter(Established).(rcvNxt := Add(seg.seqno, 1), len := 0);
      SendingKeepsRcvNxt(c2, {Connected, NewData}, [], 0, app);
      NewDataIsAnswered(c2, {Connected, NewData}, [], 0, app);
    }
  }

  lemma ReceiveEstablishedTakes(cfg: Config, c: Conn, seg: Segment, slen: U16, newRto: Byte, app: App)
    requires cfg.Valid() && c.state.Established?
    ensures TakenOver(c, Data(seg, slen, newRto, app), Receive(cfg, c, seg, slen, newRto, app))
  {
    hide CallAndSend;
    AddZero(c.rcvNxt);
    var c1 := AfterAck(c, seg, newRto);
    var accept := |seg.payload| > 0 && !c1.stopped;
    var c2 := if accept then AcceptPayload(c1, seg) else c1;
    SendingKeepsRcvNxt(c2.(mss := if seg.wnd > c2.initialMss || seg.wnd == 0 then c2.initialMss else seg.wnd),
                       FlagIf(Acknowledges(c, seg), AckData) + FlagIf(accept, NewData),
                       if accept then seg.payload else [], 0, app);
  }

  lemma ReceiveClosingTakes(cfg: Config, c: Conn, seg: Segment, slen: U16, newRto: Byte, app: App)
    requires cfg.Valid() && !c.state.SynRcvd? && !c.state.SynSent? && !c.state.Established?
    ensures TakenOver(c, Data(seg, slen, newRto, app), Receive(cfg, c, seg, slen, newRto, app))
  {
    AddZero(c.rcvNxt);
    AddAssociates(c.rcvNxt, |seg.payload|, 1);
  }

  /**
   * `rcv_nxt` moves by exactly what is taken from the peer, and every segment sent acknowledges it,
   * from the answer to the own SYN on.
   */
  lemma RcvNxtMoves(cfg: Config, c: Conn, i: Input)
    requires cfg.Valid() && Coupled(cfg, c)
    ensures TakenOver(c, i, ConnStep(cfg, c, i))
  {
    hide CallAndSend;
    AddZero(c.rcvNxt);
    match i
    case Tick(app) => SendingKeepsRcvNxt(c, {Poll}, [], 0, app);
    case PollRequest(slen, app) => SendingKeepsRcvNxt(c, {Poll}, [], slen, app);
    case Data(seg, slen, newRto, app) =>
      hide Receive, TakenOver;
      if c.Is(Closed) {
        ClosedTakesNothing(cfg, c, i);
      } else if c.state.SynRcvd? || c.state.SynSent? {
        ReceiveSynTakes(cfg, c, seg, slen, newRto, app);
      } else if c.state.Established? {
        ReceiveEstablishedTakes(cfg, c, seg, slen, newRto, app);
      } else {
        ReceiveClosingTakes(cfg, c, seg, slen, newRto, app);
      }
  }

  lemma ClosedTakesNothing(cfg: Config, c: Conn, i: Input)
    requires cfg.Valid() && c.Is(Closed) && i.Data?
    ensures TakenOver(c, i, ConnStep(cfg, c, i))
  {
    AddZero(c.rcvNxt);
  }

  /** The one case in which data is taken and not acknowledged at once: it comes with the ACK of the own FIN. */
  predicate Unanswered(c: Conn, seg: Segment) {
    c.state.FinWait1? && !seg.bits.fin && Acknowledges(c, seg)
  }

  /**
   * A FIN that is taken moves `rcv_nxt` past the segment's bytes and the FIN, and is answered at once
   * by a segment that acknowledges both; so is data, whatever the application does with it, but for
   * the one case.
   */
  lemma TakenIsAcknowledged(cfg: Config, c: Conn, seg: Segment, slen: U16, newRto: Byte, app: App)
    requires cfg.Valid() && Takes(c, seg) && (|seg.payload| > 0 || TakesFin(c, seg))
    ensures var o := Receive(cfg, c, seg, slen, newRto, app);
      && o.conn.rcvNxt == Add(seg.seqno, |seg.payload| + if TakesFin(c, seg) then 1 else 0)
      && (o.emit.Send? <==> !Unanswered(c, seg))
      && (o.emit.Send? ==> o.emit.ackno == o.conn.rcvNxt)
      && (TakesFin(c, seg) ==> o.conn.state in {LastAck, Closing, TimeWait})
  {
    hide CallAndSend;
    var c1 := AfterAck(c, seg, newRto);
    AddAssociates(c.rcvNxt, |seg.payload|, 1);
    if c.state.SynRcvd? {
      var c2 := AcceptPayload(c1.Enter(Established).(len := 0), seg);
      var flags := {Connected} + FlagIf(|seg.payload| > 0, NewData);
      SendingKeepsRcvNxt(c2, flags, seg.payload, 0, app);
      NewDataIsAnswered(c2, flags, seg.payload, 0, app);
    } else if c.state.Established? && !seg.bits.fin {
      var c2 := AcceptPayload(c1, seg);
      var c3 := c2.(mss := if seg.wnd > c2.initialMss || seg.wnd == 0 then c2.initialMss else seg.wnd);
      var flags := FlagIf(Acknowledges(c, seg), AckData) + FlagIf(true, NewData);
      SendingKeepsRcvNxt(c3, flags, seg.payload, 0, app);
      NewDataIsAnswered(c3, flags, seg.payload, 0, app);
    }
  }

  /** A segment with data or a FIN that does not start at `rcv_nxt` is answered with the number that is awaited. */
  lemma OthersAreAskedFor(cfg: Config, c: Conn, seg: Segment, slen: U16, newRto: Byte, app: App)
    requires cfg.Valid() && !seg.bits.rst && !(c.state.SynSent? && seg.bits == SYNACK)
    requires (|seg.payload| > 0 || seg.bits.syn || seg.bits.fin) && seg.seqno != c.rcvNxt
    ensures Receive(cfg, c, seg, slen, newRto, app) == Outcome(c, slen, [], PureAck(c))
    ensures PureAck(c).ackno == c.rcvNxt && PureAck(c).seqno == c.sndNxt && PureAck(c).bits == ACKONLY
  {
  }

  /** In TIME_WAIT every segment but an RST is acknowledged again, should the peer have missed the last ACK. */
  lemma TimeWaitAnswers(cfg: Config, c: Conn, seg: Segment, slen: U16, newRto: Byte, app: App)
    requires cfg.Valid() && Coupled(cfg, c) && c.state.TimeWait? && !seg.bits.rst
    ensures var o := Receive(cfg, c, seg, slen, newRto, app);
      o.conn == c && o.calls == [] && o.emit.Send? && o.emit.bits == ACKONLY && o.emit.ackno == c.rcvNxt
  {
  }

  // ---------- Over runs ----------

  function BytesTakenIn(cfg: Config, c: Conn, run: seq<Input>): nat
    requires cfg.Valid()
    decreases |run|
  {
    if run == [] then 0 else BytesTaken(c, run[0]) + BytesTakenIn(cfg, ConnStep(cfg, c, run[0]).conn, run[1..])
  }

  /** The peer's FIN is taken in the run. */
  predicate FinTakenIn(cfg: Config, c: Conn, run: seq<Input>)
    requires cfg.Valid()
    decreases |run|
  {
    run != [] &&
      ((run[0].Data? && TakesFin(c, run[0].seg)) || FinTakenIn(cfg, ConnStep(cfg, c, run[0]).conn, run[1..]))
  }

  /** A FIN, where there is one, follows the last byte of the stream. */
  predicate FinEndsStream(seg: Segment, isn: U32, stream: seq<Byte>) {
    seg.bits.fin && !seg.bits.rst ==> Add(seg.seqno, |seg.payload|) == Add(Add(isn, 1), |stream|)
  }

  ghost predicate PeerIs(run: seq<Input>, isn: U32, stream: seq<Byte>) {
    AllFromPeer(run, isn, stream) && forall i :: i in run && i.Data? ==> FinEndsStream(i.seg, isn, stream)
  }

  predicate InStream(stream: seq<Byte>, d: nat, fin: bool) {
    d <= |stream| && (fin ==> d == |stream|)
  }

  /** The peer has sent its SYN, and `d` bytes and perhaps the FIN behind all of them have been taken. */
  predicate Books(c: Conn, isn: U32, stream: seq<Byte>, d: nat, fin: bool) {
    && InStream(stream, d, fin)
    && (fin <==> c.state in {Closing, TimeWait, LastAck})
    && (c.state.SynSent? ==> d == 0)
    && (!c.state.SynSent? ==> c.rcvNxt == Add(Add(isn, 1), d + if fin then 1 else 0))
  }

  predicate PastFin(s: TcpState) {
    s in {Closing, TimeWait, LastAck}
  }

  /** The state of an open connection says whether the peer's FIN has been taken. */
  ghost predicate StateTells(c: Conn, i: Input, o: Outcome) {
    o.conn.state.Closed? ||
    (&& (PastFin(o.conn.state) <==> PastFin(c.state) || (i.Data? && TakesFin(c, i.seg)))
     && (c.state.SynSent? ==> o.conn.state.SynSent? || Answered(c, i))
     && (o.conn.state.SynSent? ==> c.state.SynSent? && !Answered(c, i)))
  }

  lemma ReceiveTells(cfg: Config, c: Conn, seg: Segment, slen: U16, newRto: Byte, app: App)
    requires cfg.Valid() && !c.state.Closed?
    ensures StateTells(c, Data(seg, slen, newRto, app), Receive(cfg, c, seg, slen, newRto, app))
  {
    hide CallAndSend;
    var c1 := AfterAck(c, seg, newRto);
    match c.state
    case SynRcvd =>
      CallAndSendEffect(AcceptPayload(c1.Enter(Established).(len := 0), seg),
                        {Connected} + FlagIf(|seg.payload| > 0, NewData), seg.payload, 0, app);
    case SynSent =>
      CallAndSendEffect(MssFrom(cfg, c1, seg.mss).Enter(Established).(rcvNxt := Add(seg.seqno, 1), len := 0),
                        {Connected, NewData}, [], 0, app);
    case Established =>
      var accept := |seg.payload| > 0 && !c1.stopped;
      var c2 := if accept then AcceptPayload(c1, seg) else c1;
      CallAndSendEffect(c2.(mss := if seg.wnd > c2.initialMss || seg.wnd == 0 then c2.initialMss else seg.wnd),
                        FlagIf(Acknowledges(c, seg), AckData) + FlagIf(accept, NewData),
                        if accept then seg.payload else [], 0, app);
    case _ =>
  }

  lemma StepTells(cfg: Config, c: Conn, i: Input)
    requires cfg.Valid() && Coupled(cfg, c)
    ensures StateTells(c, i, ConnStep(cfg, c, i))
  {
    hide CallAndSend, Receive;
    match i
    case Tick(app) => if c.state.Established? { CallAndSendEffect(c, {Poll}, [], 0, app); }
    case PollRequest(slen, app) => if c.state.Established? { CallAndSendEffect(c, {Poll}, [], slen, app); }
    case Data(seg, slen, newRto, app) =>
      if !c.state.Closed? {
        ReceiveTells(cfg, c, seg, slen, newRto, app);
      }
  }

  /** What is taken is the next part of the stream, and the FIN only behind all of it. */
  lemma TakenIsNext(c: Conn, i: Input, isn: U32, stream: seq<Byte>, d: nat)
    requires i.Data? && FromPeer(i.seg, isn, stream) && FinEndsStream(i.seg, isn, stream) && |stream| < TWO32
    requires Takes(c, i.seg) && d <= |stream| && c.rcvNxt == Add(Add(isn, 1), d)
    ensures d + |i.seg.payload| <= |stream| && i.seg.payload == stream[d..d + |i.seg.payload|]
    ensures TakesFin(c, i.seg) ==> d + |i.seg.payload| == |stream|
  {
    if i.seg.payload != [] {
      var off: nat :| IsSlice(i.seg, isn, stream, off);
      AddInjective(Add(isn, 1), off, d);
    }
    if TakesFin(c, i.seg) {
      AddAssociates(Add(isn, 1), d, |i.seg.payload|);
      AddInjective(Add(isn, 1), d + |i.seg.payload|, |stream|);
    }
  }

  lemma StepKeepsBooks(cfg: Config, c: Conn, i: Input, isn: U32, stream: seq<Byte>, d: nat, fin: bool)
    requires cfg.Valid() && Coupled(cfg, c) && |stream| < TWO32
    requires i.Data? ==> FromPeer(i.seg, isn, stream) && FinEndsStream(i.seg, isn, stream)
    requires Books(c, isn, stream, d, fin)
    ensures var o, d', fin' := ConnStep(cfg, c, i), d + BytesTaken(c, i), fin || (i.Data? && TakesFin(c, i.seg));
      && InStream(stream, d', fin') && (!o.conn.state.Closed? ==> Books(o.conn, isn, stream, d', fin'))
      && (o.emit.Send? && (c.state.SynSent? ==> Answered(c, i)) ==>
            o.emit.ackno == Add(Add(isn, 1), d' + if fin' then 1 else 0))
  {
    RcvNxtMoves(cfg, c, i);
    StepTells(cfg, c, i);
    hide ConnStep, FromPeer;
    AddZero(Add(isn, 1));
    AddAssociates(Add(isn, 1), d + (if fin then 1 else 0), Taken(c, i));
    if i.Data? && Takes(c, i.seg) {
      TakenIsNext(c, i, isn, stream, d);
    }
  }

  /** A closed connection takes and sends nothing more. */
  ghost predicate InBooks(c: Conn, isn: U32, stream: seq<Byte>, d: nat, fin: bool) {
    InStream(stream, d, fin) && (c.state.Closed? || Books(c, isn, stream, d, fin))
  }

  /** The emission is a segment of a connection that knows the peer's initial sequence number. */
  predicate Speaks(c: Conn, i: Input, emit: Emit) {
    emit.Send? && (c.state.SynSent? ==> Answered(c, i))
  }

  function FinBit(fin: bool): nat {
    if fin then 1 else 0
  }

  /**
   * Every segment a connection sends acknowledges exactly what has been taken from the peer by then:
   * its SYN, the bytes, which are no more than its stream has, and the FIN only behind all of them.
   */
  lemma {:induction false} EveryAckCounts(cfg: Config, c: Conn, run: seq<Input>, isn: U32, stream: seq<Byte>,
                                          d: nat, fin: bool, k: nat)
    requires cfg.Valid() && Coupled(cfg, c) && Disciplined(run) && PeerIs(run, isn, stream) && |stream| < TWO32
    requires InBooks(c, isn, stream, d, fin) && k < |run|
    ensures var before := ConnRun(cfg, c, run[..k]);
      var o, taken := ConnStep(cfg, before, run[k]), d + BytesTakenIn(cfg, c, run[..k + 1]);
      var finTaken := fin || FinTakenIn(cfg, c, run[..k + 1]);
      && InBooks(o.conn, isn, stream, taken, finTaken)
      && (Speaks(before, run[k], o.emit) ==> o.emit.ackno == Add(Add(isn, 1), taken + FinBit(finTaken)))
    decreases k
  {
    hide ConnStep, BytesTaken, TakesFin, FromPeer, FinEndsStream, Books;
    var c' := ConnStep(cfg, c, run[0]).conn;
    assert run[0] in run;
    StepKeepsInBooks(cfg, c, run[0], isn, stream, d, fin);
    StepCoupled(cfg, c, run[0]);
    assert run[..k + 1][0] == run[0] && run[..k + 1][1..] == run[1..][..k];
    if k == 0 {
      assert run[..0] == [] && run[1..][..0] == [];
    } else {
      assert run[..k][0] == run[0] && run[..k][1..] == run[1..][..k - 1];
      assert run[1..][k - 1] == run[k];
      var fin' := fin || (run[0].Data? && TakesFin(c, run[0].seg));
      EveryAckCounts(cfg, c', run[1..], isn, stream, d + BytesTaken(c, run[0]), fin', k - 1);
    }
  }

  lemma StepKeepsInBooks(cfg: Config, c: Conn, i: Input, isn: U32, stream: seq<Byte>, d: nat, fin: bool)
    requires cfg.Valid() && Coupled(cfg, c) && |stream| < TWO32
    requires i.Data? ==> FromPeer(i.seg, isn, stream) && FinEndsStream(i.seg, isn, stream)
    requires InBooks(c, isn, stream, d, fin)
    ensures var o, d', fin' := ConnStep(cfg, c, i), d + BytesTaken(c, i), fin || (i.Data? && TakesFin(c, i.seg));
      && InBooks(o.conn, isn, stream, d', fin')
      && (Speaks(c, i, o.emit) ==> o.emit.ackno == Add(Add(isn, 1), d' + FinBit(fin')))
  {
    if !c.state.Closed? {
      StepKeepsBooks(cfg, c, i, isn, stream, d, fin);
      hide ConnStep;
    }
  }

  /** From an accepted SYN, and from `uip_connect`, `isn` being the number of the SYN-ACK. */
  lemma AcksFromOpening(cfg: Config, slot: Conn, syn: Segment, lport: U16, rip: U32, rport: U16, iss: U32,
                        isn: U32, stream: seq<Byte>)
    requires cfg.Valid()
    ensures InBooks(PassiveOpen(cfg, slot, syn, iss), syn.seqno, stream, 0, false)
    ensures InBooks(ActiveOpen(cfg, slot, lport, rip, rport, iss), isn, stream, 0, false)
  {
    AddZero(Add(syn.seqno, 1));
  }

  /** As long as the connection is open in both directions, what is taken is what is handed up. */
  lemma HandedUpIsTaken(cfg: Config, c: Conn, i: Input)
    requires cfg.Valid() && !c.state.FinWait1? && !c.state.FinWait2?
    ensures |NewBytes(ConnStep(cfg, c, i))| == BytesTaken(c, i)
  {
    match i
    case Data(seg, slen, newRto, app) =>
      if !c.Is(Closed) {
        ReceiveEffect(cfg, c, seg, slen, newRto, app);
        hide Receive;
      }
    case _ =>
      hide TimerStep, PollStep;
      TimerAndPollDeliverNothing(cfg, c, i);
  }
}
