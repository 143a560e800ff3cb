/** The two directions of data transfer: stop-and-wait sending and in-order exactly-once delivery. */
module TcpTransfer {
  import opened Octets
  import opened TcpSpec
  import opened TcpConnection

  // ---------- Sending ----------

  predicate IsDataSegment(e: Emit) {
    e.Send? && e.len > 0
  }

  /** The input carries an acknowledgement that is accepted on `c`. */
  predicate Accepts(c: Conn, i: Input) {
    i.Data? && !c.Is(Closed) && !i.seg.bits.rst && !OutOfOrder(c, i.seg) && Acknowledges(c, i.seg)
  }

  lemma CallAndSendEffect(c: Conn, flags: set<UipFlag>, newBytes: seq<Byte>, slen: U16, app: App)
    requires c.state.Established?
    ensures var o := CallAndSend(c, flags, newBytes, slen, app);
      && o.calls == [Callback(flags, newBytes)]
      && o.conn.rcvNxt == c.rcvNxt && o.conn.sndNxt == c.sndNxt
      && o.conn.state in {Established, FinWait1, Closed}
      && (IsDataSegment(o.emit) ==>
            o.conn.state.Established? && o.emit == Emission(o.conn, PSHACK, o.conn.len, false))
  {
  }

  lemma SenderEffect(cfg: Config, c: Conn, seg: Segment, slen: U16, newRto: Byte, app: App)
    requires cfg.Valid()
    ensures var o := Receive(cfg, c, seg, slen, newRto, app);
      && (IsDataSegment(o.emit) ==>
            o.conn.state.Established? && o.emit == Emission(o.conn, PSHACK, o.conn.len, false))
      && (o.conn.sndNxt == if !seg.bits.rst && !OutOfOrder(c, seg) && Acknowledges(c, seg)
                           then Add(c.sndNxt, c.len) else c.sndNxt)
  {
    hide CallAndSend;
    var c1 := AfterAck(c, seg, newRto);
    var acked := Acknowledges(c, seg);
    match c.state
    case SynRcvd =>
      CallAndSendEffect(AcceptPayload(c1.Enter(Established).(len := 0), seg),
                        {Connected} + FlagIf(|seg.payload| > 0, NewData), seg.payload, 0, app);
    case SynSent =>
      CallAndSendEffect(MssFrom(cfg, c1, seg.mss).Enter(Established).(rcvNxt := Add(seg.seqno, 1), len := 0),
                        {Connected, NewData}, [], 0, app);
    case Established =>
      var accept := |seg.payload| > 0 && !c1.stopped;
      var c2 := if accept then AcceptPayload(c1, seg) else c1;
      CallAndSendEffect(c2.(mss := if seg.wnd > c2.initialMss || seg.wnd == 0 then c2.initialMss else seg.wnd),
                        FlagIf(acked, AckData) + FlagIf(accept, NewData), if accept then seg.payload else [], 0, app);
    case _ =>
  }

  /**
   * Every data segment carries exactly the outstanding bytes: it starts at `snd_nxt` and has
   * `len` bytes, however much the application offered, on a first send and on a repeat alike.
   */
  lemma SegmentsCarryOutstanding(cfg: Config, c: Conn, i: Input)
    requires cfg.Valid() && Coupled(cfg, c) && i.app.Disciplined()
    ensures var o := ConnStep(cfg, c, i);
      IsDataSegment(o.emit) ==>
        && o.conn.state.Established?
        && o.emit == Emission(o.conn, PSHACK, o.conn.len, false)
  {
    match i
    case Tick(app) =>
    case PollRequest(slen, app) =>
    case Data(seg, slen, newRto, app) => SenderEffect(cfg, c, seg, slen, newRto, app);
  }

  /** `snd_nxt` moves only when an acknowledgement is accepted, and then by the outstanding length. */
  lemma SndNxtMoves(cfg: Config, c: Conn, i: Input)
    requires cfg.Valid() && Coupled(cfg, c) && i.app.Disciplined()
    ensures var o := ConnStep(cfg, c, i);
      o.conn.sndNxt == if Accepts(c, i) then Add(c.sndNxt, c.len) else c.sndNxt
  {
    hide CallAndSend;
    match i
    case Tick(app) => if c.state.Established? { CallAndSendEffect(c, {Poll}, [], 0, app); }
    case PollRequest(slen, app) => if c.state.Established? { CallAndSendEffect(c, {Poll}, [], slen, app); }
    case Data(seg, slen, newRto, app) => SenderEffect(cfg, c, seg, slen, newRto, app); hide Receive;
  }

  /** Until then an ESTABLISHED connection keeps the outstanding length, unless it leaves the state. */
  lemma OutstandingIsKept(cfg: Config, c: Conn, i: Input)
    requires cfg.Valid() && Coupled(cfg, c) && i.app.Disciplined()
    requires c.state.Established? && c.len > 0 && !Accepts(c, i)
    ensures var o := ConnStep(cfg, c, i);
      o.conn.state.Established? ==> o.conn.len == c.len && o.conn.sndNxt == c.sndNxt
  {
    match i
    case Tick(app) =>
      CallbackFacts(c.(timer := cfg.Backoff(c.nrtx), nrtx := Add8(c.nrtx, 1)), {Rexmit}, 0, app);
    case PollRequest(slen, app) =>
    case Data(seg, slen, newRto, app) =>
      var c1 := if |seg.payload| > 0 && !c.stopped then AcceptPayload(c, seg) else c;
      var c2 := c1.(mss := if seg.wnd > c1.initialMss || seg.wnd == 0 then c1.initialMss else seg.wnd);
      CallbackFacts(c2, FlagIf(false, AckData) + FlagIf(true, NewData), 0, app);
  }

  function Emitted(cfg: Config, c: Conn, run: seq<Input>): seq<Emit>
    requires cfg.Valid()
    decreases |run|
  {
    if run == [] then []
    else
      var o := ConnStep(cfg, c, run[0]);
      [o.emit] + Emitted(cfg, o.conn, run[1..])
  }

  /** A connection past ESTABLISHED sends no more data. */
  lemma {:induction false} NoDataAfterEstablished(cfg: Config, c: Conn, run: seq<Input>)
    requires cfg.Valid() && Coupled(cfg, c) && Disciplined(run)
    requires !c.state.Established? && !c.state.SynRcvd? && !c.state.SynSent?
    ensures forall e :: e in Emitted(cfg, c, run) ==> !IsDataSegment(e)
    decreases |run|
  {
    if run != [] {
      StepCoupled(cfg, c, run[0]);
      SegmentsCarryOutstanding(cfg, c, run[0]);
      NoDataAfterEstablished(cfg, ConnStep(cfg, c, run[0]).conn, run[1..]);
    }
  }

  /**
   * Stop-and-wait: as long as no segment acknowledges `snd_nxt + len`, every data segment sent,
   * over any run, is the one outstanding segment again.
   */
  lemma {:induction false} StopAndWait(cfg: Config, c: Conn, run: seq<Input>)
    requires cfg.Valid() && Coupled(cfg, c) && Disciplined(run)
    requires c.state.Established? && c.len > 0
    requires forall i :: i in run && i.Data? ==> !(i.seg.bits.ack && i.seg.ackno == Add(c.sndNxt, c.len))
    ensures forall e :: e in Emitted(cfg, c, run) && IsDataSegment(e) ==> e.seqno == c.sndNxt && e.len == c.len
    decreases |run|
  {
    if run != [] {
      var o := ConnStep(cfg, c, run[0]);
      assert run[0] in run;
      StepCoupled(cfg, c, run[0]);
      SegmentsCarryOutstanding(cfg, c, run[0]);
      OutstandingIsKept(cfg, c, run[0]);
      if o.conn.state.Established? {
        StopAndWait(cfg, o.conn, run[1..]);
      } else {
        NoDataAfterEstablished(cfg, o.conn, run[1..]);
      }
    }
  }

  lemma SegmentsStartAtSndNxt(cfg: Config, c: Conn, i: Input)
    requires cfg.Valid() && Coupled(cfg, c) && i.app.Disciplined() && c.state.Established?
    ensures var o := ConnStep(cfg, c, i);
      o.emit.Send? ==> o.emit.seqno == o.conn.sndNxt
  {
    match i
    case Tick(app) =>
    case PollRequest(slen, app) =>
    case Data(seg, slen, newRto, app) =>
      hide CallAndSend;
      var c1 := AfterAck(c, seg, newRto);
      var acked := Acknowledges(c, seg);
      var accept := |seg.payload| > 0 && !c1.stopped;
      var c2 := if accept then AcceptPayload(c1, seg) else c1;
      SendingStartsAtSndNxt(c2.(mss := if seg.wnd > c2.initialMss || seg.wnd == 0 then c2.initialMss else seg.wnd),
                            FlagIf(acked, AckData) + FlagIf(accept, NewData), if accept then seg.payload else [], 0, app);
  }

  lemma SendingStartsAtSndNxt(c: Conn, flags: set<UipFlag>, newBytes: seq<Byte>, slen: U16, app: App)
    ensures var o := CallAndSend(c, flags, newBytes, slen, app);
      o.emit.Send? ==> o.emit.seqno == o.conn.sndNxt
  {
  }

  /**
   * A FIN that an ESTABLISHED connection sends comes after all the data sent before exactly when
   * none of it is outstanding any more: the application must not close the connection earlier.
   */
  lemma FinFollowsTheData(cfg: Config, c: Conn, i: Input)
    requires cfg.Valid() && Coupled(cfg, c) && i.app.Disciplined() && c.state.Established?
    ensures var o := ConnStep(cfg, c, i);
      o.emit.Send? && o.emit.bits.fin ==> (o.emit.seqno == Add(c.sndNxt, c.len) <==> c.len == 0 || Accepts(c, i))
  {
    hide ConnStep;
    SegmentsStartAtSndNxt(cfg, c, i);
    SndNxtMoves(cfg, c, i);
    AddZero(c.sndNxt);
    if c.len > 0 && Add(c.sndNxt, c.len) == Add(c.sndNxt, 0) {
      AddInjective(c.sndNxt, c.len, 0);
    }
  }

  /** Closing earlier does happen: new data from the peer gives the application the occasion. */
  lemma ClosingEarlyLosesData(cfg: Config, c: Conn, seg: Segment, slen: U16, newRto: Byte)
    requires cfg.Valid() && Coupled(cfg, c) && c.state.Established? && !c.stopped && c.len > 0
    requires seg.bits == PSHACK && |seg.payload| > 0 && seg.seqno == c.rcvNxt && !Acknowledges(c, seg)
    ensures var o := ConnStep(cfg, c, Data(seg, slen, newRto, App([CloseConn], [])));
      && o.conn.state.FinWait1? && o.conn.len == 1
      && o.emit == Emission(o.conn, FINACK, 0, false) && o.emit.seqno == c.sndNxt
  {
    var c1 := AcceptPayload(c, seg);
    var c2 := c1.(mss := if seg.wnd > c1.initialMss || seg.wnd == 0 then c1.initialMss else seg.wnd);
    var flags := FlagIf(false, AckData) + FlagIf(true, NewData);
    var app := App([CloseConn], []);
    assert app.established[1..] == [];
    assert ApplyCalls(AppVars(flags, 0, false), app.established) == ApplyCall(AppVars(flags, 0, false), CloseConn);
    assert AppCallback(c2, flags, 0, app).flags == {Close};
  }

  /** The bytes acknowledged over a run, SYN and FIN included. */
  function AckedBytes(cfg: Config, c: Conn, run: seq<Input>): nat
    requires cfg.Valid()
    decreases |run|
  {
    if run == [] then 0
    else (if Accepts(c, run[0]) then c.len else 0) + AckedBytes(cfg, ConnStep(cfg, c, run[0]).conn, run[1..])
  }

  /** `snd_nxt` is the initial sequence number plus the bytes acknowledged so far, modulo 2^32. */
  lemma {:induction false} SndNxtCountsAckedBytes(cfg: Config, c: Conn, run: seq<Input>)
    requires cfg.Valid() && Coupled(cfg, c) && Disciplined(run)
    ensures ConnRun(cfg, c, run).sndNxt == Add(c.sndNxt, AckedBytes(cfg, c, run))
    decreases |run|
  {
    hide ConnStep;
    if run != [] {
      var o := ConnStep(cfg, c, run[0]);
      StepCoupled(cfg, c, run[0]);
      SndNxtMoves(cfg, c, run[0]);
      SndNxtCountsAckedBytes(cfg, o.conn, run[1..]);
      AddAssociates(c.sndNxt, c.len, AckedBytes(cfg, o.conn, run[1..]));
    }
  }

  // ---------- Receiving ----------

  /** What one call hands to the application as new data. */
  function NewBytes(o: Outcome): seq<Byte> {
    if |o.calls| == 1 && NewData in o.calls[0].flags then o.calls[0].newBytes else []
  }

  function Delivered(cfg: Config, c: Conn, run: seq<Input>): seq<Byte>
    requires cfg.Valid()
    decreases |run|
  {
    if run == [] then []
    else
      var o := ConnStep(cfg, c, run[0]);
      NewBytes(o) + Delivered(cfg, o.conn, run[1..])
  }

  /**
   * A segment of the one peer whose initial sequence number is `isn` and whose data is `stream`,
   * possibly an old duplicate and possibly overtaken: any RST, the SYN, any slice of the stream, or a
   * segment without data, such as an ACK after the peer's FIN, whatever its number.
   */
  ghost predicate FromPeer(seg: Segment, isn: U32, stream: seq<Byte>) {
    if seg.bits.rst then true
    else if seg.bits.syn then seg.seqno == isn && seg.payload == []
    else if seg.payload == [] then true
    else exists off: nat :: IsSlice(seg, isn, stream, off)
  }

  ghost predicate IsSlice(seg: Segment, isn: U32, stream: seq<Byte>, off: nat) {
    && off + |seg.payload| <= |stream|
    && seg.seqno == Add(Add(isn, 1), off)
    && seg.payload == stream[off..off + |seg.payload|]
    && (seg.bits.fin ==> off + |seg.payload| == |stream|)
  }

  ghost predicate AllFromPeer(run: seq<Input>, isn: U32, stream: seq<Byte>) {
    forall i :: i in run && i.Data? ==> FromPeer(i.seg, isn, stream)
  }

  /** The receiver's books after `d` bytes have been handed up. */
  predicate InStep(c: Conn, isn: U32, d: nat) {
    && (c.state.SynSent? ==> d == 0)
    && (c.state.SynRcvd? || c.state.Established? ==> c.rcvNxt == Add(Add(isn, 1), d))
  }

  predicate Open(s: TcpState) {
    s.SynRcvd? || s.Established?
  }

  /** The segments whose payload is handed up, read off the connection before the call. */
  predicate Delivers(c: Conn, seg: Segment) {
    && !seg.bits.rst && |seg.payload| > 0 && seg.seqno == c.rcvNxt
    && (c.state.SynRcvd? ==> Acknowledges(c, seg))
    && (c.state.Established? ==> !c.stopped && (seg.bits.fin ==> c.len == 0 || Acknowledges(c, seg)))
    && Open(c.state)
  }

  /** One segment's effect on the receiving side. */
  lemma ReceiveEffect(cfg: Config, c: Conn, seg: Segment, slen: U16, newRto: Byte, app: App)
    requires cfg.Valid()
    ensures var o := Receive(cfg, c, seg, slen, newRto, app);
      && NewBytes(o) == (if Delivers(c, seg) then seg.payload else [])
      && (o.conn.state.SynSent? ==> c.state.SynSent?)
      && (Open(o.conn.state) && c.state.SynSent? ==> seg.bits == SYNACK && o.conn.rcvNxt == Add(seg.seqno, 1))
      && (Open(o.conn.state) && !c.state.SynSent? ==>
            Open(c.state) && o.conn.rcvNxt == if Delivers(c, seg) then Add(c.rcvNxt, |seg.payload|) else c.rcvNxt)
  {
    hide CallAndSend;
    var c1 := AfterAck(c, seg, newRto);
    var acked := Acknowledges(c, seg);
    match c.state
    case SynRcvd =>
      CallAndSendEffect(AcceptPayload(c1.Enter(Established).(len := 0), seg),
                        {Connected} + FlagIf(|seg.payload| > 0, NewData), seg.payload, 0, app);
      AddZero(c.rcvNxt);
    case SynSent =>
      CallAndSendEffect(MssFrom(cfg, c1, seg.mss).Enter(Established).(rcvNxt := Add(seg.seqno, 1), len := 0),
                        {Connected, NewData}, [], 0, app);
    case Established =>
      var accept := |seg.payload| > 0 && !c1.stopped;
      var c2 := if accept then AcceptPayload(c1, seg) else c1;
      CallAndSendEffect(c2.(mss := if seg.wnd > c2.initialMss || seg.wnd == 0 then c2.initialMss else seg.wnd),
                        FlagIf(acked, AckData) + FlagIf(accept, NewData), if accept then seg.payload else [], 0, app);
    case _ =>
  }

  lemma ReceiveInStep(cfg: Config, c: Conn, seg: Segment, slen: U16, newRto: Byte, app: App,
                      isn: U32, stream: seq<Byte>, d: nat)
    requires cfg.Valid()
    requires FromPeer(seg, isn, stream) && |stream| < TWO32
    requires d <= |stream| && InStep(c, isn, d)
    ensures var o := Receive(cfg, c, seg, slen, newRto, app);
      && d + |NewBytes(o)| <= |stream|
      && NewBytes(o) == stream[d..d + |NewBytes(o)|]
      && InStep(o.conn, isn, d + |NewBytes(o)|)
  {
    ReceiveEffect(cfg, c, seg, slen, newRto, app);
    if Delivers(c, seg) {
      var off: nat :| IsSlice(seg, isn, stream, off);
      AddInjective(Add(isn, 1), off, d);
      AddAssociates(Add(isn, 1), d, |seg.payload|);
    } else {
      AddAssociates(isn, 1, 0);
    }
  }

  lemma TimerAndPollDeliverNothing(cfg: Config, c: Conn, i: Input)
    requires cfg.Valid() && !i.Data?
    ensures var o := ConnStep(cfg, c, i);
      && NewBytes(o) == []
      && o.conn.rcvNxt == c.rcvNxt
      && (o.conn.state == c.state || !(Open(o.conn.state) || o.conn.state.SynSent?))
  {
  }

  lemma StepInStep(cfg: Config, c: Conn, i: Input, isn: U32, stream: seq<Byte>, d: nat)
    requires cfg.Valid()
    requires i.Data? ==> FromPeer(i.seg, isn, stream)
    requires |stream| < TWO32 && d <= |stream| && InStep(c, isn, d)
    ensures var o := ConnStep(cfg, c, i);
      && d + |NewBytes(o)| <= |stream|
      && NewBytes(o) == stream[d..d + |NewBytes(o)|]
      && InStep(o.conn, isn, d + |NewBytes(o)|)
  {
    hide Receive, TimerStep, PollStep;
    if !i.Data? {
      TimerAndPollDeliverNothing(cfg, c, i);
    } else if !c.Is(Closed) {
      ReceiveInStep(cfg, c, i.seg, i.slen, i.newRto, i.app, isn, stream, d);
    }
  }

  /**
   * In-order exactly-once delivery: whatever is lost, duplicated or reordered, the bytes handed
   * up continue the stream where the earlier ones stopped, and `rcv_nxt` counts them.
   */
  lemma {:induction false} DeliveryIsInOrder(cfg: Config, c: Conn, run: seq<Input>, isn: U32, stream: seq<Byte>, d: nat)
    requires cfg.Valid()
    requires AllFromPeer(run, isn, stream)
    requires |stream| < TWO32 && d <= |stream| && InStep(c, isn, d)
    ensures var bytes := Delivered(cfg, c, run);
      && d + |bytes| <= |stream|
      && bytes == stream[d..d + |bytes|]
      && InStep(ConnRun(cfg, c, run), isn, d + |bytes|)
    decreases |run|
  {
    hide ConnStep;
    if run != [] {
      var o := ConnStep(cfg, c, run[0]);
      assert run[0] in run;
      StepInStep(cfg, c, run[0], isn, stream, d);
      DeliveryIsInOrder(cfg, o.conn, run[1..], isn, stream, d + |NewBytes(o)|);
    }
  }

  /** From the SYN on, passive side: a prefix of the stream, with `rcv_nxt` = ISN + 1 + bytes delivered. */
  lemma PassiveSideDelivery(cfg: Config, slot: Conn, syn: Segment, iss: U32, run: seq<Input>, stream: seq<Byte>)
    requires cfg.Valid()
    requires AllFromPeer(run, syn.seqno, stream) && |stream| < TWO32
    ensures var c := PassiveOpen(cfg, slot, syn, iss);
      var bytes := Delivered(cfg, c, run);
      var c' := ConnRun(cfg, c, run);
      && bytes <= stream
      && (c'.state.SynRcvd? || c'.state.Established? ==> c'.rcvNxt == Add(syn.seqno, 1 + |bytes|))
  {
    hide ConnRun, Delivered;
    var c := PassiveOpen(cfg, slot, syn, iss);
    DeliveryIsInOrder(cfg, c, run, syn.seqno, stream, 0);
    AddAssociates(syn.seqno, 1, |Delivered(cfg, c, run)|);
  }

  /** The same for a connection this side opened. */
  lemma ActiveSideDelivery(cfg: Config, slot: Conn, lport: U16, rip: U32, rport: U16, iss: U32,
                           run: seq<Input>, isn: U32, stream: seq<Byte>)
    requires cfg.Valid()
    requires AllFromPeer(run, isn, stream) && |stream| < TWO32
    ensures var c := ActiveOpen(cfg, slot, lport, rip, rport, iss);
      var bytes := Delivered(cfg, c, run);
      var c' := ConnRun(cfg, c, run);
      && bytes <= stream
      && (c'.state.Established? ==> c'.rcvNxt == Add(isn, 1 + |bytes|))
  {
    hide ConnRun, Delivered;
    var c := ActiveOpen(cfg, slot, lport, rip, rport, iss);
    DeliveryIsInOrder(cfg, c, run, isn, stream, 0);
    AddAssociates(isn, 1, |Delivered(cfg, c, run)|);
  }

  /**
   * And the next bytes are not withheld: an open, running connection hands up a data segment
   * exactly when it starts at `rcv_nxt`, except for a FIN that arrives while data is outstanding.
   */
  lemma NextSegmentIsDelivered(cfg: Config, c: Conn, seg: Segment, slen: U16, newRto: Byte, app: App)
    requires cfg.Valid()
    requires c.state.Established? && !c.stopped && |seg.payload| > 0 && !seg.bits.rst
    ensures NewBytes(Receive(cfg, c, seg, slen, newRto, app)) == seg.payload <==>
      seg.seqno == c.rcvNxt && (seg.bits.fin ==> c.len == 0 || Acknowledges(c, seg))
  {
    ReceiveEffect(cfg, c, seg, slen, newRto, app);
  }
}
