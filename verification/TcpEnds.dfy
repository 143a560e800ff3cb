/** Where the engine's segments go, what window they offer, and the initial sequence numbers of connections. */
module TcpEnds {
  import opened Octets
  import opened TcpSpec
  import opened TcpConnection
  import opened TcpTable
  import opened TcpRuns

  // ---------- One connection ----------

  /** From the connection's own port to its peer. */
  predicate GoesToPeer(c: Conn, emit: Emit) {
    emit.Send? ==> emit.srcport == c.lport && emit.destip == c.rip && emit.destport == c.rport
  }

  /** The window is closed exactly while the connection is stopped. */
  predicate OffersWindow(o: Outcome) {
    o.emit.Send? ==> o.emit.wnd == if o.conn.stopped then Zero else TcpSpec.Open
  }

  /** A SYN_SENT connection that is aborted answers from the segment, not from the record. */
  predicate Refuses(c: Conn, i: Input) {
    i.Data? && c.state.SynSent? && !i.seg.bits.rst && !OutOfOrder(c, i.seg)
    && !(Acknowledges(c, i.seg) && i.seg.bits == SYNACK)
  }

  lemma SendingGoesToPeer(c: Conn, flags: set<UipFlag>, newBytes: seq<Byte>, slen: U16, app: App)
    ensures var o := CallAndSend(c, flags, newBytes, slen, app);
      GoesToPeer(c, o.emit) && OffersWindow(o)
  {
  }

  lemma ReceiveGoesToPeer(cfg: Config, c: Conn, seg: Segment, slen: U16, newRto: Byte, app: App)
    requires cfg.Valid()
    ensures var o := Receive(cfg, c, seg, slen, newRto, app);
      if Refuses(c, Data(seg, slen, newRto, app)) then o.emit == ResetReply(seg) && o.conn.Is(Closed)
      else GoesToPeer(c, o.emit) && OffersWindow(o)
  {
    hide CallAndSend;
    var c1 := AfterAck(c, seg, newRto);
    match c.state
    case SynRcvd =>
      SendingGoesToPeer(AcceptPayload(c1.Enter(Established).(len := 0), seg),
                        {Connected} + FlagIf(|seg.payload| > 0, NewData), seg.payload, 0, app);
    case SynSent =>
      SendingGoesToPeer(MssFrom(cfg, c1, seg.mss).Enter(Established).(rcvNxt := Add(seg.seqno, 1), len := 0),
                        {Connected, NewData}, [], 0, app);
    case Established =>
      var accept := |seg.payload| > 0 && !c1.stopped;
      var c2 := if accept then AcceptPayload(c1, seg) else c1;
      SendingGoesToPeer(c2.(mss := if seg.wnd > c2.initialMss || seg.wnd == 0 then c2.initialMss else seg.wnd),
                        FlagIf(Acknowledges(c, seg), AckData) + FlagIf(accept, NewData),
                        if accept then seg.payload else [], 0, app);
    case _ =>
  }

  /** Every segment goes from the own port to the peer, and its window says whether the connection is stopped. */
  lemma SegmentsGoToPeer(cfg: Config, c: Conn, i: Input)
    requires cfg.Valid() && (i.Data? ==> CarriesEnds(i.seg, c))
    ensures var o := ConnStep(cfg, c, i);
      && GoesToPeer(c, o.emit)
      && (if Refuses(c, i) && !c.Is(Closed) then o.emit == ResetReply(i.seg) else OffersWindow(o))
  {
    match i
    case Tick(app) => SendingGoesToPeer(c, {Poll}, [], 0, app); hide CallAndSend;
    case PollRequest(slen, app) => SendingGoesToPeer(c, {Poll}, [], slen, app); hide CallAndSend;
    case Data(seg, slen, newRto, app) =>
      ReceiveGoesToPeer(cfg, c, seg, slen, newRto, app);
      hide Receive;
  }

  // ---------- The table ----------

  /** Every segment a slot sends, until it is opened again, goes to the connection's peer. */
  lemma {:induction false} SlotSpeaksToPeer(cfg: Config, es: seq<Engine>, evs: seq<Event>, i: nat, k: nat)
    requires cfg.Valid() && IsRun(cfg, es, evs) && NeverOpened(es, evs, i) && TableValid(cfg, es[0])
    requires (forall k :: 0 <= k < |es| ==> i < |es[k].conns|) && k < |SentOn(cfg, es, evs, i)|
    ensures GoesToPeer(es[0].conns[i], SentOn(cfg, es, evs, i)[k])
    decreases |evs|
  {
    hide ConnStep, Next, Opens, TableValid;
    if evs != [] {
      var c, c' := es[0].conns[i], es[1].conns[i];
      var rest := SentOn(cfg, es[1..], evs[1..], i);
      EventBySlot(cfg, es[0], evs[0], es[1], i);
      NextKeepsTable(cfg, es[0], evs[0], es[1]);
      SlotIsCoupled(cfg, es[0], i);
      match InputFor(es[0], evs[0], i) {
        case None => SlotSpeaksToPeer(cfg, es[1..], evs[1..], i, k);
        case Some(input) =>
          StepKeepsEnds(cfg, c, input);
          SegmentsGoToPeer(cfg, c, input);
          if k > 0 {
            SlotSpeaksToPeer(cfg, es[1..], evs[1..], i, k - 1);
          }
      }
    }
  }

  /**
   * A connection that `uip_connect` opens speaks to the address and port it was asked for, from a port
   * no other connection uses, and with the engine's initial sequence number.
   */
  lemma OpeningSpeaksToArguments(cfg: Config, e: Engine, rip: U32, rport: U16, i: nat,
                                 es: seq<Engine>, evs: seq<Event>, k: nat)
    requires cfg.Valid() && TableValid(cfg, e) && IsRun(cfg, es, evs) && NeverOpened(es, evs, i)
    requires Opens(e, Connects(rip, rport), i) && i < |e.conns| && Next(cfg, e, Connects(rip, rport), es[0])
    requires (forall k :: 0 <= k < |es| ==> |es[k].conns| == |e.conns|)
    ensures var c := es[0].conns[i];
      && c.Is(SynSent) && c.rip == rip && c.rport == rport && c.sndNxt == e.iss
      && forall j :: 0 <= j < |e.conns| && j != i && !es[0].conns[j].Is(Closed) ==> es[0].conns[j].lport != c.lport
    ensures k < |SentOn(cfg, es, evs, i)| && SentOn(cfg, es, evs, i)[k].Send? ==>
      var emit := SentOn(cfg, es, evs, i)[k];
      emit.destip == rip && emit.destport == rport && emit.srcport == es[0].conns[i].lport
  {
    var ev := Connects(rip, rport);
    NextKeepsTable(cfg, e, ev, es[0]);
    SlotChoice(e.conns);
    FreshPortIsFresh(e.conns, es[0].lastport);
    hide TableValid;
    if k < |SentOn(cfg, es, evs, i)| {
      SlotSpeaksToPeer(cfg, es, evs, i, k);
    }
  }

  /** One that a SYN opens speaks to the SYN's sender. */
  lemma AcceptedSpeaksToSender(cfg: Config, e: Engine, syn: Segment, newRto: Byte, app: App, i: nat,
                               es: seq<Engine>, evs: seq<Event>, k: nat)
    requires cfg.Valid() && TableValid(cfg, e) && IsRun(cfg, es, evs) && NeverOpened(es, evs, i) && app.Disciplined()
    requires Opens(e, Arrives(syn, newRto, true, app), i) && i < |e.conns|
    requires Next(cfg, e, Arrives(syn, newRto, true, app), es[0])
    requires (forall k :: 0 <= k < |es| ==> |es[k].conns| == |e.conns|)
    ensures var c := es[0].conns[i];
      c.Is(SynRcvd) && CarriesEnds(syn, c) && c.sndNxt == e.iss && c.rcvNxt == Add(syn.seqno, 1)
    ensures k < |SentOn(cfg, es, evs, i)| && SentOn(cfg, es, evs, i)[k].Send? ==>
      var emit := SentOn(cfg, es, evs, i)[k];
      emit.destip == syn.srcip && emit.destport == syn.srcport && emit.srcport == syn.destport
  {
    var ev := Arrives(syn, newRto, true, app);
    NextKeepsTable(cfg, e, ev, es[0]);
    hide TableValid;
    if k < |SentOn(cfg, es, evs, i)| {
      SlotSpeaksToPeer(cfg, es, evs, i, k);
    }
  }

  function AllTimerCalls(evs: seq<Event>): nat
    decreases |evs|
  {
    if evs == [] then 0 else (if evs[0].TimerFor? then 1 else 0) + AllTimerCalls(evs[1..])
  }

  /** The initial sequence number counts the timer calls, for whichever slot. */
  lemma {:induction false} IssCountsTimerCalls(cfg: Config, es: seq<Engine>, evs: seq<Event>)
    requires cfg.Valid() && IsRun(cfg, es, evs)
    ensures es[|evs|].iss == if evs == [] then es[0].iss else Add(es[0].iss, AllTimerCalls(evs))
    decreases |evs|
  {
    if evs != [] {
      AddZero(es[0].iss);
      IssCountsTimerCalls(cfg, es[1..], evs[1..]);
      AddAssociates(es[0].iss, if evs[0].TimerFor? then 1 else 0, AllTimerCalls(evs[1..]));
    }
  }

  // ---------- Segments without a connection ----------

  predicate IsSynFor(e: Engine, seg: Segment) {
    seg.bits == Bits(false, true, false, false, false) && seg.destport in e.listen
  }

  ghost predicate Unmatched(e: Engine, seg: Segment) {
    forall j :: 0 <= j < |e.conns| ==> e.conns[j].Is(Closed) || !CarriesEnds(seg, e.conns[j])
  }

  /**
   * A segment opens a slot exactly if it belongs to no connection, is a permitted SYN for a port that is
   * listened to, and there is a slot to be had; and then the right one.
   */
  lemma OnlySynsOpen(e: Engine, seg: Segment, newRto: Byte, permitted: bool, app: App)
    ensures var ev := Arrives(seg, newRto, permitted, app);
      && ((exists i: nat :: i < |e.conns| && Opens(e, ev, i)) <==>
            Unmatched(e, seg) && IsSynFor(e, seg) && permitted && exists j :: 0 <= j < |e.conns| && Reusable(e.conns[j]))
      && forall i: nat :: i < |e.conns| && Opens(e, ev, i) ==> IsRightSlot(e.conns, i)
  {
    SlotChoice(e.conns);
    var s := AcceptingSlot(e, seg, permitted);
    var k := Demux(e.conns, seg, 0);
    assert k < |e.conns| ==> !e.conns[k].Is(Closed) && CarriesEnds(seg, e.conns[k]);
    hide ChooseSlot;
    if s >= 0 {
      assert Opens(e, Arrives(seg, newRto, permitted, app), s);
    }
  }

  /** The answer to a segment that belongs to no connection. */
  lemma UnmatchedIsAnswered(cfg: Config, e: Engine, seg: Segment, permitted: bool)
    requires cfg.Valid() && Unmatched(e, seg)
    ensures var reply := UnmatchedReply(cfg, e, seg, permitted);
      if IsSynFor(e, seg) then
        if permitted && exists j :: 0 <= j < |e.conns| && Reusable(e.conns[j]) then
          reply == Send(seg.destport, seg.srcip, seg.srcport, e.iss, Add(seg.seqno, 1), SYNACK, 0, TcpSpec.Open, true)
        else reply == Drop
      else if seg.bits.rst then reply == Drop
      else
        && reply.Send? && reply.bits == RSTACK && reply.len == 0
        && reply.srcport == seg.destport && reply.destport == seg.srcport && reply.destip == seg.srcip
        && reply.seqno == seg.ackno && reply.ackno == Add(seg.seqno, 1)
  {
    SlotChoice(e.conns);
    var k := Demux(e.conns, seg, 0);
    assert k < |e.conns| ==> !e.conns[k].Is(Closed) && CarriesEnds(seg, e.conns[k]);
    hide ChooseSlot;
  }

  /** A connection starts with the smaller of the peer's MSS option and the own limit; without an option with what was there. */
  lemma OpeningAgreesOnSize(cfg: Config, slot: Conn, seg: Segment, iss: U32, lport: U16, rip: U32, rport: U16)
    requires cfg.Valid()
    ensures var c := PassiveOpen(cfg, slot, seg, iss);
      match seg.mss
      case Some(m) => c.mss == c.initialMss && c.mss <= m && c.mss <= cfg.tcpMss && (c.mss == m || c.mss == cfg.tcpMss)
      case None => c.mss == slot.mss && c.initialMss == slot.initialMss
    ensures var c := ActiveOpen(cfg, slot, lport, rip, rport, iss); c.mss == c.initialMss == cfg.tcpMss
  {
  }

  /** It starts with the configured interval, and with all its retransmissions. */
  lemma OpeningStartsAnew(cfg: Config, slot: Conn, seg: Segment, iss: U32, lport: U16, rip: U32, rport: U16)
    requires cfg.Valid()
    ensures PassiveOpen(cfg, slot, seg, iss).rto == ActiveOpen(cfg, slot, lport, rip, rport, iss).rto == cfg.rto
    ensures PassiveOpen(cfg, slot, seg, iss).nrtx == ActiveOpen(cfg, slot, lport, rip, rport, iss).nrtx == 0
  {
  }
}
