/** Delivery over runs of the whole table: one slot's share of a run is a run of one connection. */
module TcpRuns {
  import opened Octets
  import opened TcpSpec
  import opened TcpConnection
  import opened TcpTransfer
  import opened TcpTimeout
  import opened TcpAcks
  import opened TcpTable

  /** The inputs that a run of the table gives to the connection in slot `i`. */
  function Share(es: seq<Engine>, evs: seq<Event>, i: nat): seq<Input>
    requires |es| == |evs| + 1
    decreases |evs|
  {
    if evs == [] then []
    else
      var rest := Share(es[1..], evs[1..], i);
      match InputFor(es[0], evs[0], i)
      case None => rest
      case Some(input) => [input] + rest
  }

  /** The bytes a run of the table hands to the application as new data on slot `i`. */
  function HandedUp(cfg: Config, es: seq<Engine>, evs: seq<Event>, i: nat): seq<Byte>
    requires cfg.Valid() && |es| == |evs| + 1
    requires forall k :: 0 <= k < |es| ==> i < |es[k].conns|
    decreases |evs|
  {
    if evs == [] then []
    else
      var rest := HandedUp(cfg, es[1..], evs[1..], i);
      match InputFor(es[0], evs[0], i)
      case None => rest
      case Some(input) => NewBytes(ConnStep(cfg, es[0].conns[i], input)) + rest
  }

  /** The segments a run of the table sends for slot `i`; `Drop` where a call sends none. */
  function SentOn(cfg: Config, es: seq<Engine>, evs: seq<Event>, i: nat): seq<Emit>
    requires cfg.Valid() && |es| == |evs| + 1
    requires forall k :: 0 <= k < |es| ==> i < |es[k].conns|
    decreases |evs|
  {
    if evs == [] then []
    else
      var rest := SentOn(cfg, es[1..], evs[1..], i);
      match InputFor(es[0], evs[0], i)
      case None => rest
      case Some(input) => [ConnStep(cfg, es[0].conns[i], input).emit] + rest
  }

  ghost predicate NeverOpened(es: seq<Engine>, evs: seq<Event>, i: nat)
    requires |es| == |evs| + 1
  {
    forall k :: 0 <= k < |evs| ==> !Opens(es[k], evs[k], i)
  }

  /** As long as slot `i` is not reopened, what happens to it is the run of one connection on its share. */
  lemma {:induction false} SlotRunsAlone(cfg: Config, es: seq<Engine>, evs: seq<Event>, i: nat)
    requires cfg.Valid() && IsRun(cfg, es, evs) && NeverOpened(es, evs, i)
    requires forall k :: 0 <= k < |es| ==> i < |es[k].conns|
    ensures es[|evs|].conns[i] == ConnRun(cfg, es[0].conns[i], Share(es, evs, i))
    ensures HandedUp(cfg, es, evs, i) == Delivered(cfg, es[0].conns[i], Share(es, evs, i))
    ensures SentOn(cfg, es, evs, i) == Emitted(cfg, es[0].conns[i], Share(es, evs, i))
    decreases |evs|
  {
    hide ConnStep, Next, InputFor, Opens;
    if evs != [] {
      EventBySlot(cfg, es[0], evs[0], es[1], i);
      SlotRunsAlone(cfg, es[1..], evs[1..], i);
      var rest := Share(es[1..], evs[1..], i);
      assert es[1..][|evs[1..]|] == es[|evs|];
      match InputFor(es[0], evs[0], i)
      case None =>
      case Some(input) =>
        assert ([input] + rest)[1..] == rest;
    }
  }

  predicate CarriesEnds(seg: Segment, c: Conn) {
    seg.destport == c.lport && seg.srcport == c.rport && seg.srcip == c.rip
  }

  /** Every segment in the run that carries the ends of `c` comes from the one peer. */
  ghost predicate PeerSends(evs: seq<Event>, c: Conn, isn: U32, stream: seq<Byte>) {
    forall ev :: ev in evs && ev.Arrives? && CarriesEnds(ev.seg, c) ==> FromPeer(ev.seg, isn, stream)
  }

  /** The segments of a slot's share are those of the run that carry the connection's ends. */
  lemma {:induction false} ShareCarriesEnds(cfg: Config, es: seq<Engine>, evs: seq<Event>, i: nat)
    requires cfg.Valid() && IsRun(cfg, es, evs) && NeverOpened(es, evs, i) && TableValid(cfg, es[0])
    requires forall k :: 0 <= k < |es| ==> i < |es[k].conns|
    ensures Disciplined(Share(es, evs, i))
    ensures forall input :: input in Share(es, evs, i) && input.Data? ==>
      CarriesEnds(input.seg, es[0].conns[i]) && exists ev :: ev in evs && ev.Arrives? && ev.seg == input.seg
    decreases |evs|
  {
    hide ConnStep, Next, Opens, TableValid;
    if evs != [] {
      var c, c' := es[0].conns[i], es[1].conns[i];
      EventBySlot(cfg, es[0], evs[0], es[1], i);
      NextKeepsTable(cfg, es[0], evs[0], es[1]);
      match InputFor(es[0], evs[0], i) {
        case None =>
        case Some(input) =>
          SlotIsCoupled(cfg, es[0], i);
          StepKeepsEnds(cfg, c, input);
          assert evs[0] in evs;
      }
      assert SameEnds(c, c');
      ShareCarriesEnds(cfg, es[1..], evs[1..], i);
    }
  }

  lemma ShareIsFromPeer(cfg: Config, es: seq<Engine>, evs: seq<Event>, i: nat, isn: U32, stream: seq<Byte>)
    requires cfg.Valid() && IsRun(cfg, es, evs) && NeverOpened(es, evs, i) && TableValid(cfg, es[0])
    requires forall k :: 0 <= k < |es| ==> i < |es[k].conns|
    requires PeerSends(evs, es[0].conns[i], isn, stream)
    ensures AllFromPeer(Share(es, evs, i), isn, stream)
  {
    hide IsRun, NeverOpened, TableValid, Share, FromPeer;
    ShareCarriesEnds(cfg, es, evs, i);
  }

  lemma SlotIsCoupled(cfg: Config, e: Engine, i: nat)
    requires TableValid(cfg, e) && i < |e.conns|
    ensures Coupled(cfg, e.conns[i])
  {
  }

  /** A slot whose receiver's books are at the start of the peer's stream. */
  lemma DeliveryInASlot(cfg: Config, es: seq<Engine>, evs: seq<Event>, i: nat, isn: U32, stream: seq<Byte>)
    requires cfg.Valid() && IsRun(cfg, es, evs) && TableValid(cfg, es[0]) && NeverOpened(es, evs, i)
    requires forall k :: 0 <= k < |es| ==> i < |es[k].conns|
    requires PeerSends(evs, es[0].conns[i], isn, stream) && |stream| < TWO32
    requires InStep(es[0].conns[i], isn, 0)
    ensures HandedUp(cfg, es, evs, i) <= stream
    ensures var c := es[|evs|].conns[i];
      c.state.SynRcvd? || c.state.Established? ==> c.rcvNxt == Add(isn, 1 + |HandedUp(cfg, es, evs, i)|)
  {
    hide ConnRun, Delivered, Next, TableValid, NeverOpened, PeerSends, AllFromPeer, HandedUp, Share;
    var c, share := es[0].conns[i], Share(es, evs, i);
    SlotRunsAlone(cfg, es, evs, i);
    ShareIsFromPeer(cfg, es, evs, i, isn, stream);
    DeliveryIsInOrder(cfg, c, share, isn, stream, 0);
    AddAssociates(isn, 1, |Delivered(cfg, c, share)|);
  }

  /** The slot an event opens starts there. */
  lemma OpenedInStep(cfg: Config, e: Engine, ev: Event, e': Engine, i: nat, isn: U32)
    requires cfg.Valid() && Next(cfg, e, ev, e') && Opens(e, ev, i) && i < |e.conns|
    requires ev.Arrives? ==> isn == ev.seg.seqno
    ensures |e'.conns| == |e.conns| && InStep(e'.conns[i], isn, 0)
  {
    hide ChooseSlot;
    if ev.Arrives? {
      AddAssociates(isn, 1, 0);
    }
  }

  /**
   * Delivery for the whole engine. A SYN opens slot `i`; then anything may happen to the table,
   * as long as the segments with that SYN's ends come from its sender. The bytes handed up on the
   * slot until it is opened again are a prefix of the sender's stream, in order, each once.
   */
  lemma DeliveryOnATable(cfg: Config, e: Engine, syn: Segment, newRto: Byte, app: App, i: nat,
                         es: seq<Engine>, evs: seq<Event>, stream: seq<Byte>)
    requires cfg.Valid() && TableValid(cfg, e) && IsRun(cfg, es, evs)
    requires Opens(e, Arrives(syn, newRto, true, app), i) && i < |e.conns| && app.Disciplined()
    requires Next(cfg, e, Arrives(syn, newRto, true, app), es[0])
    requires NeverOpened(es, evs, i)
    requires forall k :: 0 <= k < |es| ==> |es[k].conns| == |e.conns|
    requires PeerSends(evs, es[0].conns[i], syn.seqno, stream) && |stream| < TWO32
    ensures HandedUp(cfg, es, evs, i) <= stream
    ensures var c := es[|evs|].conns[i];
      c.state.SynRcvd? || c.state.Established? ==>
        c.rcvNxt == Add(syn.seqno, 1 + |HandedUp(cfg, es, evs, i)|)
  {
    hide Next, Opens, TableValid, NeverOpened, PeerSends, InStep, HandedUp;
    NextKeepsTable(cfg, e, Arrives(syn, newRto, true, app), es[0]);
    OpenedInStep(cfg, e, Arrives(syn, newRto, true, app), es[0], i, syn.seqno);
    DeliveryInASlot(cfg, es, evs, i, syn.seqno, stream);
  }

  /** The same for a slot that `uip_connect` opens, `isn` being the number of the peer's SYN-ACK. */
  lemma DeliveryOnAnOpening(cfg: Config, e: Engine, rip: U32, rport: U16, i: nat, isn: U32,
                            es: seq<Engine>, evs: seq<Event>, stream: seq<Byte>)
    requires cfg.Valid() && TableValid(cfg, e) && IsRun(cfg, es, evs)
    requires Opens(e, Connects(rip, rport), i) && i < |e.conns|
    requires Next(cfg, e, Connects(rip, rport), es[0])
    requires NeverOpened(es, evs, i)
    requires forall k :: 0 <= k < |es| ==> |es[k].conns| == |e.conns|
    requires PeerSends(evs, es[0].conns[i], isn, stream) && |stream| < TWO32
    ensures HandedUp(cfg, es, evs, i) <= stream
    ensures var c := es[|evs|].conns[i];
      c.state.SynRcvd? || c.state.Established? ==> c.rcvNxt == Add(isn, 1 + |HandedUp(cfg, es, evs, i)|)
  {
    hide Next, Opens, TableValid, NeverOpened, PeerSends, InStep, HandedUp;
    NextKeepsTable(cfg, e, Connects(rip, rport), es[0]);
    OpenedInStep(cfg, e, Connects(rip, rport), es[0], i, isn);
    DeliveryInASlot(cfg, es, evs, i, isn, stream);
  }

  // ---------- Sending and time-outs on the table ----------

  /**
   * Stop-and-wait for the whole engine: as long as no segment with the connection's ends acknowledges
   * the outstanding data, every data segment sent on its slot is that one segment again.
   */
  lemma StopAndWaitOnATable(cfg: Config, es: seq<Engine>, evs: seq<Event>, i: nat)
    requires cfg.Valid() && IsRun(cfg, es, evs) && NeverOpened(es, evs, i) && TableValid(cfg, es[0])
    requires forall k :: 0 <= k < |es| ==> i < |es[k].conns|
    requires es[0].conns[i].state.Established? && es[0].conns[i].len > 0
    requires var c := es[0].conns[i];
      forall ev :: ev in evs && ev.Arrives? && CarriesEnds(ev.seg, c) ==>
        !(ev.seg.bits.ack && ev.seg.ackno == Add(c.sndNxt, c.len))
    ensures forall e :: e in SentOn(cfg, es, evs, i) && IsDataSegment(e) ==>
      e.seqno == es[0].conns[i].sndNxt && e.len == es[0].conns[i].len
  {
    hide Next, NeverOpened, TableValid, Share, SentOn, Emitted;
    ShareCarriesEnds(cfg, es, evs, i);
    SlotRunsAlone(cfg, es, evs, i);
    SlotIsCoupled(cfg, es[0], i);
    StopAndWait(cfg, es[0].conns[i], Share(es, evs, i));
  }

  function TimerCalls(evs: seq<Event>, i: nat): nat
    decreases |evs|
  {
    if evs == [] then 0 else (if evs[0].TimerFor? && evs[0].slot == i then 1 else 0) + TimerCalls(evs[1..], i)
  }

  lemma {:induction false} SharedTicks(es: seq<Engine>, evs: seq<Event>, i: nat)
    requires |es| == |evs| + 1
    ensures TickCount(Share(es, evs, i)) == TimerCalls(evs, i)
    decreases |evs|
  {
    if evs != [] {
      SharedTicks(es[1..], evs[1..], i);
      var rest := Share(es[1..], evs[1..], i);
      match InputFor(es[0], evs[0], i)
      case None =>
      case Some(input) => assert ([input] + rest)[1..] == rest;
    }
  }

  /**
   * A peer that falls silent, whatever happens to the other connections: its slot is closed from the
   * TicksLeft-th timer call for it on, and not before.
   */
  lemma SilentPeerOnATable(cfg: Config, es: seq<Engine>, evs: seq<Event>, i: nat)
    requires cfg.Valid() && IsRun(cfg, es, evs) && NeverOpened(es, evs, i) && TableValid(cfg, es[0])
    requires forall k :: 0 <= k < |es| ==> i < |es[k].conns|
    requires Waiting(es[0].conns[i])
    requires forall ev :: ev in evs && ev.Arrives? ==> !CarriesEnds(ev.seg, es[0].conns[i])
    ensures es[|evs|].conns[i].state.Closed? <==> TimerCalls(evs, i) >= TicksLeft(cfg, es[0].conns[i])
  {
    hide Next, NeverOpened, TableValid, Share, TicksLeft;
    ShareCarriesEnds(cfg, es, evs, i);
    SlotRunsAlone(cfg, es, evs, i);
    SlotIsCoupled(cfg, es[0], i);
    SharedTicks(es, evs, i);
    SilentRun(cfg, es[0].conns[i], Share(es, evs, i));
  }

  // ---------- Acknowledgements on the table ----------

  lemma {:induction false} EmittedAt(cfg: Config, c: Conn, run: seq<Input>, k: nat)
    requires cfg.Valid() && k < |run|
    ensures |Emitted(cfg, c, run)| == |run|
    ensures Emitted(cfg, c, run)[k] == ConnStep(cfg, ConnRun(cfg, c, run[..k]), run[k]).emit
    decreases |run|
  {
    hide ConnStep;
    var c' := ConnStep(cfg, c, run[0]).conn;
    if k > 0 {
      EmittedAt(cfg, c', run[1..], k - 1);
      assert run[..k][0] == run[0] && run[..k][1..] == run[1..][..k - 1];
    } else if |run| > 1 {
      EmittedAt(cfg, c', run[1..], 0);
    }
  }

  /** Every FIN in the run that carries the ends of `c` follows the last byte of the stream. */
  ghost predicate FinsEndStream(evs: seq<Event>, c: Conn, isn: U32, stream: seq<Byte>) {
    forall ev :: ev in evs && ev.Arrives? && CarriesEnds(ev.seg, c) ==> FinEndsStream(ev.seg, isn, stream)
  }

  /**
   * On a slot of the table, whatever happens elsewhere: the k-th answer acknowledges the peer's SYN, the
   * bytes taken by then, never more than its stream, and the FIN if it has been taken, behind all of it.
   */
  lemma AcksOnATable(cfg: Config, es: seq<Engine>, evs: seq<Event>, i: nat, isn: U32, stream: seq<Byte>, k: nat)
    requires cfg.Valid() && IsRun(cfg, es, evs) && TableValid(cfg, es[0]) && NeverOpened(es, evs, i)
    requires forall k :: 0 <= k < |es| ==> i < |es[k].conns|
    requires PeerSends(evs, es[0].conns[i], isn, stream) && FinsEndStream(evs, es[0].conns[i], isn, stream)
    requires |stream| < TWO32 && InBooks(es[0].conns[i], isn, stream, 0, false) && k < |Share(es, evs, i)|
    ensures var c, share := es[0].conns[i], Share(es, evs, i);
      var taken, fin := BytesTakenIn(cfg, c, share[..k + 1]), FinTakenIn(cfg, c, share[..k + 1]);
      && |SentOn(cfg, es, evs, i)| == |share| && InStream(stream, taken, fin)
      && (Speaks(ConnRun(cfg, c, share[..k]), share[k], SentOn(cfg, es, evs, i)[k]) ==>
            SentOn(cfg, es, evs, i)[k].ackno == Add(Add(isn, 1), taken + FinBit(fin)))
  {
    hide ConnRun, ConnStep, Next, TableValid, NeverOpened, PeerSends, AllFromPeer, FinEndsStream;
    hide SentOn, Emitted, Share, BytesTakenIn, FinTakenIn;
    var c, share := es[0].conns[i], Share(es, evs, i);
    SlotRunsAlone(cfg, es, evs, i);
    SlotIsCoupled(cfg, es[0], i);
    ShareIsFromPeer(cfg, es, evs, i, isn, stream);
    ShareCarriesEnds(cfg, es, evs, i);
    EmittedAt(cfg, c, share, k);
    EveryAckCounts(cfg, c, share, isn, stream, 0, false, k);
  }
}
