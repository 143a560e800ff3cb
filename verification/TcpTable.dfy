/**
 * The fixed connection table: which slot a segment or an opening is given, which local port an
 * opening gets, and what every run of the whole engine keeps.
 */
module TcpTable {
  import opened Octets
  import opened TcpSpec
  import opened TcpConnection
  import opened Sets

  // ---------- Slots ----------

  /** The demultiplexing test. */
  predicate Matches(c: Conn, seg: Segment) {
    !c.Is(Closed) && seg.destport == c.lport && seg.srcport == c.rport && seg.srcip == c.rip
  }

  /** The first matching slot from `k` on, or the table length. */
  function Demux(conns: seq<Conn>, seg: Segment, k: nat): (i: nat)
    requires k <= |conns|
    ensures k <= i <= |conns|
    ensures i < |conns| ==> Matches(conns[i], seg)
    ensures forall j :: k <= j < i ==> !Matches(conns[j], seg)
    decreases |conns| - k
  {
    if k < |conns| && !Matches(conns[k], seg) then Demux(conns, seg, k + 1) else k
  }

  /** The search for a slot to open: the scan from `k` on, `best` being the candidate so far. */
  function ChooseSlot(conns: seq<Conn>, k: nat, best: int): int
    requires k <= |conns| && -1 <= best < k
    decreases |conns| - k
  {
    if k == |conns| then best
    else if conns[k].Is(Closed) then k
    else if conns[k].Is(TimeWait) && (best == -1 || conns[k].timer > conns[best].timer) then
      ChooseSlot(conns, k + 1, k)
    else ChooseSlot(conns, k + 1, best)
  }

  predicate Reusable(c: Conn) {
    c.Is(Closed) || c.Is(TimeWait)
  }

  /** A slot that may be taken: the first closed one, else the first of the oldest in TIME_WAIT. */
  predicate IsRightSlot(conns: seq<Conn>, i: nat) {
    && i < |conns|
    && if conns[i].Is(Closed) then forall j :: 0 <= j < i ==> !conns[j].Is(Closed)
       else
         && conns[i].Is(TimeWait)
         && (forall j :: 0 <= j < |conns| ==> !conns[j].Is(Closed))
         && (forall j :: 0 <= j < |conns| && conns[j].Is(TimeWait) ==>
               conns[j].timer < conns[i].timer || (conns[j].timer == conns[i].timer && i <= j))
  }

  lemma {:induction false} ChooseSlotScans(conns: seq<Conn>, k: nat, best: int)
    requires k <= |conns| && -1 <= best < k
    requires forall j :: 0 <= j < k ==> !conns[j].Is(Closed)
    requires best == -1 ==> forall j :: 0 <= j < k ==> !conns[j].Is(TimeWait)
    requires best >= 0 ==> conns[best].Is(TimeWait) && forall j :: 0 <= j < k && conns[j].Is(TimeWait) ==>
      conns[j].timer < conns[best].timer || (conns[j].timer == conns[best].timer && best <= j)
    ensures var r := ChooseSlot(conns, k, best);
      && -1 <= r < |conns|
      && (r == -1 ==> forall j :: 0 <= j < |conns| ==> !Reusable(conns[j]))
      && (r >= 0 ==> IsRightSlot(conns, r))
    decreases |conns| - k
  {
    if k < |conns| && !conns[k].Is(Closed) {
      if conns[k].Is(TimeWait) && (best == -1 || conns[k].timer > conns[best].timer) {
        ChooseSlotScans(conns, k + 1, k);
      } else {
        ChooseSlotScans(conns, k + 1, best);
      }
    }
  }

  /** A live connection is never taken, and a slot is found whenever there is one to take. */
  lemma SlotChoice(conns: seq<Conn>)
    ensures var r := ChooseSlot(conns, 0, -1);
      if r == -1 then forall j :: 0 <= j < |conns| ==> !Reusable(conns[j])
      else 0 <= r && IsRightSlot(conns, r)
  {
    ChooseSlotScans(conns, 0, -1);
  }

  // ---------- Local ports ----------

  function NextPort(l: U16): U16 {
    var l' := (l + 1) % 0x1_0000;
    if l' >= 32000 then 4096 else l'
  }

  function PortsAhead(l: U16, k: nat): U16 {
    if k == 0 then l else NextPort(PortsAhead(l, k - 1))
  }

  /** `p` is the first port after `l`, in the search order, that is not in use. */
  ghost predicate IsNextFree(used: set<U16>, l: U16, p: U16) {
    exists k :: FreeAfter(used, l, p, k)
  }

  ghost predicate FreeAfter(used: set<U16>, l: U16, p: U16, k: nat) {
    && k >= 1 && p == PortsAhead(l, k) && p !in used
    && forall j :: 1 <= j < k ==> PortsAhead(l, j) in used
  }

  /** The local ports, in host order, of the connections that are not closed. */
  function UsedPorts(conns: seq<Conn>): set<U16> {
    set i | 0 <= i < |conns| && !conns[i].Is(Closed) :: Htons(conns[i].lport)
  }

  lemma {:induction false} UsedPortsAreFew(conns: seq<Conn>)
    ensures |UsedPorts(conns)| <= |conns|
    decreases |conns|
  {
    if conns == [] {
      assert UsedPorts(conns) == {};
    } else {
      var n := |conns| - 1;
      UsedPortsAreFew(conns[..n]);
      assert UsedPorts(conns) <= UsedPorts(conns[..n]) + {Htons(conns[n].lport)};
      SubsetSize(UsedPorts(conns), UsedPorts(conns[..n]) + {Htons(conns[n].lport)});
    }
  }

  /** Fewer ports are in use than the range has, so one is free. */
  lemma {:induction false} FreePortExists(used: set<U16>, lo: U16) returns (f: U16)
    requires lo < 32000 && |used| < 32000 - lo
    ensures lo <= f < 32000 && f !in used
    decreases 32000 - lo
  {
    if lo !in used {
      f := lo;
    } else {
      assert |used - {lo}| == |used| - 1;
      f := FreePortExists(used - {lo}, lo + 1);
    }
  }

  /** How many steps of the search lead from `l` to `f`. */
  function PortDistance(l: U16, f: U16): nat
    requires l < 32000 && 4096 <= f < 32000
  {
    if l < f then f - l else 27904 - l + f
  }

  /** The search has made `tries` steps from `l0`, the last one to `l`, and all earlier ports are taken. */
  ghost predicate Searched(used: set<U16>, l0: U16, l: U16, tries: nat) {
    && tries >= 1 && l < 32000 && l == PortsAhead(l0, tries)
    && forall j :: 1 <= j < tries ==> PortsAhead(l0, j) in used
  }

  lemma SearchStarts(used: set<U16>, l0: U16)
    ensures Searched(used, l0, NextPort(l0), 1) && NextPort(l0) < 32000
  {
    assert PortsAhead(l0, 0) == l0;
  }

  /** Each failed step brings the search closer to any free port: the loop terminates. */
  lemma SearchComesCloser(used: set<U16>, l0: U16, l: U16, tries: nat, f: U16)
    requires Searched(used, l0, l, tries) && l in used
    requires 4096 <= f < 32000 && f !in used
    ensures Searched(used, l0, NextPort(l), tries + 1) && NextPort(l) < 32000
    ensures NextPort(l) in used ==> PortDistance(NextPort(l), f) < PortDistance(l, f)
  {
  }

  lemma SearchEnds(used: set<U16>, l0: U16, l: U16, tries: nat)
    requires Searched(used, l0, l, tries) && l !in used
    ensures IsNextFree(used, l0, l)
  {
    assert FreeAfter(used, l0, l, tries);
  }

  // ---------- The engine ----------

  datatype Engine = Engine(conns: seq<Conn>, listen: seq<U16>, iss: U32, lastport: U16, slen: U16)

  datatype Event =
    | TimerFor(slot: nat, app: App)
    | PollFor(slot: nat, app: App)
    | Arrives(seg: Segment, newRto: Byte, permitted: bool, app: App)
    | Connects(rip: U32, rport: U16)

  /** The slot a SYN opens, or -1 when the segment opens none. */
  function AcceptingSlot(e: Engine, seg: Segment, permitted: bool): int {
    if Demux(e.conns, seg, 0) == |e.conns| && seg.bits == SYNONLY && seg.destport in e.listen && permitted
    then ChooseSlot(e.conns, 0, -1)
    else -1
  }

  /** The reply to a segment that matches no connection. */
  function UnmatchedReply(cfg: Config, e: Engine, seg: Segment, permitted: bool): Emit
    requires cfg.Valid()
  {
    if seg.bits != SYNONLY || seg.destport !in e.listen then ResetReply(seg)
    else
      var s := AcceptingSlot(e, seg, permitted);
      if 0 <= s < |e.conns| then Emission(PassiveOpen(cfg, e.conns[s], seg, e.iss), SYNACK, 0, true) else Drop
  }

  /** The effect of an event on the table: the slot it concerns, if any, and that slot's new record. */
  ghost predicate Next(cfg: Config, e: Engine, ev: Event, e': Engine)
    requires cfg.Valid()
  {
    match ev
    case TimerFor(i, app) =>
      i < |e.conns| &&
      var o := TimerStep(cfg, e.conns[i], app);
      e' == e.(conns := e.conns[i := o.conn], slen := o.slen, iss := Add(e.iss, 1))
    case PollFor(i, app) =>
      i < |e.conns| &&
      var o := PollStep(e.conns[i], e.slen, app);
      e' == e.(conns := e.conns[i := o.conn], slen := o.slen)
    case Arrives(seg, newRto, permitted, app) =>
      var i := Demux(e.conns, seg, 0);
      if i < |e.conns| then
        var o := Receive(cfg, e.conns[i], seg, e.slen, newRto, app);
        e' == e.(conns := e.conns[i := o.conn], slen := o.slen)
      else
        var s := AcceptingSlot(e, seg, permitted);
        e' == if 0 <= s < |e.conns| then e.(conns := e.conns[s := PassiveOpen(cfg, e.conns[s], seg, e.iss)]) else e
    case Connects(rip, rport) =>
      && IsNextFree(UsedPorts(e.conns), e.lastport, e'.lastport)
      && var s := ChooseSlot(e.conns, 0, -1);
         e' == e.(lastport := e'.lastport, conns :=
           if 0 <= s < |e.conns|
           then e.conns[s := ActiveOpen(cfg, e.conns[s], Htons(e'.lastport), rip, rport, e.iss)]
           else e.conns)
  }

  predicate SameEnds(c: Conn, d: Conn) {
    c.lport == d.lport && c.rport == d.rport && c.rip == d.rip
  }

  /** No two connections that are not closed have the same ports and remote address. */
  predicate Unique(conns: seq<Conn>) {
    forall i, j :: 0 <= i < j < |conns| && !conns[i].state.Closed? && !conns[j].state.Closed? ==>
      !SameEnds(conns[i], conns[j])
  }

  predicate TableValid(cfg: Config, e: Engine) {
    && (forall i :: 0 <= i < |e.conns| ==> Coupled(cfg, e.conns[i]))
    && Unique(e.conns)
  }

  predicate EventDisciplined(ev: Event) {
    ev.Connects? || ev.app.Disciplined()
  }

  /** A call of the engine never changes whose connection it is, and never reopens a closed one. */
  lemma StepKeepsEnds(cfg: Config, c: Conn, i: Input)
    requires cfg.Valid() && Coupled(cfg, c) && i.app.Disciplined()
    ensures var c' := ConnStep(cfg, c, i).conn;
      SameEnds(c, c') && (c.state.Closed? ==> c'.state.Closed?)
  {
    hide CallAndSend, Retransmit;
    match i
    case Tick(app) => EndsKeptBySending(c, {Poll}, [], 0, app); EndsKeptByRetransmission(c, cfg, app);
    case PollRequest(slen, app) => EndsKeptBySending(c, {Poll}, [], slen, app);
    case Data(seg, slen, newRto, app) => ReceiveKeepsEnds(cfg, c, seg, slen, newRto, app); hide Receive;
  }

  lemma EndsKeptBySending(c: Conn, flags: set<UipFlag>, newBytes: seq<Byte>, slen: U16, app: App)
    ensures SameEnds(c, CallAndSend(c, flags, newBytes, slen, app).conn)
  {
  }

  lemma EndsKeptByRetransmission(c: Conn, cfg: Config, app: App)
    requires cfg.Valid()
    ensures SameEnds(c, Retransmit(c.(timer := cfg.Backoff(c.nrtx), nrtx := Add8(c.nrtx, 1)), app).conn)
  {
  }

  lemma ReceiveKeepsEnds(cfg: Config, c: Conn, seg: Segment, slen: U16, newRto: Byte, app: App)
    requires cfg.Valid()
    ensures SameEnds(c, Receive(cfg, c, seg, slen, newRto, app).conn)
  {
    hide CallAndSend;
    var c1 := AfterAck(c, seg, newRto);
    match c.state
    case SynRcvd =>
      EndsKeptBySending(AcceptPayload(c1.Enter(Established).(len := 0), seg),
                        {Connected} + FlagIf(|seg.payload| > 0, NewData), seg.payload, 0, app);
    case SynSent =>
      EndsKeptBySending(MssFrom(cfg, c1, seg.mss).Enter(Established).(rcvNxt := Add(seg.seqno, 1), len := 0),
                        {Connected, NewData}, [], 0, app);
    case Established =>
      var accept := |seg.payload| > 0 && !c1.stopped;
      var c2 := if accept then AcceptPayload(c1, seg) else c1;
      EndsKeptBySending(c2.(mss := if seg.wnd > c2.initialMss || seg.wnd == 0 then c2.initialMss else seg.wnd),
                        FlagIf(Acknowledges(c, seg), AckData) + FlagIf(accept, NewData),
                        if accept then seg.payload else [], 0, app);
    case _ =>
  }

  /** An update of one slot that keeps its ends, or gives it ends no live connection has, keeps the table valid. */
  lemma UpdateKeepsTable(cfg: Config, e: Engine, i: nat, c': Conn)
    requires TableValid(cfg, e) && i < |e.conns| && Coupled(cfg, c')
    requires forall j :: 0 <= j < |e.conns| && j != i && !e.conns[j].state.Closed? && !c'.state.Closed? ==>
      !SameEnds(e.conns[j], c')
    ensures TableValid(cfg, e.(conns := e.conns[i := c']))
  {
  }

  /** A port fresh for the search is fresh for the connections. */
  lemma FreshPortIsFresh(conns: seq<Conn>, p: U16)
    requires p !in UsedPorts(conns)
    ensures forall j :: 0 <= j < |conns| && !conns[j].state.Closed? ==> conns[j].lport != Htons(p)
  {
    HtonsInvolution(p);
    forall j | 0 <= j < |conns| && !conns[j].state.Closed?
      ensures conns[j].lport != Htons(p)
    {
      assert Htons(conns[j].lport) in UsedPorts(conns);
    }
  }

  /** The input an event is for the connection in slot `i`, if it concerns that slot. */
  function InputFor(e: Engine, ev: Event, i: nat): Option<Input> {
    match ev
    case TimerFor(s, app) => if s == i then Some(Tick(app)) else None
    case PollFor(s, app) => if s == i then Some(PollRequest(e.slen, app)) else None
    case Arrives(seg, newRto, _, app) =>
      if i < |e.conns| && Demux(e.conns, seg, 0) == i then Some(Data(seg, e.slen, newRto, app)) else None
    case Connects(_, _) => None
  }

  /** The event makes a new connection in slot `i`. */
  predicate Opens(e: Engine, ev: Event, i: nat) {
    match ev
    case Arrives(seg, _, permitted, _) => AcceptingSlot(e, seg, permitted) == i
    case Connects(_, _) => ChooseSlot(e.conns, 0, -1) == i
    case _ => false
  }

  /** Every event gives each slot one input, or opens a connection in it, or leaves it alone. */
  lemma EventBySlot(cfg: Config, e: Engine, ev: Event, e': Engine, i: nat)
    requires cfg.Valid() && Next(cfg, e, ev, e') && i < |e.conns|
    ensures |e'.conns| == |e.conns|
    ensures Opens(e, ev, i) ==> InputFor(e, ev, i) == None && IsRightSlot(e.conns, i)
    ensures !Opens(e, ev, i) ==>
      match InputFor(e, ev, i)
      case None => e'.conns[i] == e.conns[i]
      case Some(input) => e'.conns[i] == ConnStep(cfg, e.conns[i], input).conn
  {
    hide TimerStep, PollStep, Receive, ChooseSlot;
    SlotChoice(e.conns);
  }

  lemma OpeningKeepsTable(cfg: Config, e: Engine, ev: Event, e': Engine)
    requires cfg.Valid() && TableValid(cfg, e) && Next(cfg, e, ev, e')
    requires ev.Connects? || (ev.Arrives? && Demux(e.conns, ev.seg, 0) == |e.conns|)
    ensures TableValid(cfg, e')
  {
    hide ChooseSlot;
    SlotChoice(e.conns);
    var s := if ev.Connects? then ChooseSlot(e.conns, 0, -1) else AcceptingSlot(e, ev.seg, ev.permitted);
    if s >= 0 {
      var syn := if ev.Arrives? then ev.seg else Segment(0, 0, 0, 0, 0, SYNONLY, 0, [], None);
      var lport := Htons(e'.lastport);
      var rip := if ev.Connects? then ev.rip else 0;
      var rport := if ev.Connects? then ev.rport else 0;
      OpenCoupled(cfg, e.conns[s], syn, e.iss, lport, rip, rport);
      if ev.Connects? {
        FreshPortIsFresh(e.conns, e'.lastport);
      }
      UpdateKeepsTable(cfg, e, s, e'.conns[s]);
    }
  }

  /** The main invariant of the table: the coupling in every slot, and no two connections alike. */
  lemma NextKeepsTable(cfg: Config, e: Engine, ev: Event, e': Engine)
    requires cfg.Valid() && TableValid(cfg, e) && EventDisciplined(ev) && Next(cfg, e, ev, e')
    ensures TableValid(cfg, e')
  {
    hide ConnStep;
    if ev.Connects? || (ev.Arrives? && Demux(e.conns, ev.seg, 0) == |e.conns|) {
      OpeningKeepsTable(cfg, e, ev, e');
    } else {
      var i := if ev.Arrives? then Demux(e.conns, ev.seg, 0) else ev.slot;
      var input := InputFor(e, ev, i).value;
      EventBySlot(cfg, e, ev, e', i);
      StepCoupled(cfg, e.conns[i], input);
      StepKeepsEnds(cfg, e.conns[i], input);
      UpdateKeepsTable(cfg, e, i, e'.conns[i]);
    }
  }

  /** `es` is a run of the engine on the events `evs`. */
  ghost predicate IsRun(cfg: Config, es: seq<Engine>, evs: seq<Event>)
    requires cfg.Valid()
  {
    && |es| == |evs| + 1
    && forall k :: 0 <= k < |evs| ==> Next(cfg, es[k], evs[k], es[k + 1]) && EventDisciplined(evs[k])
  }

  lemma {:induction false} RunKeepsTable(cfg: Config, es: seq<Engine>, evs: seq<Event>, k: nat)
    requires cfg.Valid() && IsRun(cfg, es, evs) && TableValid(cfg, es[0]) && k < |es|
    ensures TableValid(cfg, es[k]) && |es[k].conns| == |es[0].conns|
    decreases k
  {
    if k > 0 {
      RunKeepsTable(cfg, es, evs, k - 1);
      NextKeepsTable(cfg, es[k - 1], evs[k - 1], es[k]);
    }
  }

  /** The table after `uip_init`: static memory is zero, every slot is closed. */
  predicate Initial(e: Engine) {
    forall i :: 0 <= i < |e.conns| ==> e.conns[i] == Conn(Closed, false, 0, 0, 0, 0, 0, 0, 0, 0, 0, 0, 0)
  }

  /** Every table that a run from `uip_init` reaches. */
  lemma ReachableTablesAreValid(cfg: Config, es: seq<Engine>, evs: seq<Event>, k: nat)
    requires cfg.Valid() && IsRun(cfg, es, evs) && Initial(es[0]) && k < |es|
    ensures TableValid(cfg, es[k])
  {
    RunKeepsTable(cfg, es, evs, k);
  }

  /** Hence at most one slot matches a segment: demultiplexing finds the connection, not just a first one. */
  lemma DemuxIsTheConnection(cfg: Config, e: Engine, seg: Segment, i: nat)
    requires TableValid(cfg, e) && i < |e.conns| && Matches(e.conns[i], seg)
    ensures Demux(e.conns, seg, 0) == i
  {
    var d := Demux(e.conns, seg, 0);
    assert SameEnds(e.conns[d], e.conns[i]);
  }

  /** A slot follows the state diagram, or is reopened after it was closed or in TIME_WAIT. */
  lemma SlotsFollowDiagram(cfg: Config, e: Engine, ev: Event, e': Engine, i: nat)
    requires cfg.Valid() && TableValid(cfg, e) && EventDisciplined(ev) && Next(cfg, e, ev, e') && i < |e.conns|
    ensures |e'.conns| == |e.conns|
    ensures if Opens(e, ev, i) then Reusable(e.conns[i]) && e'.conns[i].state in {SynRcvd, SynSent}
            else match InputFor(e, ev, i)
              case None => e'.conns[i] == e.conns[i]
              case Some(input) => e'.conns[i] == ConnStep(cfg, e.conns[i], input).conn
                                  && FollowsDiagram(e.conns[i].state, ConnStep(cfg, e.conns[i], input))
  {
    hide ConnStep, ChooseSlot;
    EventBySlot(cfg, e, ev, e', i);
    if !Opens(e, ev, i) && InputFor(e, ev, i).Some? {
      StepCoupled(cfg, e.conns[i], InputFor(e, ev, i).value);
    }
  }
}
