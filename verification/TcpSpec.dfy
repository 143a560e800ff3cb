/**
 What one call of the TCP engine does to one connection, as functions on values: the timer,
 poll and segment-input parts of `uip_process` in src/net/uip.c. Each function returns the new
 connection record, the application callbacks that were made and the segment to send.
 */
module TcpSpec {
  import opened Octets

  datatype TcpState =
    | Closed | SynRcvd | SynSent | Established
    | FinWait1 | FinWait2 | Closing | TimeWait | LastAck

  /** The bits of `uip_flags`. */
  datatype UipFlag = AckData | NewData | Rexmit | Poll | Close | Abort | Connected | TimedOut

  /** The compile-time parameters, which must fit the 8- and 16-bit fields they are stored in. */
  datatype Config = Config(rto: nat, maxRtx: nat, maxSynRtx: nat, timeWaitTimeout: nat, tcpMss: nat) {
    predicate Valid() {
      rto * 16 < 0x100 && maxRtx < 0x100 && maxSynRtx < 0x100 && timeWaitTimeout < 0x100 && tcpMss < 0x1_0000
    }

    /** `UIP_RTO << min(nrtx, 4)`. */
    function Backoff(nrtx: nat): (t: nat)
      requires Valid()
      ensures t < 0x100
    {
      match nrtx
      case 0 => rto
      case 1 => rto * 2
      case 2 => rto * 4
      case 3 => rto * 8
      case _ => rto * 16
    }
  }

  /** `struct uip_conn`; `stopped` is the UIP_STOPPED bit that shares a byte with the state. */
  datatype Conn = Conn(
    state: TcpState, stopped: bool,
    lport: U16, rport: U16, rip: U32,
    rcvNxt: U32, sndNxt: U32,
    len: U16, mss: U16, initialMss: U16,
    rto: Byte, timer: Byte, nrtx: Byte)
  {
    /** An unmasked comparison `tcpstateflags == s`. */
    predicate Is(s: TcpState) {
      state == s && !stopped
    }

    /** An assignment `tcpstateflags = s`, which also clears the stopped bit. */
    function Enter(s: TcpState): Conn {
      this.(state := s, stopped := false)
    }
  }

  // ---------- Segments ----------

  datatype Bits = Bits(fin: bool, syn: bool, rst: bool, psh: bool, ack: bool)

  const FINACK := Bits(true, false, false, false, true)
  const SYNONLY := Bits(false, true, false, false, false)
  const SYNACK := Bits(false, true, false, false, true)
  const RSTACK := Bits(false, false, true, false, true)
  const PSHACK := Bits(false, false, false, true, true)
  const ACKONLY := Bits(false, false, false, false, true)

  type Payload = s: seq<Byte> | |s| <= 0xffff - 40

  /** A parsed TCP segment with URG clear; `mss` is the MSS option if one is present. */
  datatype Segment = Segment(
    srcip: U32, srcport: U16, destport: U16, seqno: U32, ackno: U32,
    bits: Bits, wnd: U16, payload: Payload, mss: Option<U16>)

  /** The window field of a reply: the receive window, zero, or left as it was received. */
  datatype Window = Open | Zero | Echoed

  datatype Emit =
    | Drop
    | Send(srcport: U16, destip: U32, destport: U16, seqno: U32, ackno: U32,
           bits: Bits, len: U16, wnd: Window, mssOption: bool)

  // ---------- The application ----------

  /** What the application may do from a callback, any number of times in any order. */
  datatype AppCall = SendData(n: int) | CloseConn | AbortConn | Stop | Restart

  /** The application's behaviour in one call of the engine, by the state the callback is made in. */
  datatype App = App(established: seq<AppCall>, elsewhere: seq<AppCall>) {
    /** `uip_stop` sets a bit in the state byte, so it is for ESTABLISHED connections only. */
    predicate Disciplined() {
      Stop !in elsewhere
    }
  }

  /** A callback as the application sees it; `newBytes` is what it may read under `uip_newdata()`. */
  datatype Callback = Callback(flags: set<UipFlag>, newBytes: seq<Byte>)

  /** The globals a callback can change. */
  datatype AppVars = AppVars(flags: set<UipFlag>, slen: U16, stopped: bool)

  function ApplyCall(v: AppVars, call: AppCall): AppVars {
    match call
    case SendData(n) => if n > 0 then v.(slen := n % 0x1_0000) else v
    case CloseConn => v.(flags := {Close})
    case AbortConn => v.(flags := {Abort})
    case Stop => v.(stopped := true)
    case Restart => v.(flags := v.flags + {NewData}, stopped := false)
  }

  function ApplyCalls(v: AppVars, calls: seq<AppCall>): AppVars
    decreases |calls|
  {
    if calls == [] then v else ApplyCalls(ApplyCall(v, calls[0]), calls[1..])
  }

  /** The application callback made on connection `c` with `flags` set. */
  function AppCallback(c: Conn, flags: set<UipFlag>, slen: U16, app: App): AppVars {
    ApplyCalls(AppVars(flags, slen, c.stopped), if c.state.Established? then app.established else app.elsewhere)
  }

  function FlagIf(b: bool, f: UipFlag): set<UipFlag> {
    if b then {f} else {}
  }

  // ---------- Sending ----------

  datatype Outcome = Outcome(conn: Conn, slen: U16, calls: seq<Callback>, emit: Emit)

  /** The header fields common to every segment of a connection, from the label `tcp_send` on. */
  function Emission(c: Conn, bits: Bits, len: U16, mssOption: bool): Emit {
    Send(c.lport, c.rip, c.rport, c.sndNxt, c.rcvNxt, bits, len, if c.stopped then Zero else Open, mssOption)
  }

  function PureAck(c: Conn): Emit {
    Emission(c, ACKONLY, 0, false)
  }

  /** The answer to a segment that fits no connection, from the label `reset` on. */
  function ResetReply(seg: Segment): Emit {
    if seg.bits.rst then Drop
    else Send(seg.destport, seg.srcip, seg.srcport, seg.ackno, Add(seg.seqno, 1), RSTACK, 0, Echoed, false)
  }

  /** The label `apprexmit`. */
  function AppRexmit(c: Conn, v: AppVars, calls: seq<Callback>): Outcome {
    Outcome(c, v.slen, calls,
            if v.slen > 0 && c.len > 0 then Emission(c, PSHACK, c.len, false)
            else if NewData in v.flags then PureAck(c)
            else Drop)
  }

  /** The label `appsend`. */
  function AppSend(c: Conn, v: AppVars, calls: seq<Callback>): Outcome {
    if Abort in v.flags then
      var c' := c.Enter(Closed);
      Outcome(c', 0, calls, Emission(c', RSTACK, 0, false))
    else if Close in v.flags then
      var c' := c.Enter(FinWait1).(len := 1, nrtx := 0);
      Outcome(c', 0, calls, Emission(c', FINACK, 0, false))
    else if v.slen > 0 then
      var len := if AckData in v.flags || c.len == 0
                 then if v.slen > c.mss then c.mss else v.slen
                 else c.len;
      AppRexmit(c.(len := len, nrtx := 0), v.(slen := len), calls)
    else
      AppRexmit(c.(nrtx := 0), v, calls)
  }

  /** A callback followed by `goto appsend`. */
  function CallAndSend(c: Conn, flags: set<UipFlag>, newBytes: seq<Byte>, slen: U16, app: App): Outcome {
    var v := AppCallback(c, flags, slen, app);
    AppSend(c.(stopped := v.stopped), v, [Callback(flags, newBytes)])
  }

  /** A callback whose requests are ignored, followed by sending `emit` or nothing. */
  function CallAndForget(c: Conn, flags: set<UipFlag>, newBytes: seq<Byte>, slen: U16, app: App): Outcome {
    var v := AppCallback(c, flags, slen, app);
    Outcome(c.(stopped := v.stopped), v.slen, [Callback(flags, newBytes)], Drop)
  }

  // ---------- uip_process(UIP_POLL_REQUEST) and uip_process(UIP_TIMER) ----------

  function PollStep(c: Conn, slen: U16, app: App): Outcome {
    if c.state.Established? && c.len == 0 then CallAndSend(c, {Poll}, [], slen, app)
    else Outcome(c, slen, [], Drop)
  }

  predicate GivesUp(cfg: Config, c: Conn) {
    c.nrtx == cfg.maxRtx || ((c.Is(SynSent) || c.Is(SynRcvd)) && c.nrtx == cfg.maxSynRtx)
  }

  function Retransmit(c: Conn, app: App): Outcome {
    match c.state
    case SynRcvd => Outcome(c, 0, [], Emission(c, SYNACK, 0, true))
    case SynSent => Outcome(c, 0, [], Emission(c, SYNONLY, 0, true))
    case Established =>
      var v := AppCallback(c, {Rexmit}, 0, app);
      AppRexmit(c.(stopped := v.stopped), v, [Callback({Rexmit}, [])])
    case FinWait1 => Outcome(c, 0, [], Emission(c, FINACK, 0, false))
    case Closing => Outcome(c, 0, [], Emission(c, FINACK, 0, false))
    case LastAck => Outcome(c, 0, [], Emission(c, FINACK, 0, false))
    case _ => Outcome(c, 0, [], Drop)
  }

  function TimerStep(cfg: Config, c: Conn, app: App): Outcome
    requires cfg.Valid()
  {
    if c.Is(TimeWait) || c.Is(FinWait2) then
      var c' := c.(timer := Add8(c.timer, 1));
      Outcome(if c'.timer == cfg.timeWaitTimeout then c'.Enter(Closed) else c', 0, [], Drop)
    else if c.Is(Closed) then
      Outcome(c, 0, [], Drop)
    else if c.len > 0 then
      if c.timer > 0 then
        Outcome(c.(timer := c.timer - 1), 0, [], Drop)
      else if GivesUp(cfg, c) then
        var o := CallAndForget(c.Enter(Closed).(timer := 0xff), {TimedOut}, [], 0, app);
        o.(emit := Emission(o.conn, RSTACK, 0, false))
      else
        Retransmit(c.(timer := cfg.Backoff(c.nrtx), nrtx := Add8(c.nrtx, 1)), app)
    else if c.state.Established? then
      CallAndSend(c, {Poll}, [], 0, app)
    else
      Outcome(c, 0, [], Drop)
  }

  // ---------- uip_process(UIP_DATA) on a matched connection, from the label `found` on ----------

  /** A segment that occupies sequence space but does not start at `rcv_nxt`. */
  predicate OutOfOrder(c: Conn, seg: Segment) {
    && !(c.state.SynSent? && seg.bits == SYNACK)
    && (|seg.payload| > 0 || seg.bits.syn || seg.bits.fin)
    && seg.seqno != c.rcvNxt
  }

  /** The segment acknowledges exactly the outstanding data. */
  predicate Acknowledges(c: Conn, seg: Segment) {
    seg.bits.ack && c.len > 0 && seg.ackno == Add(c.sndNxt, c.len)
  }

  /** The connection after acknowledgement processing; `newRto` is the RTT estimator's result. */
  function AfterAck(c: Conn, seg: Segment, newRto: Byte): Conn {
    if Acknowledges(c, seg) then
      var rto := if c.nrtx == 0 then newRto else c.rto;
      c.(sndNxt := seg.ackno, rto := rto, timer := rto, len := 0)
    else c
  }

  function AcceptPayload(c: Conn, seg: Segment): Conn {
    c.(rcvNxt := Add(c.rcvNxt, |seg.payload|))
  }

  function MssFrom(cfg: Config, c: Conn, option: Option<U16>): Conn
    requires cfg.Valid()
  {
    match option
    case None => c
    case Some(m) =>
      var mss := if m > cfg.tcpMss then cfg.tcpMss else m;
      c.(mss := mss, initialMss := mss)
  }

  function ReceiveSynRcvd(c: Conn, seg: Segment, slen: U16, acked: bool, app: App): Outcome {
    if !acked then Outcome(c, slen, [], Drop)
    else
      var flags := {Connected} + FlagIf(|seg.payload| > 0, NewData);
      CallAndSend(AcceptPayload(c.Enter(Established).(len := 0), seg), flags, seg.payload, 0, app)
  }

  function ReceiveSynSent(cfg: Config, c: Conn, seg: Segment, slen: U16, acked: bool, app: App): Outcome
    requires cfg.Valid()
  {
    if acked && seg.bits == SYNACK then
      var c' := MssFrom(cfg, c, seg.mss).Enter(Established).(rcvNxt := Add(seg.seqno, 1), len := 0);
      CallAndSend(c', {Connected, NewData}, [], 0, app)
    else
      var o := CallAndForget(c, {Abort}, [], slen, app);
      o.(conn := o.conn.Enter(Closed), emit := ResetReply(seg))
  }

  function ReceiveEstablished(c: Conn, seg: Segment, slen: U16, acked: bool, app: App): Outcome {
    var accept := |seg.payload| > 0 && !c.stopped;
    if seg.bits.fin && !c.stopped then
      if c.len > 0 then Outcome(c, slen, [], Drop)
      else
        var c1 := c.(rcvNxt := Add(c.rcvNxt, 1 + |seg.payload|));
        var flags := FlagIf(acked, AckData) + {Close} + FlagIf(accept, NewData);
        var o := CallAndForget(c1, flags, if accept then seg.payload else [], slen, app);
        var c2 := o.conn.Enter(LastAck).(len := 1, nrtx := 0);
        o.(conn := c2, emit := Emission(c2, FINACK, 0, false))
    else
      var c1 := if accept then AcceptPayload(c, seg) else c;
      var c2 := c1.(mss := if seg.wnd > c1.initialMss || seg.wnd == 0 then c1.initialMss else seg.wnd);
      var flags := FlagIf(acked, AckData) + FlagIf(accept, NewData);
      if acked || accept then CallAndSend(c2, flags, if accept then seg.payload else [], 0, app)
      else Outcome(c2, slen, [], Drop)
  }

  function ReceiveFinWait1(c: Conn, seg: Segment, slen: U16, acked: bool, app: App): Outcome {
    var c1 := AcceptPayload(c, seg);
    if seg.bits.fin then
      var c2 := if acked then c1.Enter(TimeWait).(timer := 0, len := 0) else c1.Enter(Closing);
      var o := CallAndForget(c2.(rcvNxt := Add(c2.rcvNxt, 1)), {Close}, [], slen, app);
      o.(emit := PureAck(o.conn))
    else if acked then Outcome(c1.Enter(FinWait2).(len := 0), slen, [], Drop)
    else if |seg.payload| > 0 then Outcome(c1, slen, [], PureAck(c1))
    else Outcome(c1, slen, [], Drop)
  }

  function ReceiveFinWait2(c: Conn, seg: Segment, slen: U16, app: App): Outcome {
    var c1 := AcceptPayload(c, seg);
    if seg.bits.fin then
      var c2 := c1.Enter(TimeWait).(timer := 0, rcvNxt := Add(c1.rcvNxt, 1));
      var o := CallAndForget(c2, {Close}, [], slen, app);
      o.(emit := PureAck(o.conn))
    else if |seg.payload| > 0 then Outcome(c1, slen, [], PureAck(c1))
    else Outcome(c1, slen, [], Drop)
  }

  function Receive(cfg: Config, c: Conn, seg: Segment, slen: U16, newRto: Byte, app: App): Outcome
    requires cfg.Valid()
  {
    if seg.bits.rst then CallAndForget(c.Enter(Closed), {Abort}, [], slen, app)
    else if OutOfOrder(c, seg) then Outcome(c, slen, [], PureAck(c))
    else
      var acked := Acknowledges(c, seg);
      var c1 := AfterAck(c, seg, newRto);
      match c.state
      case SynRcvd => ReceiveSynRcvd(c1, seg, slen, acked, app)
      case SynSent => ReceiveSynSent(cfg, c1, seg, slen, acked, app)
      case Established => ReceiveEstablished(c1, seg, slen, acked, app)
      case LastAck =>
        if acked then CallAndForget(c1.Enter(Closed), {Close}, [], slen, app)
        else Outcome(c1, slen, [], Drop)
      case FinWait1 => ReceiveFinWait1(c1, seg, slen, acked, app)
      case FinWait2 => ReceiveFinWait2(c1, seg, slen, app)
      case TimeWait => Outcome(c1, slen, [], PureAck(c1))
      case Closing => Outcome(if acked then c1.Enter(TimeWait).(timer := 0) else c1, slen, [], Drop)
      case Closed => Outcome(c1, slen, [], Drop)
  }

  // ---------- Opening a connection in a free slot ----------

  /** The record a SYN for a listening port is given, from the label `found_listen` on. */
  function PassiveOpen(cfg: Config, slot: Conn, seg: Segment, iss: U32): Conn
    requires cfg.Valid()
  {
    MssFrom(cfg,
            slot.Enter(SynRcvd).(
              lport := seg.destport, rport := seg.srcport, rip := seg.srcip,
              rcvNxt := Add(seg.seqno, 1), sndNxt := iss, len := 1,
              rto := cfg.rto, timer := cfg.rto, nrtx := 0),
            seg.mss)
  }

  /** The record `uip_connect` fills in; `lport` is in network order. */
  function ActiveOpen(cfg: Config, slot: Conn, lport: U16, rip: U32, rport: U16, iss: U32): Conn
    requires cfg.Valid()
  {
    slot.Enter(SynSent).(
      lport := lport, rport := rport, rip := rip, sndNxt := iss, len := 1,
      mss := cfg.tcpMss, initialMss := cfg.tcpMss,
      rto := cfg.rto, timer := 1, nrtx := 0)
  }

  // ---------- One connection over a whole run ----------

  /** Everything that can happen to a connection; `slen` is whatever `uip_slen` was left at. */
  datatype Input =
    | Tick(app: App)
    | PollRequest(slen: U16, app: App)
    | Data(seg: Segment, slen: U16, newRto: Byte, app: App)

  /** One input; segments are never matched to a closed connection. */
  function ConnStep(cfg: Config, c: Conn, i: Input): Outcome
    requires cfg.Valid()
  {
    match i
    case Tick(app) => TimerStep(cfg, c, app)
    case PollRequest(slen, app) => PollStep(c, slen, app)
    case Data(seg, slen, newRto, app) =>
      if c.Is(Closed) then Outcome(c, slen, [], Drop) else Receive(cfg, c, seg, slen, newRto, app)
  }

  function ConnRun(cfg: Config, c: Conn, run: seq<Input>): Conn
    requires cfg.Valid()
    decreases |run|
  {
    if run == [] then c else ConnRun(cfg, ConnStep(cfg, c, run[0]).conn, run[1..])
  }

  predicate Disciplined(run: seq<Input>) {
    forall i :: i in run ==> i.app.Disciplined()
  }
}
