/** What the application is told, and what its requests lead to. */
module TcpCalls {
  import opened Octets
  import opened TcpSpec
  import opened TcpConnection
  import opened TcpTransfer
  import opened TcpTimeout
  import opened TcpAcks
  import opened TcpStops

  // ---------- What the application is told ----------

  /** The call reports `f` to the application. */
  predicate Reports(o: Outcome, f: UipFlag) {
    exists k :: k in o.calls && f in k.flags
  }

  /** The segment is looked at: it is not an RST, and if it takes sequence space it starts at `rcv_nxt`. */
  predicate InPlace(c: Conn, seg: Segment) {
    && !seg.bits.rst
    && ((seg.payload == [] && !seg.bits.syn && !seg.bits.fin)
        || seg.seqno == c.rcvNxt || (c.state.SynSent? && seg.bits == SYNACK))
  }

  /** It acknowledges all that is outstanding, and something is. */
  predicate NewAck(c: Conn, i: Input) {
    i.Data? && InPlace(c, i.seg) && i.seg.bits.ack && c.len > 0 && i.seg.ackno == Add(c.sndNxt, c.len)
  }

  lemma NewAckIsAccepted(c: Conn, i: Input)
    requires !c.Is(Closed)
    ensures NewAck(c, i) <==> Accepts(c, i)
  {
  }

  predicate Expires(cfg: Config, c: Conn, i: Input) {
    i.Tick? && !c.state.Closed? && c.len > 0 && c.timer == 0 && c.nrtx == Limit(cfg, c)
  }

  /** The occasions for each flag. */
  predicate Occasion(cfg: Config, c: Conn, i: Input, f: UipFlag) {
    match f
    case AckData => c.state.Established? && NewAck(c, i)
    case NewData => Answered(c, i) || (i.Data? && TcpTransfer.Open(c.state) && Takes(c, i.seg) && i.seg.payload != [])
    case Connected => Answered(c, i) || (c.state.SynRcvd? && NewAck(c, i))
    case Close => (i.Data? && TakesFin(c, i.seg)) || (c.state.LastAck? && NewAck(c, i))
    case Abort => i.Data? && !c.state.Closed? && (i.seg.bits.rst || (c.state.SynSent? && InPlace(c, i.seg) && !Answered(c, i)))
    case TimedOut => Expires(cfg, c, i)
    case Rexmit => i.Tick? && c.state.Established? && c.len > 0 && c.timer == 0 && c.nrtx < cfg.maxRtx
    case Poll => !i.Data? && c.state.Established? && c.len == 0
  }

  lemma CallAndSendCalls(c: Conn, flags: set<UipFlag>, newBytes: seq<Byte>, slen: U16, app: App)
    ensures CallAndSend(c, flags, newBytes, slen, app).calls == [Callback(flags, newBytes)]
  {
  }

  /** The callback's flags are those of the occasions, and there is one callback if there is an occasion. */
  ghost predicate ToldRightly(cfg: Config, c: Conn, i: Input, calls: seq<Callback>) {
    && |calls| <= 1
    && forall f :: (exists k :: k in calls && f in k.flags) <==> Occasion(cfg, c, i, f)
  }

  lemma SynIsTold(cfg: Config, c: Conn, seg: Segment, slen: U16, newRto: Byte, app: App)
    requires cfg.Valid() && Coupled(cfg, c) && (c.state.SynRcvd? || c.state.SynSent?)
    ensures ToldRightly(cfg, c, Data(seg, slen, newRto, app), Receive(cfg, c, seg, slen, newRto, app).calls)
  {
    hide CallAndSend;
    var c1 := AfterAck(c, seg, newRto);
    if c.state.SynRcvd? {
      CallAndSendCalls(AcceptPayload(c1.Enter(Established).(len := 0), seg),
                       {Connected} + FlagIf(|seg.payload| > 0, NewData), seg.payload, 0, app);
    } else {
      CallAndSendCalls(MssFrom(cfg, c1, seg.mss).Enter(Established).(rcvNxt := Add(seg.seqno, 1), len := 0),
                       {Connected, NewData}, [], 0, app);
    }
  }

  lemma FinIsTold(cfg: Config, c: Conn, seg: Segment, slen: U16, newRto: Byte, app: App)
    requires cfg.Valid() && Coupled(cfg, c) && c.state.Established? && seg.bits.fin && !c.stopped
    ensures ToldRightly(cfg, c, Data(seg, slen, newRto, app), Receive(cfg, c, seg, slen, newRto, app).calls)
  {
    hide ApplyCalls;
  }

  lemma EstablishedCalls(cfg: Config, c: Conn, seg: Segment, slen: U16, newRto: Byte, app: App)
    requires cfg.Valid() && c.state.Established? && (!seg.bits.fin || c.stopped)
    ensures var accept := |seg.payload| > 0 && !c.stopped;
      var flags := FlagIf(Acknowledges(c, seg), AckData) + FlagIf(accept, NewData);
      Receive(cfg, c, seg, slen, newRto, app).calls ==
        if seg.bits.rst then [Callback({Abort}, [])]
        else if OutOfOrder(c, seg) || flags == {} then []
        else [Callback(flags, if accept then seg.payload else [])]
  {
    hide CallAndSend;
    var c1 := AfterAck(c, seg, newRto);
    var accept := |seg.payload| > 0 && !c1.stopped;
    var c2 := if accept then AcceptPayload(c1, seg) else c1;
    var flags := FlagIf(Acknowledges(c, seg), AckData) + FlagIf(accept, NewData);
    assert Acknowledges(c, seg) ==> AckData in flags;
    assert accept ==> NewData in flags;
    CallAndSendCalls(c2.(mss := if seg.wnd > c2.initialMss || seg.wnd == 0 then c2.initialMss else seg.wnd),
                     flags, if accept then seg.payload else [], 0, app);
  }

  lemma EstablishedIsTold(cfg: Config, c: Conn, seg: Segment, slen: U16, newRto: Byte, app: App)
    requires cfg.Valid() && Coupled(cfg, c) && c.state.Established? && (!seg.bits.fin || c.stopped)
    ensures ToldRightly(cfg, c, Data(seg, slen, newRto, app), Receive(cfg, c, seg, slen, newRto, app).calls)
  {
    EstablishedCalls(cfg, c, seg, slen, newRto, app);
    hide Receive, Coupled;
    var flags := FlagIf(Acknowledges(c, seg), AckData) + FlagIf(|seg.payload| > 0 && !c.stopped, NewData);
    assert AckData in flags <==> Acknowledges(c, seg);
    assert NewData in flags <==> |seg.payload| > 0 && !c.stopped;
  }

  lemma ClosingIsTold(cfg: Config, c: Conn, seg: Segment, slen: U16, newRto: Byte, app: App)
    requires cfg.Valid() && Coupled(cfg, c) && !c.state.SynRcvd? && !c.state.SynSent? && !c.state.Established?
    requires !c.state.Closed?
    ensures ToldRightly(cfg, c, Data(seg, slen, newRto, app), Receive(cfg, c, seg, slen, newRto, app).calls)
  {
  }

  /**
   * The application is called at most once in a call of the engine, and told exactly what has happened:
   * each flag is set if and only if there is the occasion for it.
   */
  lemma ToldExactly(cfg: Config, c: Conn, i: Input)
    requires cfg.Valid() && Coupled(cfg, c)
    ensures var o := ConnStep(cfg, c, i);
      |o.calls| <= 1 && forall f :: Reports(o, f) <==> Occasion(cfg, c, i, f)
  {
    hide CallAndSend;
    match i
    case Tick(app) => CallAndSendCalls(c, {Poll}, [], 0, app);
    case PollRequest(slen, app) => CallAndSendCalls(c, {Poll}, [], slen, app);
    case Data(seg, slen, newRto, app) =>
      if !c.state.Closed? {
        if c.state.SynRcvd? || c.state.SynSent? {
          SynIsTold(cfg, c, seg, slen, newRto, app);
        } else if c.state.Established? && seg.bits.fin && !c.stopped {
          FinIsTold(cfg, c, seg, slen, newRto, app);
        } else if c.state.Established? {
          EstablishedIsTold(cfg, c, seg, slen, newRto, app);
        } else {
          ClosingIsTold(cfg, c, seg, slen, newRto, app);
        }
        hide Receive, Occasion;
      }
  }

  // ---------- What its requests lead to ----------

  predicate Ends(call: AppCall) {
    call.CloseConn? || call.AbortConn?
  }

  /** The last request to end the connection is `want`. */
  ghost predicate EndsWith(calls: seq<AppCall>, want: AppCall) {
    exists k :: IsLastEnd(calls, want, k)
  }

  ghost predicate IsLastEnd(calls: seq<AppCall>, want: AppCall, k: nat) {
    k < |calls| && calls[k] == want && forall j :: k < j < |calls| ==> !Ends(calls[j])
  }

  predicate NeverEnds(calls: seq<AppCall>) {
    forall call :: call in calls ==> !Ends(call)
  }

  /** Of several requests to close or abort the last one counts. */
  lemma {:induction false} LastEndCounts(v: AppVars, calls: seq<AppCall>)
    ensures Abort in ApplyCalls(v, calls).flags <==> EndsWith(calls, AbortConn) || (NeverEnds(calls) && Abort in v.flags)
    ensures Close in ApplyCalls(v, calls).flags <==> EndsWith(calls, CloseConn) || (NeverEnds(calls) && Close in v.flags)
    decreases |calls|
  {
    if calls != [] {
      var rest := calls[1..];
      LastEndCounts(ApplyCall(v, calls[0]), rest);
      EndsLater(calls, CloseConn);
      EndsLater(calls, AbortConn);
      hide EndsWith;
      assert forall call :: call in calls <==> call == calls[0] || call in rest;
    }
  }

  lemma EndsLater(calls: seq<AppCall>, want: AppCall)
    requires calls != [] && Ends(want)
    ensures EndsWith(calls, want) <==> EndsWith(calls[1..], want) || (calls[0] == want && NeverEnds(calls[1..]))
  {
    var rest := calls[1..];
    if k: nat :| IsLastEnd(calls, want, k) {
      if k > 0 {
        assert IsLastEnd(rest, want, k - 1);
      } else {
        forall call | call in rest ensures !Ends(call) {
          var j :| 0 <= j < |rest| && rest[j] == call;
          assert calls[j + 1] == call;
        }
      }
    }
    if k: nat :| IsLastEnd(rest, want, k) {
      assert IsLastEnd(calls, want, k + 1);
    }
    if calls[0] == want && NeverEnds(rest) {
      assert IsLastEnd(calls, want, 0);
    }
  }

  /** The length of the last data request, in sixteen bits; without one, what was left from before. */
  function Requested(slen: U16, calls: seq<AppCall>): U16
    decreases |calls|
  {
    if calls == [] then slen
    else
      var last := calls[|calls| - 1];
      if last.SendData? && last.n > 0 then last.n % 0x1_0000 else Requested(slen, calls[..|calls| - 1])
  }

  lemma {:induction false} OneMoreCall(v: AppVars, calls: seq<AppCall>, last: AppCall)
    ensures ApplyCalls(v, calls + [last]) == ApplyCall(ApplyCalls(v, calls), last)
    decreases |calls|
  {
    if calls == [] {
      assert [last][1..] == [];
    } else {
      assert (calls + [last])[1..] == calls[1..] + [last];
      OneMoreCall(ApplyCall(v, calls[0]), calls[1..], last);
    }
  }

  lemma {:induction false} LastLengthCounts(v: AppVars, calls: seq<AppCall>)
    ensures ApplyCalls(v, calls).slen == Requested(v.slen, calls)
    decreases |calls|
  {
    if calls != [] {
      var n := |calls| - 1;
      LastLengthCounts(v, calls[..n]);
      OneMoreCall(v, calls[..n], calls[n]);
      assert calls == calls[..n] + [calls[n]];
    }
  }

  function Least(m: nat, n: nat): nat {
    if m < n then m else n
  }

  /**
   * What becomes of the requests made in a callback of an ESTABLISHED connection: an abort sends an RST
   * and closes; a close sends the FIN; data is sent up to the peer's segment size, or, while something
   * is outstanding, that is sent again; and without data an ACK is sent exactly if it is called for.
   */
  lemma RequestsAreServed(c: Conn, flags: set<UipFlag>, newBytes: seq<Byte>, slen: U16, app: App)
    requires c.state.Established? && flags <= {AckData, NewData, Poll, Connected}
    ensures var o := CallAndSend(c, flags, newBytes, slen, app);
      var calls, n := app.established, Requested(slen, app.established);
      if EndsWith(calls, AbortConn) then
        o.conn.Is(Closed) && o.emit.Send? && o.emit.bits == RSTACK && o.emit.len == 0 && o.emit.seqno == c.sndNxt
      else if EndsWith(calls, CloseConn) then
        && o.conn.Is(FinWait1) && o.conn.len == 1 && o.conn.nrtx == 0
        && o.emit.Send? && o.emit.bits == FINACK && o.emit.len == 0 && o.emit.seqno == c.sndNxt
      else
        && o.conn.state.Established? && o.conn.nrtx == 0 && o.conn.stopped == EndsStopped(c.stopped, calls)
        && (n == 0 ==> o.conn.len == c.len)
        && (n > 0 ==> o.conn.len == if AckData in flags || c.len == 0 then Least(n, c.mss) else c.len)
        && (if n > 0 && o.conn.len > 0
            then o.emit.Send? && o.emit.bits == PSHACK && o.emit.len == o.conn.len && o.emit.seqno == c.sndNxt
            else if NewData in flags || Restart in calls
            then o.emit.Send? && o.emit.bits == ACKONLY && o.emit.len == 0 && o.emit.seqno == c.sndNxt
            else o.emit == Drop)
  {
    var calls, v := app.established, AppVars(flags, slen, c.stopped);
    LastEndCounts(v, calls);
    LastLengthCounts(v, calls);
    StoppedAfterCalls(v, calls);
    if !EndsWith(calls, AbortConn) && !EndsWith(calls, CloseConn) {
      NeverEndingKeeps(v, calls);
    }
    hide EndsWith, EndsStopped, ApplyCalls;
  }

  /** Without a request to end, flags are only gained, and only by a restart. */
  lemma {:induction false} NeverEndingKeeps(v: AppVars, calls: seq<AppCall>)
    requires Abort !in v.flags && Close !in v.flags
    requires !EndsWith(calls, AbortConn) && !EndsWith(calls, CloseConn)
    ensures NeverEnds(calls)
    ensures ApplyCalls(v, calls).flags == v.flags + if Restart in calls then {NewData} else {}
    decreases |calls|
  {
    if calls != [] {
      var rest := calls[1..];
      EndsLater(calls, CloseConn);
      EndsLater(calls, AbortConn);
      assert forall call :: call in calls <==> call == calls[0] || call in rest;
      hide EndsWith;
      if Ends(calls[0]) {
        NeverEndingKeeps(AppVars({}, 0, false), rest);
      } else {
        NeverEndingKeeps(ApplyCall(v, calls[0]), rest);
      }
    }
  }

  /** The callbacks whose requests are heard; those that report the end of the connection, or a retransmission, are not. */
  predicate Heard(cfg: Config, c: Conn, i: Input) {
    || Occasion(cfg, c, i, Poll) || Occasion(cfg, c, i, Connected)
    || (c.state.Established? && (Occasion(cfg, c, i, AckData) || Occasion(cfg, c, i, NewData)) && !Occasion(cfg, c, i, Close))
  }

  /** How much the peer takes in one segment: its window, but no more than was agreed, and that if the window is zero. */
  function SegmentSize(cfg: Config, c: Conn, i: Input): nat {
    if i.Data? && c.state.Established? then
      if i.seg.wnd == 0 then c.initialMss else Least(i.seg.wnd, c.initialMss)
    else if Answered(c, i) && i.seg.mss.Some? then Least(i.seg.mss.value, cfg.tcpMss)
    else c.mss
  }

  /** The connection `d` a callback is made on, and with what. */
  ghost predicate CalledOn(cfg: Config, c: Conn, i: Input, d: Conn, flags: set<UipFlag>, slen: U16) {
    && d.state.Established?
    && flags <= {AckData, NewData, Poll, Connected} && (forall f :: f in flags <==> Occasion(cfg, c, i, f))
    && d.sndNxt == (if NewAck(c, i) then Add(c.sndNxt, c.len) else c.sndNxt)
    && d.len == (if NewAck(c, i) then 0 else c.len)
    && d.mss == SegmentSize(cfg, c, i)
    && d.stopped == (c.state.Established? && c.stopped)
    && slen == (if i.PollRequest? then i.slen else 0)
  }

  ghost predicate Hears(cfg: Config, c: Conn, i: Input, o: Outcome) {
    exists d: Conn, flags: set<UipFlag>, newBytes: seq<Byte>, slen: U16 ::
      CalledOn(cfg, c, i, d, flags, slen) && o == CallAndSend(d, flags, newBytes, slen, i.app)
  }

  lemma EstablishedIsHeard(cfg: Config, c: Conn, i: Input)
    requires cfg.Valid() && Coupled(cfg, c) && c.state.Established? && i.Data? && Heard(cfg, c, i)
    ensures Hears(cfg, c, i, Receive(cfg, c, i.seg, i.slen, i.newRto, i.app))
  {
    hide CallAndSend;
    var seg := i.seg;
    var c1 := AfterAck(c, seg, i.newRto);
    var accept := |seg.payload| > 0 && !c1.stopped;
    var c2 := if accept then AcceptPayload(c1, seg) else c1;
    var d := c2.(mss := if seg.wnd > c2.initialMss || seg.wnd == 0 then c2.initialMss else seg.wnd);
    var flags := FlagIf(Acknowledges(c, seg), AckData) + FlagIf(accept, NewData);
    assert CalledOn(cfg, c, i, d, flags, 0);
  }

  lemma OpeningIsHeard(cfg: Config, c: Conn, i: Input)
    requires cfg.Valid() && Coupled(cfg, c) && !c.state.Established? && !c.state.Closed? && i.Data? && Heard(cfg, c, i)
    ensures Hears(cfg, c, i, Receive(cfg, c, i.seg, i.slen, i.newRto, i.app))
  {
    hide CallAndSend;
    var seg := i.seg;
    var c1 := AfterAck(c, seg, i.newRto);
    if c.state.SynRcvd? {
      var d := AcceptPayload(c1.Enter(Established).(len := 0), seg);
      assert CalledOn(cfg, c, i, d, {Connected} + FlagIf(|seg.payload| > 0, NewData), 0);
    } else {
      var d := MssFrom(cfg, c1, seg.mss).Enter(Established).(rcvNxt := Add(seg.seqno, 1), len := 0);
      assert CalledOn(cfg, c, i, d, {Connected, NewData}, 0);
    }
  }

  /**
   * Requests are heard on the connection as it is after the segment: nothing outstanding if it was all
   * acknowledged, and the segment size that the peer's window or MSS option allows.
   */
  lemma RequestsAreHeard(cfg: Config, c: Conn, i: Input)
    requires cfg.Valid() && Coupled(cfg, c) && Heard(cfg, c, i)
    ensures Hears(cfg, c, i, ConnStep(cfg, c, i))
  {
    hide CallAndSend, Receive;
    match i
    case Tick(app) =>
      assert CalledOn(cfg, c, i, c, {Poll}, 0);
      assert TimerStep(cfg, c, app) == CallAndSend(c, {Poll}, [], 0, app);
    case PollRequest(slen, app) =>
      assert CalledOn(cfg, c, i, c, {Poll}, slen);
      assert PollStep(c, slen, app) == CallAndSend(c, {Poll}, [], slen, app);
    case Data(_, _, _, _) =>
      hide Hears;
      if c.state.Established? {
        EstablishedIsHeard(cfg, c, i);
      } else if !c.state.Closed? {
        OpeningIsHeard(cfg, c, i);
      }
  }

  /**
   * When the data must be sent again, and the application offers some, exactly as much as is outstanding
   * is sent; a request to close or abort is not heard then.
   */
  lemma RetransmissionIsServed(cfg: Config, c: Conn, app: App)
    requires cfg.Valid() && Coupled(cfg, c) && Occasion(cfg, c, Tick(app), Rexmit)
    ensures var o := TimerStep(cfg, c, app);
      && o.conn.state.Established? && o.conn.len == c.len && o.conn.stopped == EndsStopped(c.stopped, app.established)
      && (Requested(0, app.established) > 0 ==>
            o.emit.Send? && o.emit.bits == PSHACK && o.emit.len == c.len && o.emit.seqno == c.sndNxt)
  {
    var v := AppVars({Rexmit}, 0, c.stopped);
    LastLengthCounts(v, app.established);
    StoppedAfterCalls(v, app.established);
    hide EndsStopped, ApplyCalls;
  }

  // ---------- A connection that never agreed on a segment size ----------

  lemma SendingKeepsSize(c: Conn, flags: set<UipFlag>, newBytes: seq<Byte>, slen: U16, app: App)
    ensures CallAndSend(c, flags, newBytes, slen, app).conn.initialMss == c.initialMss
  {
  }

  /** The size agreed on when a connection was opened stays. */
  lemma SizeIsKept(cfg: Config, c: Conn, i: Input)
    requires cfg.Valid() && !c.state.SynSent?
    ensures ConnStep(cfg, c, i).conn.initialMss == c.initialMss
  {
    hide CallAndSend;
    match i
    case Tick(app) => SendingKeepsSize(c, {Poll}, [], 0, app);
    case PollRequest(slen, app) => SendingKeepsSize(c, {Poll}, [], slen, app);
    case Data(seg, slen, newRto, app) =>
      var c1 := AfterAck(c, seg, newRto);
      var accept := |seg.payload| > 0 && !c1.stopped;
      var c2 := if accept then AcceptPayload(c1, seg) else c1;
      SendingKeepsSize(c2.(mss := if seg.wnd > c2.initialMss || seg.wnd == 0 then c2.initialMss else seg.wnd),
                       FlagIf(Acknowledges(c, seg), AckData) + FlagIf(accept, NewData),
                       if accept then seg.payload else [], 0, app);
      SendingKeepsSize(AcceptPayload(c1.Enter(Established).(len := 0), seg),
                       {Connected} + FlagIf(|seg.payload| > 0, NewData), seg.payload, 0, app);
  }

  /**
   * A SYN without an MSS option leaves the slot's old sizes, which are zero in a slot that was never
   * used: such a connection never sends data, whatever the application and the peer do.
   */
  lemma {:induction false} NoSizeNoData(cfg: Config, c: Conn, run: seq<Input>)
    requires cfg.Valid() && Coupled(cfg, c) && Disciplined(run) && c.initialMss == 0 && !c.state.SynSent?
    ensures forall e :: e in Emitted(cfg, c, run) ==> !IsDataSegment(e)
    decreases |run|
  {
    hide ConnStep;
    if run != [] {
      var o := ConnStep(cfg, c, run[0]);
      assert run[0] in run;
      StepCoupled(cfg, c, run[0]);
      SegmentsCarryOutstanding(cfg, c, run[0]);
      SizeIsKept(cfg, c, run[0]);
      StepTells(cfg, c, run[0]);
      NoSizeNoData(cfg, o.conn, run[1..]);
    }
  }

  /** With a size it does as soon as the application asks for it and nothing is outstanding. */
  lemma SizedSendsData(cfg: Config, c: Conn, slen: U16, n: U16)
    requires cfg.Valid() && Coupled(cfg, c) && c.state.Established? && c.len == 0 && n > 0
    ensures IsDataSegment(ConnStep(cfg, c, PollRequest(slen, App([SendData(n)], []))).emit) <==> c.mss > 0
  {
    var app := App([SendData(n)], []);
    assert Requested(slen, app.established) == n;
    hide CallAndSend;
    RequestsAreServed(c, {Poll}, [], slen, app);
  }
}
