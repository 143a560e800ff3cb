/**
 * The TCP engine in the shape of the C code: connection records and globals that the parts of
 * `uip_process` update in place, a label of the C function per method. Each method is proved to
 * do to the records exactly what the functions of TcpSpec say.
 */
module TcpEngine {
  import opened Octets
  import opened TcpSpec
  import opened TcpTable

  class UipConn {
    var state: TcpState
    var stopped: bool
    var lport: U16
    var rport: U16
    var rip: U32
    var rcvNxt: Quad
    var sndNxt: Quad
    var len: U16
    var mss: U16
    var initialMss: U16
    var rto: Byte
    var timer: Byte
    var nrtx: Byte

    /** A record in zeroed memory. */
    constructor ()
      ensures View() == Conn(Closed, false, 0, 0, 0, 0, 0, 0, 0, 0, 0, 0, 0)
    {
      hide Bytes, Quad.Val;
      state, stopped := Closed, false;
      lport, rport, rip := 0, 0, 0;
      rcvNxt, sndNxt := Bytes(0), Bytes(0);
      len, mss, initialMss := 0, 0, 0;
      rto, timer, nrtx := 0, 0, 0;
    }

    ghost function View(): Conn
      reads this
    {
      Conn(state, stopped, lport, rport, rip, rcvNxt.Val(), sndNxt.Val(), len, mss, initialMss, rto, timer, nrtx)
    }

    predicate Is(s: TcpState)
      reads this
    {
      state == s && !stopped
    }

    method Enter(s: TcpState)
      modifies this`state, this`stopped
      ensures View() == old(View()).Enter(s)
    {
      state, stopped := s, false;
    }

    /** `uip_add_rcv_nxt` */
    method AddRcvNxt(n: U16)
      modifies this`rcvNxt
      ensures View() == old(View()).(rcvNxt := Add(old(rcvNxt.Val()), n))
    {
      rcvNxt := Add32(rcvNxt, n);
    }

    method SetMss(cfg: Config, option: Option<U16>)
      requires cfg.Valid()
      modifies this`mss, this`initialMss
      ensures View() == MssFrom(cfg, old(View()), option)
    {
      if option.Some? {
        mss := if option.value > cfg.tcpMss then cfg.tcpMss else option.value;
        initialMss := mss;
      }
    }
  }

  /** Filling in a record for a SYN accepted by a listening port. */
  method FillPassive(conn: UipConn, cfg: Config, seg: Segment, iss: Quad)
    requires cfg.Valid()
    modifies conn
    ensures conn.View() == PassiveOpen(cfg, old(conn.View()), seg, iss.Val())
  {
    hide Add;
    conn.rto, conn.timer := cfg.rto, cfg.rto;
    conn.nrtx := 0;
    conn.lport := seg.destport;
    conn.rport := seg.srcport;
    conn.rip := seg.srcip;
    conn.Enter(SynRcvd);
    conn.sndNxt := iss;
    conn.len := 1;
    conn.rcvNxt := Bytes(seg.seqno);
    conn.AddRcvNxt(1);
    conn.SetMss(cfg, seg.mss);
  }

  /** Filling in a record for `uip_connect`. */
  method FillActive(conn: UipConn, cfg: Config, lport: U16, rip: U32, rport: U16, iss: Quad)
    requires cfg.Valid()
    modifies conn
    ensures conn.View() == ActiveOpen(cfg, old(conn.View()), lport, rip, rport, iss.Val())
  {
    conn.Enter(SynSent);
    conn.sndNxt := iss;
    conn.initialMss, conn.mss := cfg.tcpMss, cfg.tcpMss;
    conn.len := 1;
    conn.nrtx := 0;
    conn.timer := 1;
    conn.rto := cfg.rto;
    conn.lport := lport;
    conn.rport := rport;
    conn.rip := rip;
  }

  /** The byte form of a 32-bit number in a segment header. */
  function Bytes(x: U32): (q: Quad)
    ensures q.Val() == x
  {
    var y, z := x / 0x100, x / 0x100 / 0x100;
    Quad(z / 0x100, z % 0x100, y % 0x100, x % 0x100)
  }

  /** The connection records of the static array. */
  method ZeroedConns(n: nat) returns (conns: seq<UipConn>)
    ensures |conns| == n && fresh(conns)
    ensures forall i :: 0 <= i < n ==> conns[i].View() == Conn(Closed, false, 0, 0, 0, 0, 0, 0, 0, 0, 0, 0, 0)
    ensures forall i, j :: 0 <= i < j < n ==> conns[i] != conns[j]
  {
    conns := [];
    while |conns| < n
      invariant |conns| <= n && fresh(conns)
      invariant forall i :: 0 <= i < |conns| ==> conns[i].View() == Conn(Closed, false, 0, 0, 0, 0, 0, 0, 0, 0, 0, 0, 0)
      invariant forall i, j :: 0 <= i < j < |conns| ==> conns[i] != conns[j]
    {
      var conn := new UipConn();
      conns := conns + [conn];
    }
  }

  class Uip {
    const cfg: Config
    const conns: seq<UipConn>
    var listenPorts: seq<U16>
    var iss: Quad
    var lastport: U16
    var slen: U16
    var flags: set<UipFlag>

    // ---------- Labels of uip_process that serve one connection ----------

    /** UIP_APPCALL() on a connection: the application acts through the globals. */
    method AppCall(conn: UipConn, app: App)
      modifies this`flags, this`slen, conn`stopped
      ensures AppVars(flags, slen, conn.stopped) == AppCallback(old(conn.View()), old(flags), old(slen), app)
    {
      var calls := if conn.state.Established? then app.established else app.elsewhere;
      var i := 0;
      while i < |calls|
        invariant 0 <= i <= |calls|
        invariant ApplyCalls(AppVars(flags, slen, conn.stopped), calls[i..])
               == ApplyCalls(AppVars(old(flags), old(slen), old(conn.stopped)), calls)
      {
        assert calls[i..][1..] == calls[i + 1..];
        match calls[i] {
          case SendData(n) => if n > 0 { slen := n % 0x1_0000; }
          case CloseConn => flags := {Close};
          case AbortConn => flags := {Abort};
          case Stop => conn.stopped := true;
          case Restart => flags, conn.stopped := flags + {NewData}, false;
        }
        i := i + 1;
      }
      assert calls[i..] == [];
    }

    /** From `tcp_send` on: the header is filled in from the connection. */
    method TcpSend(conn: UipConn, bits: Bits, len: U16, mssOption: bool) returns (emit: Emit)
      ensures emit == Emission(conn.View(), bits, len, mssOption)
    {
      emit := Send(conn.lport, conn.rip, conn.rport, conn.sndNxt.Val(), conn.rcvNxt.Val(), bits, len,
                   if conn.stopped then Zero else Open, mssOption);
    }

    /** The label `apprexmit`. */
    method Apprexmit(conn: UipConn) returns (emit: Emit)
      ensures forall calls: seq<Callback> ::
        AppRexmit(conn.View(), AppVars(flags, slen, conn.stopped), calls) == Outcome(conn.View(), slen, calls, emit)
    {
      if slen > 0 && conn.len > 0 {
        emit := TcpSend(conn, PSHACK, conn.len, false);
      } else if NewData in flags {
        emit := TcpSend(conn, ACKONLY, 0, false);
      } else {
        emit := Drop;
      }
    }

    /** The label `appsend`. */
    method Appsend(conn: UipConn) returns (emit: Emit)
      modifies this`slen, conn
      ensures forall calls: seq<Callback> ::
        AppSend(old(conn.View()), AppVars(flags, old(slen), old(conn.stopped)), calls)
          == Outcome(conn.View(), slen, calls, emit)
    {
      if Abort in flags {
        slen := 0;
        conn.Enter(Closed);
        emit := TcpSend(conn, RSTACK, 0, false);
        return;
      }
      if Close in flags {
        slen := 0;
        conn.len := 1;
        conn.Enter(FinWait1);
        conn.nrtx := 0;
        emit := TcpSend(conn, FINACK, 0, false);
        return;
      }
      if slen > 0 {
        if AckData in flags {
          conn.len := 0;
        }
        if conn.len == 0 {
          if slen > conn.mss {
            slen := conn.mss;
          }
          conn.len := slen;
        } else {
          slen := conn.len;
        }
      }
      conn.nrtx := 0;
      emit := Apprexmit(conn);
    }

    /** UIP_APPCALL() followed by `goto appsend`; `newBytes` is what `uip_appdata` offers as new. */
    method CallAndSend(conn: UipConn, newBytes: seq<Byte>, app: App) returns (calls: seq<Callback>, emit: Emit)
      modifies this`slen, this`flags, conn
      ensures Outcome(conn.View(), slen, calls, emit)
           == TcpSpec.CallAndSend(old(conn.View()), old(flags), newBytes, old(slen), app)
    {
      hide AppSend;
      calls := [Callback(flags, newBytes)];
      AppCall(conn, app);
      emit := Appsend(conn);
    }

    /** UIP_APPCALL() whose requests are not looked at afterwards. */
    method CallAndForget(conn: UipConn, newBytes: seq<Byte>, app: App) returns (calls: seq<Callback>)
      modifies this`slen, this`flags, conn`stopped
      ensures Outcome(conn.View(), slen, calls, Drop)
           == TcpSpec.CallAndForget(old(conn.View()), old(flags), newBytes, old(slen), app)
      ensures AppVars(flags, slen, conn.stopped) == AppCallback(old(conn.View()), old(flags), old(slen), app)
    {
      calls := [Callback(flags, newBytes)];
      AppCall(conn, app);
    }

    // ---------- uip_process(UIP_POLL_REQUEST) and uip_process(UIP_TIMER) ----------

    method ProcessPoll(conn: UipConn, app: App) returns (calls: seq<Callback>, emit: Emit)
      modifies this`slen, this`flags, conn
      ensures Outcome(conn.View(), slen, calls, emit) == PollStep(old(conn.View()), old(slen), app)
    {
      calls, emit := [], Drop;
      if conn.state.Established? && conn.len == 0 {
        flags := {Poll};
        calls, emit := CallAndSend(conn, [], app);
      }
    }

    /** In ESTABLISHED the application is asked to produce the data again. */
    method RetransmitData(conn: UipConn, app: App) returns (calls: seq<Callback>, emit: Emit)
      requires slen == 0 && conn.state.Established?
      modifies this`slen, this`flags, conn
      ensures Outcome(conn.View(), slen, calls, emit) == Retransmit(old(conn.View()), app)
    {
      hide AppCallback;
      flags := {Rexmit};
      calls := CallAndForget(conn, [], app);
      emit := Apprexmit(conn);
    }

    /** The retransmission timer has run out. */
    method ProcessExpiry(conn: UipConn, app: App) returns (calls: seq<Callback>, emit: Emit)
      requires cfg.Valid() && slen == 0 && conn.len > 0 && conn.timer == 0xff
      requires !conn.Is(TimeWait) && !conn.Is(FinWait2) && !conn.Is(Closed)
      modifies this`slen, this`flags, conn
      ensures Outcome(conn.View(), slen, calls, emit) == TimerStep(cfg, old(conn.View()).(timer := 0), app)
    {
      hide TcpSpec.CallAndSend, TcpSpec.CallAndForget, AppCallback, Add;
      calls, emit := [], Drop;
      if conn.nrtx == cfg.maxRtx || ((conn.Is(SynSent) || conn.Is(SynRcvd)) && conn.nrtx == cfg.maxSynRtx) {
        calls := CloseAndTell(conn, TimedOut, app);
        emit := TcpSend(conn, RSTACK, 0, false);
        return;
      }
      conn.timer := cfg.Backoff(conn.nrtx);
      conn.nrtx := Add8(conn.nrtx, 1);
      hide Retransmit;
      calls, emit := RetransmitByState(conn, app);
    }

    /** The switch over the states after the backoff. */
    method RetransmitByState(conn: UipConn, app: App) returns (calls: seq<Callback>, emit: Emit)
      requires slen == 0
      modifies this`slen, this`flags, conn
      ensures Outcome(conn.View(), slen, calls, emit) == Retransmit(old(conn.View()), app)
    {
      hide AppCallback;
      calls, emit := [], Drop;
      match conn.state {
        case SynRcvd => emit := TcpSend(conn, SYNACK, 0, true);
        case SynSent => emit := TcpSend(conn, SYNONLY, 0, true);
        case Established => calls, emit := RetransmitData(conn, app);
        case FinWait1 => emit := TcpSend(conn, FINACK, 0, false);
        case Closing => emit := TcpSend(conn, FINACK, 0, false);
        case LastAck => emit := TcpSend(conn, FINACK, 0, false);
        case _ =>
      }
    }

    method ProcessTimer(conn: UipConn, app: App) returns (calls: seq<Callback>, emit: Emit)
      requires cfg.Valid()
      modifies this`iss, this`slen, this`flags, conn
      ensures Outcome(conn.View(), slen, calls, emit) == TimerStep(cfg, old(conn.View()), app)
      ensures iss.Val() == Add(old(iss.Val()), 1)
    {
      hide TcpSpec.CallAndSend, TcpSpec.CallAndForget, Retransmit;
      calls, emit := [], Drop;
      iss := Increment(iss);
      slen := 0;
      if conn.Is(TimeWait) || conn.Is(FinWait2) {
        conn.timer := Add8(conn.timer, 1);
        if conn.timer == cfg.timeWaitTimeout {
          conn.Enter(Closed);
        }
      } else if !conn.Is(Closed) {
        if conn.len > 0 {
          var expired := conn.timer == 0;
          conn.timer := Add8(conn.timer, 0xff);
          if expired {
            calls, emit := ProcessExpiry(conn, app);
          }
        } else if conn.state.Established? {
          flags := {Poll};
          calls, emit := CallAndSend(conn, [], app);
        }
      }
    }

    // ---------- uip_process(UIP_DATA), the label `found` ----------

    /** The label `reset`. */
    method Reset(seg: Segment) returns (emit: Emit)
      ensures emit == ResetReply(seg)
    {
      if seg.bits.rst {
        emit := Drop;
      } else {
        var ackno := Increment(Bytes(seg.seqno));
        emit := Send(seg.destport, seg.srcip, seg.srcport, seg.ackno, ackno.Val(), RSTACK, 0, Echoed, false);
      }
    }

    /** The acknowledgement test and its bookkeeping; `newRto` is the RTT estimator's result. */
    method ProcessAck(conn: UipConn, seg: Segment, newRto: Byte)
      modifies this`flags, conn
      ensures conn.View() == AfterAck(old(conn.View()), seg, newRto)
      ensures flags == old(flags) + FlagIf(Acknowledges(old(conn.View()), seg), AckData)
    {
      if seg.bits.ack && conn.len > 0 {
        var acc32 := Add32(conn.sndNxt, conn.len);
        QuadValInjective(Bytes(seg.ackno), acc32);
        if Bytes(seg.ackno) == acc32 {
          conn.sndNxt := acc32;
          if conn.nrtx == 0 {
            conn.rto := newRto;
          }
          flags := flags + {AckData};
          conn.timer := conn.rto;
          conn.len := 0;
        }
      }
    }

    method FoundSynRcvd(conn: UipConn, seg: Segment, app: App) returns (calls: seq<Callback>, emit: Emit)
      requires flags <= {AckData}
      modifies this`slen, this`flags, conn
      ensures Outcome(conn.View(), slen, calls, emit)
           == ReceiveSynRcvd(old(conn.View()), seg, old(slen), AckData in old(flags), app)
    {
      hide TcpSpec.CallAndSend;
      calls, emit := [], Drop;
      if AckData in flags {
        conn.Enter(Established);
        flags := {Connected};
        conn.len := 0;
        AddZero(conn.rcvNxt.Val());
        if |seg.payload| > 0 {
          flags := flags + {NewData};
          conn.AddRcvNxt(|seg.payload|);
        }
        slen := 0;
        assert flags == {Connected} + FlagIf(|seg.payload| > 0, NewData);
        calls, emit := CallAndSend(conn, seg.payload, app);
      }
    }

    method FoundSynSent(conn: UipConn, seg: Segment, app: App) returns (calls: seq<Callback>, emit: Emit)
      requires cfg.Valid()
      modifies this`slen, this`flags, conn
      ensures Outcome(conn.View(), slen, calls, emit)
           == ReceiveSynSent(cfg, old(conn.View()), seg, old(slen), AckData in old(flags), app)
    {
      hide TcpSpec.CallAndSend;
      if AckData in flags && seg.bits == SYNACK {
        conn.SetMss(cfg, seg.mss);
        conn.Enter(Established);
        conn.rcvNxt := Bytes(seg.seqno);
        conn.AddRcvNxt(1);
        flags := {Connected, NewData};
        conn.len := 0;
        slen := 0;
        calls, emit := CallAndSend(conn, [], app);
      } else {
        flags := {Abort};
        calls := CallAndForget(conn, [], app);
        conn.Enter(Closed);
        emit := Reset(seg);
      }
    }

    /** The peer closes a running ESTABLISHED connection. */
    method FoundFin(conn: UipConn, seg: Segment, app: App) returns (calls: seq<Callback>, emit: Emit)
      requires flags <= {AckData} && conn.state.Established? && seg.bits.fin && !conn.stopped
      modifies this`slen, this`flags, conn
      ensures Outcome(conn.View(), slen, calls, emit)
           == ReceiveEstablished(old(conn.View()), seg, old(slen), AckData in old(flags), app)
    {
      calls, emit := [], Drop;
      ghost var acked := AckData in flags;
      assert flags == FlagIf(acked, AckData);
      if conn.len > 0 {
        return;
      }
      conn.AddRcvNxt(1 + |seg.payload|);
      flags := flags + {Close};
      var newBytes: seq<Byte> := [];
      if |seg.payload| > 0 {
        flags, newBytes := flags + {NewData}, seg.payload;
      }
      assert flags == FlagIf(acked, AckData) + {Close} + FlagIf(|seg.payload| > 0, NewData);
      calls := CallAndForget(conn, newBytes, app);
      conn.len := 1;
      conn.Enter(LastAck);
      conn.nrtx := 0;
      emit := TcpSend(conn, FINACK, 0, false);
    }

    method FoundEstablished(conn: UipConn, seg: Segment, app: App) returns (calls: seq<Callback>, emit: Emit)
      requires flags <= {AckData} && conn.state.Established?
      modifies this`slen, this`flags, conn
      ensures Outcome(conn.View(), slen, calls, emit)
           == ReceiveEstablished(old(conn.View()), seg, old(slen), AckData in old(flags), app)
    {
      hide TcpSpec.CallAndSend, TcpSpec.CallAndForget;
      calls, emit := [], Drop;
      if seg.bits.fin && !conn.stopped {
        calls, emit := FoundFin(conn, seg, app);
        return;
      }
      ghost var acked := AckData in flags;
      var newBytes: seq<Byte> := [];
      if |seg.payload| > 0 && !conn.stopped {
        flags, newBytes := flags + {NewData}, seg.payload;
        conn.AddRcvNxt(|seg.payload|);
      }
      assert flags == FlagIf(acked, AckData) + FlagIf(|seg.payload| > 0 && !conn.stopped, NewData);
      var window := seg.wnd;
      if window > conn.initialMss || window == 0 {
        window := conn.initialMss;
      }
      conn.mss := window;
      if NewData in flags || AckData in flags {
        slen := 0;
        calls, emit := CallAndSend(conn, newBytes, app);
      }
    }

    method FoundFinWait1(conn: UipConn, seg: Segment, app: App) returns (calls: seq<Callback>, emit: Emit)
      modifies this`slen, this`flags, conn
      ensures Outcome(conn.View(), slen, calls, emit)
           == ReceiveFinWait1(old(conn.View()), seg, old(slen), AckData in old(flags), app)
    {
      calls, emit := [], Drop;
      AddZero(conn.rcvNxt.Val());
      if |seg.payload| > 0 {
        conn.AddRcvNxt(|seg.payload|);
      }
      if seg.bits.fin {
        if AckData in flags {
          conn.Enter(TimeWait);
          conn.timer := 0;
          conn.len := 0;
        } else {
          conn.Enter(Closing);
        }
        conn.AddRcvNxt(1);
        flags := {Close};
        calls := CallAndForget(conn, [], app);
        emit := TcpSend(conn, ACKONLY, 0, false);
      } else if AckData in flags {
        conn.Enter(FinWait2);
        conn.len := 0;
      } else if |seg.payload| > 0 {
        emit := TcpSend(conn, ACKONLY, 0, false);
      }
    }

    method FoundFinWait2(conn: UipConn, seg: Segment, app: App) returns (calls: seq<Callback>, emit: Emit)
      modifies this`slen, this`flags, conn
      ensures Outcome(conn.View(), slen, calls, emit) == ReceiveFinWait2(old(conn.View()), seg, old(slen), app)
    {
      calls, emit := [], Drop;
      AddZero(conn.rcvNxt.Val());
      if |seg.payload| > 0 {
        conn.AddRcvNxt(|seg.payload|);
      }
      if seg.bits.fin {
        conn.Enter(TimeWait);
        conn.timer := 0;
        conn.AddRcvNxt(1);
        flags := {Close};
        calls := CallAndForget(conn, [], app);
        emit := TcpSend(conn, ACKONLY, 0, false);
      } else if |seg.payload| > 0 {
        emit := TcpSend(conn, ACKONLY, 0, false);
      }
    }

    /** Closing the connection and telling the application. */
    method CloseAndTell(conn: UipConn, flag: UipFlag, app: App) returns (calls: seq<Callback>)
      modifies this`slen, this`flags, conn
      ensures Outcome(conn.View(), slen, calls, Drop)
           == TcpSpec.CallAndForget(old(conn.View()).Enter(Closed), {flag}, [], old(slen), app)
    {
      conn.Enter(Closed);
      flags := {flag};
      calls := CallAndForget(conn, [], app);
    }

    method Found(conn: UipConn, seg: Segment, newRto: Byte, app: App) returns (calls: seq<Callback>, emit: Emit)
      requires cfg.Valid()
      modifies this`slen, this`flags, conn
      ensures Outcome(conn.View(), slen, calls, emit) == Receive(cfg, old(conn.View()), seg, old(slen), newRto, app)
    {
      calls, emit := [], Drop;
      flags := {};
      if seg.bits.rst {
        calls := CloseAndTell(conn, Abort, app);
        return;
      }
      QuadValInjective(Bytes(seg.seqno), conn.rcvNxt);
      if !(conn.state.SynSent? && seg.bits == SYNACK) {
        if (|seg.payload| > 0 || seg.bits.syn || seg.bits.fin) && Bytes(seg.seqno) != conn.rcvNxt {
          emit := TcpSend(conn, ACKONLY, 0, false);
          return;
        }
      }
      ProcessAck(conn, seg, newRto);
      match conn.state {
        case SynRcvd => calls, emit := FoundSynRcvd(conn, seg, app);
        case SynSent => calls, emit := FoundSynSent(conn, seg, app);
        case Established => calls, emit := FoundEstablished(conn, seg, app);
        case LastAck =>
          if AckData in flags {
            calls := CloseAndTell(conn, Close, app);
          }
        case FinWait1 => calls, emit := FoundFinWait1(conn, seg, app);
        case FinWait2 => calls, emit := FoundFinWait2(conn, seg, app);
        case TimeWait => emit := TcpSend(conn, ACKONLY, 0, false);
        case Closing =>
          if AckData in flags {
            conn.Enter(TimeWait);
            conn.timer := 0;
          }
        case Closed =>
      }
    }

    // ---------- The table ----------

    ghost predicate Valid()
      reads this
    {
      && cfg.Valid() && |conns| < 0x100 && lastport < 32000
      && forall i, j :: 0 <= i < j < |conns| ==> conns[i] != conns[j]
    }

    ghost function View(): Engine
      reads this, conns
    {
      Engine(Views(conns), listenPorts, iss.Val(), lastport, slen)
    }

    /** Zeroed memory and `uip_init`. */
    constructor (cfg: Config, connsNb: nat, listenNb: nat)
      requires cfg.Valid() && connsNb < 0x100
      ensures Valid() && fresh(conns) && |conns| == connsNb && this.cfg == cfg
      ensures Initial(View()) && lastport == 1024
      ensures |listenPorts| == listenNb && forall port :: port in listenPorts ==> port == 0
    {
      var slots := ZeroedConns(connsNb);
      this.cfg, conns := cfg, slots;
      listenPorts := seq(listenNb, _ => 0);
      iss, lastport, slen, flags := Quad(0, 0, 0, 0), 0, 0, {};
      new;
      Init();
    }

    /** `uip_init` closes all slots, whatever was in them, and no port is listened to. */
    method Init()
      requires cfg.Valid() && |conns| < 0x100 && forall i, j :: 0 <= i < j < |conns| ==> conns[i] != conns[j]
      modifies this`listenPorts, this`lastport, conns`state, conns`stopped
      ensures Valid() && lastport == 1024 && |listenPorts| == |old(listenPorts)|
      ensures forall port :: port in listenPorts ==> port == 0
      ensures forall i :: 0 <= i < |conns| ==> conns[i].View() == old(conns[i].View()).Enter(Closed)
    {
      for c := 0 to |listenPorts|
        invariant |listenPorts| == |old(listenPorts)|
        invariant forall i :: 0 <= i < c ==> listenPorts[i] == 0
        modifies this`listenPorts
      {
        listenPorts := listenPorts[c := 0];
      }
      for c := 0 to |conns|
        invariant forall i :: 0 <= i < c ==> conns[i].View() == old(conns[i].View()).Enter(Closed)
        invariant forall i :: c <= i < |conns| ==> conns[i].View() == old(conns[i].View())
        modifies conns`state, conns`stopped
      {
        conns[c].Enter(Closed);
      }
      lastport := 1024;
    }

    /** The loop at `tcp_input` that looks for the connection a segment belongs to. */
    method FindConnection(seg: Segment) returns (i: nat)
      ensures i == Demux(Views(conns), seg, 0)
    {
      i := 0;
      while i < |conns|
        invariant i <= |conns|
        invariant Demux(Views(conns), seg, i) == Demux(Views(conns), seg, 0)
      {
        var conn := conns[i];
        if !conn.Is(Closed) && seg.destport == conn.lport && seg.srcport == conn.rport && seg.srcip == conn.rip {
          return;
        }
        i := i + 1;
      }
    }

    /** The search for a closed connection or the oldest one in TIME_WAIT. */
    method FindSlot() returns (slot: int)
      ensures slot == ChooseSlot(Views(conns), 0, -1)
      ensures -1 <= slot < |conns|
    {
      slot := -1;
      var c := 0;
      ghost var views := Views(conns);
      while c < |conns|
        invariant 0 <= c <= |conns| && -1 <= slot < c
        invariant ChooseSlot(views, c, slot) == ChooseSlot(views, 0, -1)
      {
        if conns[c].Is(Closed) {
          slot := c;
          return;
        }
        if conns[c].Is(TimeWait) {
          if slot == -1 || conns[c].timer > conns[slot].timer {
            slot := c;
          }
        }
        c := c + 1;
      }
    }

    /** Another record keeps its value when `conn` alone is modified. */
    twostate lemma OnlyOneChanges(i: nat)
      requires i < |conns|
      requires forall j, k :: 0 <= j < k < |conns| ==> conns[j] != conns[k]
      requires forall j :: 0 <= j < |conns| && j != i ==> conns[j].View() == old(conns[j].View())
      ensures Views(conns) == old(Views(conns))[i := conns[i].View()]
    {
    }

    method Timer(i: nat, app: App) returns (calls: seq<Callback>, emit: Emit)
      requires Valid() && i < |conns|
      modifies this`iss, this`slen, this`flags, conns
      ensures Valid() && Next(cfg, old(View()), TimerFor(i, app), View())
      ensures Outcome(conns[i].View(), slen, calls, emit) == TimerStep(cfg, old(conns[i].View()), app)
    {
      hide TimerStep;
      calls, emit := ProcessTimer(conns[i], app);
      OnlyOneChanges(i);
    }

    method PollConn(i: nat, app: App) returns (calls: seq<Callback>, emit: Emit)
      requires Valid() && i < |conns|
      modifies this`slen, this`flags, conns
      ensures Valid() && Next(cfg, old(View()), PollFor(i, app), View())
      ensures Outcome(conns[i].View(), slen, calls, emit) == PollStep(old(conns[i].View()), old(slen), app)
    {
      hide PollStep;
      calls, emit := ProcessPoll(conns[i], app);
      OnlyOneChanges(i);
    }

    /** The label `found_listen`: `permitted` is the outcome of the access list. */
    method FoundListen(seg: Segment, permitted: bool) returns (emit: Emit)
      requires Valid()
      requires Demux(Views(conns), seg, 0) == |conns| && seg.bits == SYNONLY && seg.destport in listenPorts
      modifies conns
      ensures View() == old(var s := AcceptingSlot(View(), seg, permitted);
        if 0 <= s < |View().conns|
        then View().(conns := View().conns[s := PassiveOpen(cfg, View().conns[s], seg, View().iss)])
        else View())
      ensures emit == old(UnmatchedReply(cfg, View(), seg, permitted))
    {
      hide ChooseSlot, PassiveOpen, Demux;
      emit := Drop;
      if !permitted {
        return;
      }
      var slot := FindSlot();
      if slot == -1 {
        return;
      }
      var conn := conns[slot];
      FillPassive(conn, cfg, seg, iss);
      emit := TcpSend(conn, SYNACK, 0, true);
      OnlyOneChanges(slot);
    }

    /** `uip_process(UIP_DATA)` from the label `tcp_input` on. */
    method Input(seg: Segment, newRto: Byte, permitted: bool, app: App) returns (calls: seq<Callback>, emit: Emit)
      requires Valid()
      modifies this`slen, this`flags, conns
      ensures Valid() && Next(cfg, old(View()), Arrives(seg, newRto, permitted, app), View())
      ensures var i := old(Demux(Views(conns), seg, 0));
        if i < |conns| then
          Outcome(conns[i].View(), slen, calls, emit) == Receive(cfg, old(Views(conns))[i], seg, old(slen), newRto, app)
        else
          calls == [] && emit == old(UnmatchedReply(cfg, View(), seg, permitted))
    {
      hide Receive, AcceptingSlot, UnmatchedReply, PassiveOpen, Demux, Next;
      calls, emit := [], Drop;
      var i := FindConnection(seg);
      if i < |conns| {
        calls, emit := Matched(i, seg, newRto, app);
        NextOfMatched(cfg, old(View()), seg, newRto, permitted, app);
      } else {
        emit := Unmatched(seg, permitted);
        NextOfUnmatched(cfg, old(View()), seg, newRto, permitted, app);
      }
    }

    /** A segment for the connection in slot `i`. */
    method Matched(i: nat, seg: Segment, newRto: Byte, app: App) returns (calls: seq<Callback>, emit: Emit)
      requires Valid() && i < |conns|
      modifies this`slen, this`flags, conns
      ensures View() == old(View()).(conns := old(Views(conns))[i := conns[i].View()], slen := slen)
      ensures Outcome(conns[i].View(), slen, calls, emit) == Receive(cfg, old(Views(conns))[i], seg, old(slen), newRto, app)
    {
      hide Receive;
      calls, emit := Found(conns[i], seg, newRto, app);
      OnlyOneChanges(i);
    }

    /** A segment that belongs to no connection. */
    method Unmatched(seg: Segment, permitted: bool) returns (emit: Emit)
      requires Valid() && Demux(Views(conns), seg, 0) == |conns|
      modifies conns
      ensures View() == old(var s := AcceptingSlot(View(), seg, permitted);
        if 0 <= s < |View().conns|
        then View().(conns := View().conns[s := PassiveOpen(cfg, View().conns[s], seg, View().iss)])
        else View())
      ensures emit == old(UnmatchedReply(cfg, View(), seg, permitted))
    {
      hide PassiveOpen, ChooseSlot, Demux;
      if seg.bits != SYNONLY {
        emit := Reset(seg);
      } else {
        var listening := IsListening(seg.destport);
        if !listening {
          emit := Reset(seg);
        } else {
          emit := FoundListen(seg, permitted);
        }
      }
    }

    /** The search for a listening port. */
    method IsListening(port: U16) returns (listening: bool)
      ensures listening <==> port in listenPorts
    {
      var c := 0;
      while c < |listenPorts|
        invariant 0 <= c <= |listenPorts|
        invariant port !in listenPorts[..c]
      {
        if listenPorts[c] == port {
          return true;
        }
        c := c + 1;
      }
      listening := false;
    }

    /** One pass over the table for the port `lastport`. */
    method PortInUse() returns (taken: bool)
      ensures taken <==> lastport in UsedPorts(Views(conns))
    {
      HtonsInvolution(lastport);
      var c := 0;
      taken := false;
      while c < |conns|
        invariant 0 <= c <= |conns|
        invariant forall j :: 0 <= j < c && !conns[j].Is(Closed) ==> conns[j].lport != Htons(lastport)
      {
        if !conns[c].Is(Closed) && conns[c].lport == Htons(lastport) {
          assert Htons(Views(conns)[c].lport) in UsedPorts(Views(conns));
          return true;
        }
        c := c + 1;
      }
      forall j | 0 <= j < |conns| && !Views(conns)[j].Is(Closed)
        ensures Htons(Views(conns)[j].lport) != lastport
      {
        HtonsInvolution(conns[j].lport);
      }
    }

    /** The search at the label `again`: it ends because some port is free. */
    method ChoosePort()
      requires Valid()
      modifies this`lastport
      ensures lastport < 32000 && IsNextFree(UsedPorts(Views(conns)), old(lastport), lastport)
    {
      hide Searched, NextPort, PortDistance, UsedPorts, IsNextFree, PortsAhead, Htons;
      ghost var used, tries: nat := UsedPorts(Views(conns)), 1;
      UsedPortsAreFew(Views(conns));
      ghost var f := FreePortExists(used, 4096);
      SearchStarts(used, lastport);
      var taken := TryNextPort(used);
      while taken
        invariant lastport < 32000 && Searched(used, old(lastport), lastport, tries)
        invariant used == UsedPorts(Views(conns)) && (taken <==> lastport in used)
        decreases taken, PortDistance(lastport, f)
      {
        SearchComesCloser(used, old(lastport), lastport, tries, f);
        taken := TryNextPort(used);
        tries := tries + 1;
      }
      SearchEnds(used, old(lastport), lastport, tries);
    }

    /** One step of the search. */
    method TryNextPort(ghost used: set<U16>) returns (taken: bool)
      requires used == UsedPorts(Views(conns))
      modifies this`lastport
      ensures lastport == NextPort(old(lastport)) && used == UsedPorts(Views(conns)) && (taken <==> lastport in used)
    {
      hide UsedPorts, NextPort, Htons;
      lastport := NextPort(lastport);
      taken := PortInUse();
    }

    /** `uip_connect` */
    method Connect(rip: U32, rport: U16) returns (slot: int)
      requires Valid()
      modifies this`lastport, conns
      ensures Valid() && Next(cfg, old(View()), Connects(rip, rport), View())
      ensures slot == old(ChooseSlot(Views(conns), 0, -1))
    {
      hide ChooseSlot, ActiveOpen, IsNextFree;
      ChoosePort();
      slot := FindSlot();
      if slot >= 0 {
        var conn := conns[slot];
        FillActive(conn, cfg, Htons(lastport), rip, rport, iss);
        OnlyOneChanges(slot);
      }
    }
  }

  lemma NextOfMatched(cfg: Config, e: Engine, seg: Segment, newRto: Byte, permitted: bool, app: App)
    requires cfg.Valid() && Demux(e.conns, seg, 0) < |e.conns|
    ensures var i := Demux(e.conns, seg, 0);
      var o := Receive(cfg, e.conns[i], seg, e.slen, newRto, app);
      Next(cfg, e, Arrives(seg, newRto, permitted, app), e.(conns := e.conns[i := o.conn], slen := o.slen))
  {
    hide Receive, Demux;
  }

  lemma NextOfUnmatched(cfg: Config, e: Engine, seg: Segment, newRto: Byte, permitted: bool, app: App)
    requires cfg.Valid() && Demux(e.conns, seg, 0) == |e.conns|
    ensures var s := AcceptingSlot(e, seg, permitted);
      Next(cfg, e, Arrives(seg, newRto, permitted, app),
        if 0 <= s < |e.conns| then e.(conns := e.conns[s := PassiveOpen(cfg, e.conns[s], seg, e.iss)]) else e)
  {
    hide PassiveOpen, AcceptingSlot, Demux;
  }

  /** The records of a table as values. */
  ghost function Views(conns: seq<UipConn>): (views: seq<Conn>)
    reads conns
    ensures |views| == |conns|
    ensures forall i :: 0 <= i < |conns| ==> views[i] == conns[i].View()
  {
    if conns == [] then [] else [conns[0].View()] + Views(conns[1..])
  }
}
