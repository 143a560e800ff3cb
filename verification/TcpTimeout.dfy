/** How long a connection survives when nothing but the periodic timer happens to it. */
module TcpTimeout {
  import opened Octets
  import opened TcpSpec
  import opened TcpConnection

  /** Something is waited for: outstanding data, or the end of FIN_WAIT_2 or TIME_WAIT. */
  predicate Waiting(c: Conn) {
    c.state.FinWait2? || c.state.TimeWait? || (!c.state.Closed? && c.len > 0)
  }

  /** The number of retransmissions the state allows. */
  function Limit(cfg: Config, c: Conn): nat {
    if (c.state.SynRcvd? || c.state.SynSent?) && cfg.maxSynRtx < cfg.maxRtx then cfg.maxSynRtx else cfg.maxRtx
  }

  /** Ticks from the retransmission that follows `nrtx` earlier ones up to giving up. */
  function RetransmissionTicks(cfg: Config, limit: nat, nrtx: nat): nat
    requires cfg.Valid()
    decreases limit - nrtx
  {
    if nrtx >= limit then 0 else cfg.Backoff(nrtx) + 1 + RetransmissionTicks(cfg, limit, nrtx + 1)
  }

  /** The number of timer calls after which a silent peer's connection is closed. */
  function TicksLeft(cfg: Config, c: Conn): nat
    requires cfg.Valid()
  {
    if c.state.FinWait2? || c.state.TimeWait? then (cfg.timeWaitTimeout + 0xff - c.timer) % 0x100 + 1
    else c.timer + 1 + RetransmissionTicks(cfg, Limit(cfg, c), c.nrtx)
  }

  lemma TickCountsDown(cfg: Config, c: Conn, app: App)
    requires cfg.Valid() && Coupled(cfg, c) && app.Disciplined() && Waiting(c)
    ensures var c' := TimerStep(cfg, c, app).conn;
      && Coupled(cfg, c')
      && (TicksLeft(cfg, c) == 1 <==> c'.state.Closed?)
      && (TicksLeft(cfg, c) > 1 ==> Waiting(c') && TicksLeft(cfg, c') == TicksLeft(cfg, c) - 1)
  {
    TimerCoupled(cfg, c, app);
    if c.state.Established? && c.timer == 0 && c.nrtx < cfg.maxRtx {
      var r := c.(timer := cfg.Backoff(c.nrtx), nrtx := Add8(c.nrtx, 1));
      CallbackFacts(r, {Rexmit}, 0, app);
    }
  }

  function TickRun(cfg: Config, c: Conn, apps: seq<App>): Conn
    requires cfg.Valid()
    decreases |apps|
  {
    if apps == [] then c else TickRun(cfg, TimerStep(cfg, c, apps[0]).conn, apps[1..])
  }

  /** A closed slot stays closed under the timer. */
  lemma {:induction false} ClosedStaysClosed(cfg: Config, c: Conn, apps: seq<App>)
    requires cfg.Valid() && c.Is(Closed)
    ensures TickRun(cfg, c, apps).Is(Closed)
    decreases |apps|
  {
    if apps != [] {
      ClosedStaysClosed(cfg, TimerStep(cfg, c, apps[0]).conn, apps[1..]);
    }
  }

  /**
   * With a silent peer, and whatever the application does when called, a waiting connection is
   * closed from the TicksLeft-th timer call on, and not earlier.
   */
  lemma {:induction false} SilentPeerTermination(cfg: Config, c: Conn, apps: seq<App>)
    requires cfg.Valid() && Coupled(cfg, c) && Waiting(c)
    requires forall a :: a in apps ==> a.Disciplined()
    ensures TickRun(cfg, c, apps).state.Closed? <==> |apps| >= TicksLeft(cfg, c)
    decreases |apps|
  {
    if apps != [] {
      var c' := TimerStep(cfg, c, apps[0]).conn;
      TickCountsDown(cfg, c, apps[0]);
      if c'.state.Closed? {
        ClosedStaysClosed(cfg, c', apps[1..]);
      } else {
        SilentPeerTermination(cfg, c', apps[1..]);
      }
    }
  }

  function TickCount(run: seq<Input>): nat
    decreases |run|
  {
    if run == [] then 0 else (if run[0].Tick? then 1 else 0) + TickCount(run[1..])
  }

  /** Polls in between change nothing: a waiting connection is not polled. */
  lemma {:induction false} SilentRun(cfg: Config, c: Conn, run: seq<Input>)
    requires cfg.Valid() && Coupled(cfg, c) && Disciplined(run) && (Waiting(c) || c.Is(Closed))
    requires forall i :: i in run ==> !i.Data?
    ensures ConnRun(cfg, c, run).state.Closed? <==> c.state.Closed? || TickCount(run) >= TicksLeft(cfg, c)
    decreases |run|
  {
    hide RetransmissionTicks;
    if run != [] {
      var c' := ConnStep(cfg, c, run[0]).conn;
      assert run[0] in run;
      if !c.state.Closed? && run[0].Tick? {
        TickCountsDown(cfg, c, run[0].app);
      }
      SilentRun(cfg, c', run[1..]);
    }
  }

  lemma {:induction false} RetransmissionTicksBound(cfg: Config, limit: nat, nrtx: nat, longest: nat)
    requires cfg.Valid() && nrtx <= limit && longest == cfg.rto * 16 + 1
    ensures RetransmissionTicks(cfg, limit, nrtx) <= (limit - nrtx) * longest
    decreases limit - nrtx
  {
    if nrtx < limit {
      RetransmissionTicksBound(cfg, limit, nrtx + 1, longest);
      OneMore(limit - nrtx - 1, longest);
    }
  }

  lemma OneMore(a: nat, k: nat)
    ensures (a + 1) * k == a * k + k
  {
  }

  lemma ScaleMonotone(a: nat, b: nat, k: nat)
    requires a <= b
    ensures a * k <= b * k
  {
  }

  /** The time is bounded by the compile-time parameters alone. */
  lemma TicksLeftBound(cfg: Config, c: Conn)
    requires cfg.Valid() && Coupled(cfg, c) && Waiting(c)
    ensures TicksLeft(cfg, c) <= 0x100 + cfg.maxRtx * (cfg.rto * 16 + 1)
  {
    hide RetransmissionTicks;
    var longest := cfg.rto * 16 + 1;
    ScaleMonotone(0, cfg.maxRtx, longest);
    if !c.state.FinWait2? && !c.state.TimeWait? {
      RetransmissionTicksBound(cfg, Limit(cfg, c), c.nrtx, longest);
      ScaleMonotone(Limit(cfg, c) - c.nrtx, cfg.maxRtx, longest);
    }
  }
}
