/** When the engine retransmits, and what, while the peer is silent: binary exponential backoff. */
module TcpBackoff {
  import opened Octets
  import opened TcpSpec
  import opened TcpConnection
  import opened TcpTimeout

  function Pow2(n: nat): (p: nat)
    ensures p >= 1
  {
    if n == 0 then 1 else 2 * Pow2(n - 1)
  }

  function AtMost4(n: nat): nat {
    if n < 4 then n else 4
  }

  /** The interval doubles with every retransmission, four times. */
  lemma BackoffDoubles(cfg: Config, n: nat)
    requires cfg.Valid()
    ensures cfg.Backoff(n) == cfg.rto * Pow2(AtMost4(n))
    ensures cfg.Backoff(n + 1) == if n < 4 then 2 * cfg.Backoff(n) else cfg.Backoff(n)
  {
    assert Pow2(0) == 1 && Pow2(1) == 2 && Pow2(2) == 4 && Pow2(3) == 8 && Pow2(4) == 16;
  }

  /** The sum of the first `n` powers in the schedule, in closed form. */
  function Doublings(n: nat): nat {
    if n <= 4 then Pow2(n) - 1 else 15 + 16 * (n - 4)
  }

  lemma DoublingsStep(n: nat)
    ensures Doublings(n + 1) == Doublings(n) + Pow2(AtMost4(n))
  {
    assert Pow2(0) == 1 && Pow2(1) == 2 && Pow2(2) == 4 && Pow2(3) == 8 && Pow2(4) == 16;
  }

  lemma DoublingsGrow(m: nat, n: nat)
    requires m <= n
    ensures Doublings(m) <= Doublings(n)
    decreases n - m
  {
    if m < n {
      DoublingsStep(n - 1);
      DoublingsGrow(m, n - 1);
    }
  }

  lemma {:induction false} RetransmissionTicksAre(cfg: Config, limit: nat, nrtx: nat)
    requires cfg.Valid() && nrtx <= limit
    ensures RetransmissionTicks(cfg, limit, nrtx) == cfg.rto * (Doublings(limit) - Doublings(nrtx)) + (limit - nrtx)
    decreases limit - nrtx
  {
    if nrtx < limit {
      RetransmissionTicksAre(cfg, limit, nrtx + 1);
      BackoffDoubles(cfg, nrtx);
      DoublingsStep(nrtx);
      Distributes(cfg.rto, Doublings(limit) - Doublings(nrtx + 1), Pow2(AtMost4(nrtx)));
    }
  }

  lemma Distributes(a: int, x: int, y: int)
    ensures a * (x + y) == a * x + a * y
  {
  }

  /** The time a silent peer is given, in closed form. */
  lemma TicksLeftIs(cfg: Config, c: Conn)
    requires cfg.Valid() && Coupled(cfg, c) && Waiting(c) && !c.state.FinWait2? && !c.state.TimeWait?
    ensures TicksLeft(cfg, c) ==
      c.timer + 1 + cfg.rto * (Doublings(Limit(cfg, c)) - Doublings(c.nrtx)) + (Limit(cfg, c) - c.nrtx)
  {
    RetransmissionTicksAre(cfg, Limit(cfg, c), c.nrtx);
  }

  // ---------- The schedule ----------

  /** The timer call, counted from one, that sends retransmission number `k`. */
  function SendTick(cfg: Config, c: Conn, k: nat): int
  {
    c.timer + 1 + cfg.rto * (Doublings(k) - Doublings(c.nrtx)) + (k - c.nrtx)
  }

  /** Consecutive retransmissions are the backoff apart, and one more for the call that sends. */
  lemma SendTicksAreApart(cfg: Config, c: Conn, k: nat)
    ensures SendTick(cfg, c, k + 1) - SendTick(cfg, c, k) == cfg.rto * Pow2(AtMost4(k)) + 1
  {
    DoublingsStep(k);
    Distributes(cfg.rto, Doublings(k) - Doublings(c.nrtx), Pow2(AtMost4(k)));
  }

  /** What a retransmission is: the segment of the state, or in ESTABLISHED a callback that may produce the data again. */
  ghost predicate IsRetransmission(c: Conn, o: Outcome) {
    match c.state
    case SynRcvd => o.calls == [] && o.emit == Send(c.lport, c.rip, c.rport, c.sndNxt, c.rcvNxt, SYNACK, 0, Open, true)
    case SynSent => o.calls == [] && o.emit == Send(c.lport, c.rip, c.rport, c.sndNxt, c.rcvNxt, SYNONLY, 0, Open, true)
    case Established => o.calls == [Callback({Rexmit}, [])]
    case _ => o.calls == [] && o.emit == Send(c.lport, c.rip, c.rport, c.sndNxt, c.rcvNxt, FINACK, 0, Open, false)
  }

  /** Giving up: the application is told and the peer is sent an RST. */
  ghost predicate IsGivingUp(c: Conn, o: Outcome) {
    && o.calls == [Callback({TimedOut}, [])] && o.conn.state.Closed?
    && o.emit == Send(c.lport, c.rip, c.rport, c.sndNxt, c.rcvNxt, RSTACK, 0, Open, false)
  }

  predicate Quiet(o: Outcome) {
    o.calls == [] && o.emit == Drop
  }

  predicate Kept(c: Conn, c': Conn) {
    && c'.state == c.state && c'.sndNxt == c.sndNxt && c'.rcvNxt == c.rcvNxt && c'.len == c.len
    && c'.lport == c.lport && c'.rport == c.rport && c'.rip == c.rip
  }

  /** One timer call on a connection with something outstanding. */
  lemma OneTick(cfg: Config, c: Conn, app: App)
    requires cfg.Valid() && Coupled(cfg, c) && app.Disciplined() && c.len > 0 && !c.state.Closed?
    ensures var o := TimerStep(cfg, c, app);
      if c.timer > 0 then Quiet(o) && o.conn == c.(timer := c.timer - 1)
      else if c.nrtx == Limit(cfg, c) then IsGivingUp(c, o)
      else
        && IsRetransmission(c, o) && Kept(c, o.conn)
        && o.conn.timer == cfg.Backoff(c.nrtx) && o.conn.nrtx == c.nrtx + 1
  {
    var r := c.(timer := cfg.Backoff(c.nrtx), nrtx := Add8(c.nrtx, 1));
    CallbackFacts(r, {Rexmit}, 0, app);
    CallbackFacts(c.Enter(Closed).(timer := 0xff), {TimedOut}, 0, app);
  }

  lemma OneTickOfSchedule(cfg: Config, c: Conn, app: App, k: nat)
    requires cfg.Valid() && Coupled(cfg, c) && app.Disciplined() && c.len > 0 && !c.state.Closed?
    requires c.timer > 0 || c.nrtx < Limit(cfg, c)
    ensures var c' := TimerStep(cfg, c, app).conn;
      Kept(c, c') && SendTick(cfg, c', k) == SendTick(cfg, c, k) - 1
  {
    OneTick(cfg, c, app);
    hide TimerStep, Doublings, Coupled, IsRetransmission, IsGivingUp, Config.Backoff, Pow2;
    if c.timer == 0 {
      BackoffDoubles(cfg, c.nrtx);
      DoublingsStep(c.nrtx);
      Distributes(cfg.rto, Doublings(k) - Doublings(c.nrtx + 1), Pow2(AtMost4(c.nrtx)));
    }
  }

  lemma SendTicksGrow(cfg: Config, c: Conn, k: nat)
    requires c.nrtx <= k
    ensures SendTick(cfg, c, k) >= c.timer + 1 + (k - c.nrtx)
  {
    DoublingsGrow(c.nrtx, k);
  }

  /** The retransmission number `k` is call number `n`. */
  ghost predicate Sends(cfg: Config, c: Conn, n: nat, k: nat) {
    c.nrtx <= k < Limit(cfg, c) && n == SendTick(cfg, c, k)
  }

  ghost predicate Scheduled(cfg: Config, c: Conn, n: nat) {
    exists k :: Sends(cfg, c, n, k)
  }

  lemma FirstTick(cfg: Config, c: Conn, app: App)
    requires cfg.Valid() && Coupled(cfg, c) && app.Disciplined() && c.len > 0 && !c.state.Closed?
    ensures var o := TimerStep(cfg, c, app);
      if TicksLeft(cfg, c) == 1 then IsGivingUp(c, o)
      else if Scheduled(cfg, c, 1) then IsRetransmission(c, o)
      else Quiet(o)
  {
    OneTick(cfg, c, app);
    hide TimerStep, IsGivingUp, IsRetransmission, Quiet;
    assert TicksLeft(cfg, c) == 1 <==> c.timer == 0 && c.nrtx == Limit(cfg, c);
    assert SendTick(cfg, c, c.nrtx) == c.timer + 1;
    if c.timer == 0 && c.nrtx < Limit(cfg, c) {
      assert Sends(cfg, c, 1, c.nrtx);
    }
    forall k: nat | Sends(cfg, c, 1, k) ensures c.timer == 0 && c.nrtx < Limit(cfg, c) {
      SendTicksGrow(cfg, c, k);
    }
  }

  lemma NotYet(cfg: Config, c: Conn, app: App)
    requires cfg.Valid() && Coupled(cfg, c) && app.Disciplined() && c.len > 0 && !c.state.Closed?
    requires TicksLeft(cfg, c) > 1
    ensures c.timer > 0 || c.nrtx < Limit(cfg, c)
    ensures var c' := TimerStep(cfg, c, app).conn;
      Kept(c, c') && Limit(cfg, c') == Limit(cfg, c)
      && c'.nrtx == c.nrtx + if c.timer == 0 then 1 else 0
  {
    OneTick(cfg, c, app);
  }

  lemma SendsLater(cfg: Config, c: Conn, app: App, n: nat, k: nat)
    requires cfg.Valid() && Coupled(cfg, c) && app.Disciplined() && c.len > 0 && !c.state.Closed?
    requires TicksLeft(cfg, c) > 1 && n >= 2
    ensures Sends(cfg, TimerStep(cfg, c, app).conn, n - 1, k) <==> Sends(cfg, c, n, k)
  {
    hide TimerStep, Coupled, TicksLeft, Doublings, Limit;
    NotYet(cfg, c, app);
    OneTickOfSchedule(cfg, c, app, k);
    assert SendTick(cfg, c, c.nrtx) == c.timer + 1;
    hide SendTick;
  }

  lemma ScheduledLater(cfg: Config, c: Conn, app: App, n: nat)
    requires cfg.Valid() && Coupled(cfg, c) && app.Disciplined() && c.len > 0 && !c.state.Closed?
    requires TicksLeft(cfg, c) > 1 && n >= 2
    ensures Scheduled(cfg, TimerStep(cfg, c, app).conn, n - 1) <==> Scheduled(cfg, c, n)
  {
    hide TimerStep, Coupled, TicksLeft, Sends;
    var c', m := TimerStep(cfg, c, app).conn, n - 1;
    if k :| Sends(cfg, c, n, k) {
      SendsLater(cfg, c, app, n, k);
      assert Sends(cfg, c', m, k);
    }
    if k :| Sends(cfg, c', m, k) {
      SendsLater(cfg, c, app, n, k);
      assert Sends(cfg, c, n, k);
    }
  }

  /**
   * Timer call number `n` while the peer is silent: a retransmission exactly at the times of the
   * schedule, giving up at the end of it, and nothing in between.
   */
  lemma {:induction false} Schedule(cfg: Config, c: Conn, apps: seq<App>, n: nat)
    requires cfg.Valid() && Coupled(cfg, c) && c.len > 0 && !c.state.Closed?
    requires (forall a :: a in apps ==> a.Disciplined()) && 1 <= n <= |apps| && n <= TicksLeft(cfg, c)
    ensures var before := TickRun(cfg, c, apps[..n - 1]);
      var o := TimerStep(cfg, before, apps[n - 1]);
      && Kept(c, before)
      && (if n == TicksLeft(cfg, c) then IsGivingUp(before, o)
          else if Scheduled(cfg, c, n) then IsRetransmission(before, o)
          else Quiet(o))
    decreases |apps|
  {
    hide SendTick, TimerStep, IsGivingUp, IsRetransmission, TicksLeft, Scheduled;
    TickCountsDown(cfg, c, apps[0]);
    TimerCoupled(cfg, c, apps[0]);
    if n == 1 {
      assert apps[..0] == [];
      FirstTick(cfg, c, apps[0]);
    } else {
      var c', rest := TimerStep(cfg, c, apps[0]).conn, apps[1..];
      assert apps[..n - 1][0] == apps[0] && apps[..n - 1][1..] == rest[..n - 2] && rest[n - 2] == apps[n - 1];
      NotYet(cfg, c, apps[0]);
      Schedule(cfg, c', rest, n - 1);
      ScheduledLater(cfg, c, apps[0], n);
      assert TickRun(cfg, c, apps[..n - 1]) == TickRun(cfg, c', rest[..n - 2]);
      assert TicksLeft(cfg, c') == n - 1 <==> TicksLeft(cfg, c) == n;
    }
  }

  /** The SYN of `uip_connect` goes out with the second timer call; an accepted SYN's answer is repeated after `rto`. */
  lemma FirstTransmission(cfg: Config, slot: Conn, seg: Segment, iss: U32, lport: U16, rip: U32, rport: U16)
    requires cfg.Valid()
    ensures SendTick(cfg, ActiveOpen(cfg, slot, lport, rip, rport, iss), 0) == 2
    ensures SendTick(cfg, PassiveOpen(cfg, slot, seg, iss), 0) == cfg.rto + 1
  {
  }
}
