/**
 * One neighbour entry under the periodic scan and, in between, the traffic to it: every packet that
 * is resolved puts off the next solicitation.
 */
module NbrLives {
  import opened Octets
  import opened Ip6Match
  import opened Ip6Addresses
  import opened Neighbours

  datatype NbrEvent = Scan(at: nat) | Lookup(at: nat)

  /** An INCOMPLETE entry's address is not handed out, and the entry stays as it is. */
  function After(n: Nbr, e: NbrEvent, retrans: nat): Nbr {
    match e
    case Scan(at) => Tick(n, at, retrans)
    case Lookup(at) => if n.isUsed && n.state != Incomplete then Consulted(n, at, retrans) else n
  }

  function Life(n: Nbr, es: seq<NbrEvent>, retrans: nat): Nbr
    decreases |es|
  {
    if es == [] then n else Life(After(n, es[0], retrans), es[1..], retrans)
  }

  function SolicitedIn(n: Nbr, es: seq<NbrEvent>, retrans: nat): nat
    decreases |es|
  {
    if es == [] then 0
    else (if es[0].Scan? && Solicited(n, es[0].at) then 1 else 0)
         + SolicitedIn(After(n, es[0], retrans), es[1..], retrans)
  }

  lemma {:induction false} GoneStaysGone(n: Nbr, es: seq<NbrEvent>, retrans: nat)
    requires !n.isUsed
    ensures Life(n, es, retrans) == n && SolicitedIn(n, es, retrans) == 0
    decreases |es|
  {
    if es != [] {
      GoneStaysGone(n, es[1..], retrans);
    }
  }

  /** However scans and packets alternate: an entry that is gone has had three solicitations, another as many as it counts. */
  lemma {:induction false} GivesUpAfterThreeInTraffic(n: Nbr, es: seq<NbrEvent>, retrans: nat)
    requires Asking(n)
    ensures var m := Life(n, es, retrans);
      && Spent(n) + SolicitedIn(n, es, retrans) == (if m.isUsed then Spent(m) else MAX_SOLICIT)
      && (m.isUsed ==> Asking(m))
    decreases |es|
  {
    if es != [] {
      var m := After(n, es[0], retrans);
      if m.isUsed {
        GivesUpAfterThreeInTraffic(m, es[1..], retrans);
      } else {
        GoneStaysGone(m, es[1..], retrans);
      }
    }
  }

  /**
   * The scans that find the entry left alone for long enough, read off the times alone: a scan is
   * due from `due` on; a due scan and, in PROBE, a packet put that off by `retrans`.
   */
  function QuietScans(state: NbrState, due: nat, es: seq<NbrEvent>, retrans: nat): nat
    decreases |es|
  {
    if es == [] then 0
    else match es[0]
      case Scan(at) =>
        if at >= due then 1 + QuietScans(if state == Delay then Probe else state, at + retrans, es[1..], retrans)
        else QuietScans(state, due, es[1..], retrans)
      case Lookup(at) => QuietScans(state, if state == Probe then at + retrans else due, es[1..], retrans)
  }

  /** The scan at `k` comes after as many quiet scans as the entry has solicitations left. */
  predicate EndsAt(n: Nbr, es: seq<NbrEvent>, retrans: nat, k: nat) {
    k < |es| && es[k].Scan? && QuietScans(n.state, DueAt(n), es[..k], retrans) >= MAX_SOLICIT - Spent(n)
  }

  lemma EndsLater(n: Nbr, es: seq<NbrEvent>, retrans: nat, k: nat)
    requires Asking(n) && es != [] && After(n, es[0], retrans).isUsed
    ensures EndsAt(After(n, es[0], retrans), es[1..], retrans, k) <==> EndsAt(n, es, retrans, k + 1)
  {
    if k < |es[1..]| {
      assert es[..k + 1][0] == es[0] && es[..k + 1][1..] == es[1..][..k];
    }
  }

  /** Exactly such a scan ends the entry's life. */
  lemma {:induction false} LivesUntilQuiet(n: Nbr, es: seq<NbrEvent>, retrans: nat)
    requires Asking(n)
    ensures Life(n, es, retrans).isUsed <==> !exists k: nat :: EndsAt(n, es, retrans, k)
    decreases |es|
  {
    if es != [] {
      var m, rest := After(n, es[0], retrans), es[1..];
      if m.isUsed {
        LivesUntilQuiet(m, rest, retrans);
        forall k: nat ensures EndsAt(m, rest, retrans, k) <==> EndsAt(n, es, retrans, k + 1) {
          EndsLater(n, es, retrans, k);
        }
        if k: nat :| EndsAt(n, es, retrans, k) {
          assert k > 0 && EndsAt(m, rest, retrans, k - 1);
        }
      } else {
        GoneStaysGone(m, rest, retrans);
        assert EndsAt(n, es, retrans, 0);
      }
    }
  }

  /** Every scan comes before `due`, or less than `retrans` after some packet. */
  predicate Busy(due: nat, es: seq<NbrEvent>, retrans: nat) {
    forall k :: 0 <= k < |es| && es[k].Scan? ==> es[k].at < due || FollowsLookup(es, k, retrans)
  }

  predicate FollowsLookup(es: seq<NbrEvent>, k: nat, retrans: nat)
    requires k < |es|
  {
    exists j :: 0 <= j < k && es[j].Lookup? && es[k].at < es[j].at + retrans
  }

  predicate InOrder(es: seq<NbrEvent>) {
    forall j, k :: 0 <= j < k < |es| ==> es[j].at <= es[k].at
  }

  lemma {:induction false} BusyIsNeverQuiet(due: nat, es: seq<NbrEvent>, retrans: nat)
    requires Busy(due, es, retrans) && InOrder(es)
    requires es != [] ==> due <= es[0].at + retrans
    ensures QuietScans(Probe, due, es, retrans) == 0
    decreases |es|
  {
    if es != [] {
      var rest := es[1..];
      var due' := if es[0].Lookup? then es[0].at + retrans else due;
      assert InOrder(rest);
      forall k | 0 <= k < |rest| && rest[k].Scan? ensures rest[k].at < due' || FollowsLookup(rest, k, retrans) {
        assert rest[k] == es[k + 1];
        if FollowsLookup(es, k + 1, retrans) {
          var j :| 0 <= j < k + 1 && es[j].Lookup? && es[k + 1].at < es[j].at + retrans;
          assert j > 0 ==> rest[j - 1] == es[j];
        }
      }
      if es[0].Scan? {
        assert !FollowsLookup(es, 0, retrans);
      }
      BusyIsNeverQuiet(due', rest, retrans);
    }
  }

  /**
   * Hence traffic keeps a dead neighbour in the cache: as long as every scan follows a packet to it by
   * less than the retransmission interval, a probed entry is neither solicited again nor given up.
   */
  lemma BusyNeighbourStays(n: Nbr, es: seq<NbrEvent>, retrans: nat)
    requires n.isUsed && n.state == Probe && n.nsCount < MAX_SOLICIT
    requires Busy(n.sendNsAt, es, retrans) && InOrder(es) && (es != [] ==> n.sendNsAt <= es[0].at + retrans)
    ensures Life(n, es, retrans).isUsed && SolicitedIn(n, es, retrans) == 0
  {
    BusyIsNeverQuiet(n.sendNsAt, es, retrans);
    SolicitedWhenQuiet(n, es, retrans);
    GivesUpAfterThreeInTraffic(n, es, retrans);
  }

  /** Until an entry has its three, each quiet scan is a solicitation. */
  lemma {:induction false} SolicitedWhenQuiet(n: Nbr, es: seq<NbrEvent>, retrans: nat)
    requires Asking(n)
    ensures var quiet, left := QuietScans(n.state, DueAt(n), es, retrans), MAX_SOLICIT - Spent(n);
      SolicitedIn(n, es, retrans) == if quiet < left then quiet else left
    decreases |es|
  {
    if es != [] {
      var m := After(n, es[0], retrans);
      if m.isUsed {
        SolicitedWhenQuiet(m, es[1..], retrans);
      } else {
        GoneStaysGone(m, es[1..], retrans);
      }
    }
  }

  // ---------- From REACHABLE to the end ----------

  /** A REACHABLE entry is left alone until the first scan at or after its time, whatever is sent to it. */
  lemma {:induction false} ReachableUntilItsTime(n: Nbr, es: seq<NbrEvent>, retrans: nat)
    requires n.isUsed && n.state == Reachable
    requires forall e :: e in es && e.Scan? ==> e.at < n.reachableAt
    ensures var m := Life(n, es, retrans);
      m == n.(sendNsAt := m.sendNsAt) && SolicitedIn(n, es, retrans) == 0
    decreases |es|
  {
    if es != [] {
      assert es[0] in es;
      ReachableUntilItsTime(After(n, es[0], retrans), es[1..], retrans);
    }
  }

  /** That scan makes it STALE, without a solicitation. */
  lemma ReachableAges(n: Nbr, at: nat, retrans: nat)
    requires n.isUsed && n.state == Reachable && at >= n.reachableAt
    ensures After(n, Scan(at), retrans) == n.(state := Stale) && !Solicited(n, at)
  {
  }

  /** A STALE entry is left alone by scans, for any time. */
  lemma {:induction false} StaleUntilUsed(n: Nbr, es: seq<NbrEvent>, retrans: nat)
    requires n.isUsed && n.state == Stale && forall e :: e in es ==> e.Scan?
    ensures Life(n, es, retrans) == n && SolicitedIn(n, es, retrans) == 0
    decreases |es|
  {
    if es != [] {
      assert es[0] in es;
      StaleUntilUsed(n, es[1..], retrans);
    }
  }

  lemma {:induction false} LifeInTwoParts(n: Nbr, es: seq<NbrEvent>, fs: seq<NbrEvent>, retrans: nat)
    ensures Life(n, es + fs, retrans) == Life(Life(n, es, retrans), fs, retrans)
    ensures SolicitedIn(n, es + fs, retrans) == SolicitedIn(n, es, retrans) + SolicitedIn(Life(n, es, retrans), fs, retrans)
    decreases |es|
  {
    if es == [] {
      assert es + fs == fs;
    } else {
      assert (es + fs)[1..] == es[1..] + fs;
      LifeInTwoParts(After(n, es[0], retrans), es[1..], fs, retrans);
    }
  }

  lemma SilentNeighbour(n: Nbr, es: seq<NbrEvent>, retrans: nat, state: NbrState, due: nat, left: nat)
    requires Asking(n) && n.state == state && DueAt(n) == due && left == MAX_SOLICIT - Spent(n)
    ensures var quiet := QuietScans(state, due, es, retrans);
      && (Life(n, es, retrans).isUsed <==>
            !exists k: nat :: k < |es| && es[k].Scan? && QuietScans(state, due, es[..k], retrans) >= left)
      && (!Life(n, es, retrans).isUsed ==> SolicitedIn(n, es, retrans) == left)
      && SolicitedIn(n, es, retrans) == if quiet < left then quiet else left
  {
    LivesUntilQuiet(n, es, retrans);
    SolicitedWhenQuiet(n, es, retrans);
    GivesUpAfterThreeInTraffic(n, es, retrans);
    hide Life, SolicitedIn, QuietScans;
    forall k: nat ensures EndsAt(n, es, retrans, k) <==>
      k < |es| && es[k].Scan? && QuietScans(state, due, es[..k], retrans) >= left
    {
    }
  }

  /**
   * A STALE neighbour that never answers: nothing happens to it until a packet at time `at` uses it.
   * From five seconds after that on each quiet scan solicits it, up to three times, and it is removed
   * exactly by a scan after the third, having been solicited exactly three times.
   */
  lemma SilentStaleNeighbour(n: Nbr, scans: seq<NbrEvent>, at: nat, es: seq<NbrEvent>, retrans: nat)
    requires n.isUsed && n.state == Stale && forall e :: e in scans ==> e.Scan?
    ensures var all := scans + [Lookup(at)] + es;
      && (Life(n, all, retrans).isUsed <==>
            !exists k: nat :: k < |es| && es[k].Scan? && QuietScans(Delay, at + 5, es[..k], retrans) >= 3)
      && (!Life(n, all, retrans).isUsed ==> SolicitedIn(n, all, retrans) == 3)
      && (var quiet := QuietScans(Delay, at + 5, es, retrans);
          SolicitedIn(n, all, retrans) == if quiet < 3 then quiet else 3)
  {
    var m := After(n, Lookup(at), retrans);
    LifeInTwoParts(n, scans + [Lookup(at)], es, retrans);
    LifeInTwoParts(n, scans, [Lookup(at)], retrans);
    StaleUntilUsed(n, scans, retrans);
    assert [Lookup(at)][1..] == [];
    assert Life(n, [Lookup(at)], retrans) == Life(m, [], retrans) == m;
    assert m.state == Delay && m.reachableAt == at + 5 && m.nsCount == 0;
    hide Life, SolicitedIn, QuietScans;
    SilentNeighbour(m, es, retrans, Delay, at + 5, 3);
  }

  /**
   * A new next hop that never answers: asked for at once, when it is resolved, and then by the scans,
   * from the retransmission time on, twice; a scan after that gives it up. Packets to it change nothing.
   */
  lemma SilentNewNeighbour(nextHop: Addr, now: nat, clock: nat, es: seq<NbrEvent>, retrans: nat)
    ensures var n := Sought(nextHop, now, clock, retrans);
      && (Life(n, es, retrans).isUsed <==>
            !exists k: nat :: k < |es| && es[k].Scan? && QuietScans(Incomplete, now + retrans, es[..k], retrans) >= 2)
      && (!Life(n, es, retrans).isUsed ==> SolicitedIn(n, es, retrans) == 2)
      && (var quiet := QuietScans(Incomplete, now + retrans, es, retrans);
          SolicitedIn(n, es, retrans) == if quiet < 2 then quiet else 2)
  {
    var n := Sought(nextHop, now, clock, retrans);
    hide Life, SolicitedIn, QuietScans;
    SilentNeighbour(n, es, retrans, Incomplete, now + retrans, 2);
  }

  /** A neighbour in DELAY that is heard of in time is not solicited before its reachable time is over, whatever is sent to it. */
  lemma AnsweredInDelay(n: Nbr, now: nat, reachableTime: nat, es: seq<NbrEvent>, retrans: nat)
    requires n.isUsed && n.state == Delay
    requires forall e :: e in es && e.Scan? ==> e.at < now + reachableTime
    ensures var m := Refreshed(n, n.ipaddr, now, reachableTime);
      SolicitedIn(m, es, retrans) == 0 && Life(m, es, retrans).isUsed && Life(m, es, retrans).state == Reachable
  {
    ReachableUntilItsTime(Refreshed(n, n.ipaddr, now, reachableTime), es, retrans);
  }

  // ---------- Which solicitations ----------

  function SentIn(n: Nbr, es: seq<NbrEvent>, retrans: nat): seq<Solicitation>
    decreases |es|
  {
    if es == [] then []
    else
      var rest := SentIn(After(n, es[0], retrans), es[1..], retrans);
      if es[0].Scan? && SentTo(n, es[0].at).Some? then [SentTo(n, es[0].at).value] + rest else rest
  }

  /**
   * Without an answer, every solicitation for an address that was never known goes to its
   * solicited-node group, and every other one to the neighbour itself.
   */
  lemma {:induction false} GroupOnlyWhileUnknown(n: Nbr, es: seq<NbrEvent>, retrans: nat)
    ensures |SentIn(n, es, retrans)| == SolicitedIn(n, es, retrans)
    ensures forall s :: s in SentIn(n, es, retrans) ==>
      s == Solicitation(if n.state == Incomplete then SolicitedNode(n.ipaddr) else n.ipaddr, n.ipaddr)
    decreases |es|
  {
    hide SolicitedNode;
    if es != [] {
      GroupOnlyWhileUnknown(After(n, es[0], retrans), es[1..], retrans);
    }
  }
}
