/** What many runs of `uip_ds6_periodic` leave to send: unreachability detection and duplicate address detection. */
module Ds6ScanRuns {
  import opened Octets
  import opened Ip6Match
  import opened Ip6Addresses
  import opened Neighbours
  import opened Ds6Scans

  // ---------- Neighbours ----------

  /** The tables and the parameters of the periodic scan. */
  datatype Tables = Tables(addrs: seq<AddrSlot>, cache: seq<Nbr>, maxDadNs: nat, dadRetrans: nat, retrans: nat) {
    function Scanned(now: nat): (t: Tables)
      ensures |t.addrs| == |addrs| && |t.cache| == |cache|
      ensures t.maxDadNs == maxDadNs && t.dadRetrans == dadRetrans && t.retrans == retrans
      ensures forall i :: 0 <= i < |addrs| ==> t.addrs[i] == Visited(addrs[i], maxDadNs, now, dadRetrans)
      ensures forall i :: 0 <= i < |cache| ==> t.cache[i] == Tick(cache[i], now, retrans)
    {
      this.(addrs := seq(|addrs|, i requires 0 <= i < |addrs| => Visited(addrs[i], maxDadNs, now, dadRetrans)),
            cache := seq(|cache|, i requires 0 <= i < |cache| => Tick(cache[i], now, retrans)))
    }
  }

  function AfterScans(t: Tables, times: seq<nat>): (t': Tables)
    ensures |t'.addrs| == |t.addrs| && |t'.cache| == |t.cache|
    decreases |times|
  {
    if times == [] then t else AfterScans(t.Scanned(times[0]), times[1..])
  }

  /** How many of the scans leave the solicitation for neighbour `i` to send. */
  function SentFor(t: Tables, i: nat, times: seq<nat>): nat
    requires i < |t.cache|
    decreases |times|
  {
    if times == [] then 0
    else (if LastToAsk(t.cache, i, times[0]) then 1 else 0) + SentFor(t.Scanned(times[0]), i, times[1..])
  }

  /** No scan that solicits neighbour `i` solicits one behind it. */
  predicate AlwaysLast(t: Tables, i: nat, times: seq<nat>)
    requires i < |t.cache|
    decreases |times|
  {
    times != [] ==>
      (Solicited(t.cache[i], times[0]) ==> LastToAsk(t.cache, i, times[0])) && AlwaysLast(t.Scanned(times[0]), i, times[1..])
  }

  lemma {:induction false} SentIfAlwaysLast(t: Tables, i: nat, times: seq<nat>)
    requires i < |t.cache|
    ensures AfterScans(t, times).cache[i] == Ticks(t.cache[i], times, t.retrans)
    ensures SentFor(t, i, times) <= SolicitationsOf(t.cache[i], times, t.retrans)
    ensures SentFor(t, i, times) == SolicitationsOf(t.cache[i], times, t.retrans) <==> AlwaysLast(t, i, times)
    decreases |times|
  {
    hide Solicited, Tick, Visited;
    if times != [] {
      SentIfAlwaysLast(t.Scanned(times[0]), i, times[1..]);
    }
  }

  /**
   * A neighbour that is given up has been asked three times exactly when none of the scans that
   * solicited it solicited one behind it in the cache.
   */
  lemma GivenUpAfterThreeSent(t: Tables, i: nat, times: seq<nat>)
    requires i < |t.cache| && Asking(t.cache[i]) && !AfterScans(t, times).cache[i].isUsed
    ensures Spent(t.cache[i]) + SentFor(t, i, times) == MAX_SOLICIT <==> AlwaysLast(t, i, times)
  {
    SentIfAlwaysLast(t, i, times);
    GivesUpAfterThree(t.cache[i], times, t.retrans);
  }

  /** Two unknown next hops at once: no scan leaves a solicitation of the first, and it is given up. */
  lemma GivenUpUnasked(a: Addr, b: Addr, clock: nat, retrans: nat)
    ensures var t := Tables([], [Sought(a, 0, clock, retrans), Sought(b, 0, clock, retrans)], 0, 0, retrans);
      var times := [retrans, 2 * retrans, 3 * retrans];
      && !AfterScans(t, times).cache[0].isUsed
      && SolicitationsOf(t.cache[0], times, retrans) == 2 && SentFor(t, 0, times) == 0
      && SentFor(t, 1, times) == 2
  {
    var t := Tables([], [Sought(a, 0, clock, retrans), Sought(b, 0, clock, retrans)], 0, 0, retrans);
    var times := [retrans, 2 * retrans, 3 * retrans];
    var first, second := Sought(a, 0, clock, retrans), Sought(b, 0, clock, retrans);
    var t1, rest1 := t.Scanned(retrans), times[1..];
    assert rest1 == [2 * retrans, 3 * retrans];
    assert t1.cache == [first.(nsCount := 2, sendNsAt := 2 * retrans), second.(nsCount := 2, sendNsAt := 2 * retrans)];
    var t2, rest2 := t1.Scanned(2 * retrans), rest1[1..];
    assert rest2 == [3 * retrans];
    assert t2.cache == [first.(nsCount := 3, sendNsAt := 3 * retrans), second.(nsCount := 3, sendNsAt := 3 * retrans)];
    var t3, rest3 := t2.Scanned(3 * retrans), rest2[1..];
    assert rest3 == [];
    assert SentFor(t2, 0, rest2) == 0 && SentFor(t2, 1, rest2) == 0;
    assert SolicitationsOf(t2.cache[0], rest2, retrans) == 0 && AfterScans(t2, rest2) == t3;
    assert SentFor(t1, 0, rest1) == 0 && SentFor(t1, 1, rest1) == 1;
    assert SolicitationsOf(t1.cache[0], rest1, retrans) == 1 && AfterScans(t1, rest1) == t3;
  }

  // ---------- Own addresses ----------

  function DadSentFor(t: Tables, i: nat, times: seq<nat>): nat
    requires i < |t.addrs|
    decreases |times|
  {
    if times == [] then 0
    else (if LastForAddress(t.addrs, i, t.cache, t.maxDadNs, times[0]) then 1 else 0)
         + DadSentFor(t.Scanned(times[0]), i, times[1..])
  }

  /** No scan that solicits the own address `i` solicits one behind it, or a neighbour. */
  predicate DadAlwaysLast(t: Tables, i: nat, times: seq<nat>)
    requires i < |t.addrs|
    decreases |times|
  {
    times != [] ==>
      && (DadAsks(t.addrs[i], t.maxDadNs, times[0]) ==> LastForAddress(t.addrs, i, t.cache, t.maxDadNs, times[0]))
      && DadAlwaysLast(t.Scanned(times[0]), i, times[1..])
  }

  /** Never more solicitations than allowed, and exactly as many once PREFERRED. */
  predicate DadBounded(s: AddrSlot, maxDadNs: nat) {
    s.isUsed ==> s.dadNsCount <= maxDadNs && (s.state == Preferred ==> s.dadNsCount == maxDadNs)
  }

  lemma {:induction false} DadCounts(t: Tables, i: nat, times: seq<nat>)
    requires i < |t.addrs| && DadBounded(t.addrs[i], t.maxDadNs)
    ensures var s' := AfterScans(t, times).addrs[i];
      && DadBounded(s', t.maxDadNs)
      && t.addrs[i].dadNsCount + DadSentFor(t, i, times) <= s'.dadNsCount
      && (t.addrs[i].dadNsCount + DadSentFor(t, i, times) == s'.dadNsCount <==> DadAlwaysLast(t, i, times))
    decreases |times|
  {
    hide Solicited, Tick;
    if times != [] {
      DadCounts(t.Scanned(times[0]), i, times[1..]);
    }
  }

  /** An address that becomes PREFERRED has had all its solicitations left to send exactly when it was always last. */
  lemma PreferredAfterAllSent(t: Tables, i: nat, times: seq<nat>)
    requires i < |t.addrs| && t.addrs[i].state == Tentative && t.addrs[i].dadNsCount <= t.maxDadNs
    requires var s' := AfterScans(t, times).addrs[i]; s'.isUsed && s'.state == Preferred
    ensures t.addrs[i].dadNsCount + DadSentFor(t, i, times) == t.maxDadNs <==> DadAlwaysLast(t, i, times)
  {
    DadCounts(t, i, times);
  }

  /** Two addresses configured at once: the first becomes PREFERRED with none of its solicitations left to send. */
  lemma PreferredUnasked(a: Addr, b: Addr, dadRetrans: nat)
    ensures var t := Tables([NewSlot(a, None, 0), NewSlot(b, None, 0)], [], 1, dadRetrans, 0);
      var times := [0, dadRetrans];
      && AfterScans(t, times).addrs[0] == NewSlot(a, None, 0).(state := Preferred, dadNsCount := 1, dadAt := dadRetrans)
      && DadSentFor(t, 0, times) == 0 && DadSentFor(t, 1, times) == 1
  {
    var t := Tables([NewSlot(a, None, 0), NewSlot(b, None, 0)], [], 1, dadRetrans, 0);
    var times := [0, dadRetrans];
    var first, second := NewSlot(a, None, 0), NewSlot(b, None, 0);
    var t1, rest1 := t.Scanned(0), times[1..];
    assert rest1 == [dadRetrans];
    assert t1.addrs == [first.(dadNsCount := 1, dadAt := dadRetrans), second.(dadNsCount := 1, dadAt := dadRetrans)];
    var t2, rest2 := t1.Scanned(dadRetrans), rest1[1..];
    assert rest2 == [] && AfterScans(t1, rest1) == t2;
    assert rest1[0] == dadRetrans && !DadAsks(t1.addrs[0], 1, dadRetrans) && !DadAsks(t1.addrs[1], 1, dadRetrans);
    assert DadSentFor(t1, 0, rest1) == DadSentFor(t2, 0, rest2) == 0;
    assert DadSentFor(t1, 1, rest1) == DadSentFor(t2, 1, rest2) == 0;
    assert LastForAddress(t.addrs, 1, t.cache, 1, 0) && !LastForAddress(t.addrs, 0, t.cache, 1, 0);
  }

  /** An address is in use until the first scan at or after the end of its life, and one without an end for good. */
  lemma {:induction false} LivesItsLifetime(t: Tables, i: nat, times: seq<nat>)
    requires i < |t.addrs| && t.addrs[i].isUsed
    ensures var s, s' := t.addrs[i], AfterScans(t, times).addrs[i];
      && (s'.isUsed <==> s.isInfinite || forall now :: now in times ==> now < s.validUntil)
      && s'.ipaddr == s.ipaddr
    decreases |times|
  {
    hide Tick;
    if times != [] {
      var t' := t.Scanned(times[0]);
      assert forall now :: now in times <==> now == times[0] || now in times[1..];
      if t'.addrs[i].isUsed {
        LivesItsLifetime(t', i, times[1..]);
      } else {
        assert times[0] in times;
        RemovedStaysRemoved(t', i, times[1..]);
      }
    }
  }

  lemma {:induction false} RemovedStaysRemoved(t: Tables, i: nat, times: seq<nat>)
    requires i < |t.addrs| && !t.addrs[i].isUsed
    ensures AfterScans(t, times).addrs[i] == t.addrs[i]
    decreases |times|
  {
    hide Tick;
    if times != [] {
      RemovedStaysRemoved(t.Scanned(times[0]), i, times[1..]);
    }
  }

  /** The scans that come at or after `due`, which each puts off by the retransmission time. */
  function DueScans(due: nat, times: seq<nat>, retrans: nat): nat
    decreases |times|
  {
    if times == [] then 0
    else if times[0] >= due then 1 + DueScans(times[0] + retrans, times[1..], retrans)
    else DueScans(due, times[1..], retrans)
  }

  /**
   * Duplicate address detection of a new address that nobody contests: the first `maxDadNs` due scans
   * solicit it, the next one makes it PREFERRED, and nothing else does.
   */
  lemma {:induction false} PreferredAfterDetection(t: Tables, i: nat, times: seq<nat>)
    requires i < |t.addrs| && t.addrs[i].isUsed && t.addrs[i].state == Tentative && t.addrs[i].dadNsCount <= t.maxDadNs
    requires t.addrs[i].isInfinite || forall now :: now in times ==> now < t.addrs[i].validUntil
    ensures var s, s' := t.addrs[i], AfterScans(t, times).addrs[i];
      var due, left := DueScans(s.dadAt, times, t.dadRetrans), t.maxDadNs - s.dadNsCount;
      && s'.state == (if due > left then Preferred else Tentative)
      && s'.dadNsCount == s.dadNsCount + if due < left then due else left
    decreases |times|
  {
    hide Tick;
    if times != [] {
      var t' := t.Scanned(times[0]);
      assert times[0] in times && forall now :: now in times[1..] ==> now in times;
      if t'.addrs[i].state == Tentative {
        PreferredAfterDetection(t', i, times[1..]);
      } else {
        PreferredStays(t', i, times[1..]);
      }
    }
  }

  lemma {:induction false} PreferredStays(t: Tables, i: nat, times: seq<nat>)
    requires i < |t.addrs| && t.addrs[i].state == Preferred
    ensures var s, s' := t.addrs[i], AfterScans(t, times).addrs[i];
      s'.state == Preferred && s'.dadNsCount == s.dadNsCount
    decreases |times|
  {
    hide Tick;
    if times != [] {
      PreferredStays(t.Scanned(times[0]), i, times[1..]);
    }
  }
}
