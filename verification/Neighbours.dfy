/**
 * The IPv6 neighbour cache: src/net/uip-ds6.c (adding, resolving, refreshing, neighbour
 * unreachability detection) and the advertisement and solicitation input of src/net/uip-nd6.c.
 */
module Neighbours {
  import opened Octets
  import opened Ip6Match
  import opened Ip6Addresses

  type LinkAddr = a: seq<bv8> | |a| == 6 witness seq(6, _ => 0)

  const NO_LINK_ADDR: LinkAddr := [0, 0, 0, 0, 0, 0]

  /** The states of section 7.3.2 of RFC 4861. */
  datatype NbrState = Incomplete | Reachable | Stale | Delay | Probe

  /** A cache slot; the timers are the times at which they expire. */
  datatype Nbr = Nbr(isUsed: bool, ipaddr: Addr, lladdr: LinkAddr, reachableAt: nat, sendNsAt: nat,
                     lastLookup: nat, nsCount: nat, isRouter: bool, state: NbrState)

  const MAX_SOLICIT := 3
  const DELAY_FIRST_PROBE := 5

  function NbrHead(n: Nbr): Element {
    Element(n.isUsed, n.ipaddr)
  }

  function NbrHeads(cache: seq<Nbr>): seq<Element> {
    Elements(cache, NbrHead)
  }

  // ---------- The invariant of the cache ----------

  /** What holds of an entry, given the pairs of addresses that options have carried so far. */
  predicate EntryValid(n: Nbr, learned: set<(Addr, LinkAddr)>) {
    && n.nsCount <= MAX_SOLICIT
    && (n.state == Probe ==> n.nsCount >= 1)
    && (n.state == Delay ==> n.nsCount == 0)
    && (n.state != Incomplete ==> (n.ipaddr, n.lladdr) in learned)
  }

  predicate CacheValid(cache: seq<Nbr>, learned: set<(Addr, LinkAddr)>) {
    && Distinct(NbrHeads(cache))
    && forall i :: 0 <= i < |cache| && cache[i].isUsed ==> EntryValid(cache[i], learned)
  }

  predicate SameNeighbour(n: Nbr, m: Nbr) {
    n.isUsed && m.isUsed && n.ipaddr == m.ipaddr
  }

  /** No neighbour that has left INCOMPLETE is INCOMPLETE afterwards. */
  predicate NoneReenters(before: seq<Nbr>, after: seq<Nbr>) {
    forall i, j :: 0 <= i < |before| && 0 <= j < |after| && SameNeighbour(before[i], after[j]) && before[i].state != Incomplete ==>
      after[j].state != Incomplete
  }

  /** A slot is changed, without touching its address and without going back to INCOMPLETE. */
  predicate Update(n: Nbr, n': Nbr) {
    n.isUsed && n'.ipaddr == n.ipaddr && (n.state != Incomplete ==> n'.state != Incomplete)
  }

  /** Changing one entry and forgetting nothing that was learned. */
  lemma UpdateKeepsValid(cache: seq<Nbr>, i: nat, n: Nbr, learned: set<(Addr, LinkAddr)>,
                         learned': set<(Addr, LinkAddr)>)
    requires CacheValid(cache, learned) && i < |cache| && Update(cache[i], n) && learned <= learned'
    requires n.isUsed ==> EntryValid(n, learned')
    ensures CacheValid(cache[i := n], learned') && NoneReenters(cache, cache[i := n])
  {
    hide EntryValid;
    var cache' := cache[i := n];
    forall j, k | 0 <= j < k < |cache'| && cache'[j].isUsed && cache'[k].isUsed ensures cache'[j].ipaddr != cache'[k].ipaddr {
      assert NbrHeads(cache)[j] == NbrHead(cache[j]) && NbrHeads(cache)[k] == NbrHead(cache[k]);
    }
    forall j | 0 <= j < |cache'| && cache'[j].isUsed ensures EntryValid(cache'[j], learned') {
      if j != i {
        LearningKeepsEntry(cache[j], learned, learned');
      }
    }
    UpdateReenters(cache, i, n);
  }

  lemma LearningKeepsEntry(n: Nbr, learned: set<(Addr, LinkAddr)>, learned': set<(Addr, LinkAddr)>)
    requires EntryValid(n, learned) && learned <= learned'
    ensures EntryValid(n, learned')
  {
  }

  lemma UpdateReenters(cache: seq<Nbr>, i: nat, n: Nbr)
    requires Distinct(NbrHeads(cache)) && i < |cache| && Update(cache[i], n)
    ensures NoneReenters(cache, cache[i := n])
  {
    var cache' := cache[i := n];
    forall j, k | 0 <= j < |cache| && 0 <= k < |cache| && SameNeighbour(cache[j], cache'[k]) && cache[j].state != Incomplete
      ensures cache'[k].state != Incomplete
    {
      assert NbrHeads(cache)[j] == NbrHead(cache[j]) && NbrHeads(cache)[k] == NbrHead(cache[k]);
    }
  }

  /** A new entry, in a free slot or in place of an old one. */
  lemma NewKeepsValid(cache: seq<Nbr>, i: nat, n: Nbr, learned: set<(Addr, LinkAddr)>, learned': set<(Addr, LinkAddr)>)
    requires CacheValid(cache, learned) && i < |cache| && !Holds(NbrHeads(cache), n.ipaddr) && learned <= learned'
    requires n.isUsed && EntryValid(n, learned')
    ensures CacheValid(cache[i := n], learned') && NoneReenters(cache, cache[i := n])
  {
    hide EntryValid;
    var cache' := cache[i := n];
    forall j | 0 <= j < |cache| && cache[j].isUsed ensures cache[j].ipaddr != n.ipaddr {
      assert NbrHeads(cache)[j] == NbrHead(cache[j]);
    }
    forall j, k | 0 <= j < k < |cache'| && cache'[j].isUsed && cache'[k].isUsed ensures cache'[j].ipaddr != cache'[k].ipaddr {
      assert NbrHeads(cache)[j] == NbrHead(cache[j]) && NbrHeads(cache)[k] == NbrHead(cache[k]);
    }
    forall j | 0 <= j < |cache'| && cache'[j].isUsed ensures EntryValid(cache'[j], learned') {
      if j != i {
        LearningKeepsEntry(cache[j], learned, learned');
      }
    }
    NewReenters(cache, i, n);
  }

  lemma NewReenters(cache: seq<Nbr>, i: nat, n: Nbr)
    requires Distinct(NbrHeads(cache)) && i < |cache| && !Holds(NbrHeads(cache), n.ipaddr)
    ensures NoneReenters(cache, cache[i := n])
  {
    var cache' := cache[i := n];
    forall j, k | 0 <= j < |cache| && 0 <= k < |cache| && SameNeighbour(cache[j], cache'[k]) && cache[j].state != Incomplete
      ensures cache'[k].state != Incomplete
    {
      assert NbrHeads(cache)[j] == NbrHead(cache[j]) && NbrHeads(cache)[k] == NbrHead(cache[k]);
      assert Holds(NbrHeads(cache), cache[j].ipaddr);
    }
  }

  // ---------- Neighbour advertisements (section 7.2.5 of RFC 4861) ----------

  /** The parts of an entry the standard speaks of. */
  datatype Known = Known(state: NbrState, lladdr: LinkAddr, isRouter: bool)

  function KnownOf(n: Nbr): Known {
    Known(n.state, n.lladdr, n.isRouter)
  }

  datatype Flags = Flags(router: bool, solicited: bool, override: bool)

  /** No address for an incomplete entry, or a different one that may not be taken: nothing is learned. */
  predicate Ignored(k: Known, flags: Flags, tllao: Option<LinkAddr>) {
    if k.state == Incomplete then tllao.None?
    else !flags.override && tllao.Some? && tllao.value != k.lladdr
  }

  /** The standard's rules, in its own order: first which address, then which state, then the router flag. */
  function Advertised(k: Known, flags: Flags, tllao: Option<LinkAddr>): Known {
    if Ignored(k, flags, tllao) then
      if k.state == Reachable then k.(state := Stale) else k
    else
      var lladdr := if tllao.Some? then tllao.value else k.lladdr;
      var state := if flags.solicited then Reachable
                   else if k.state == Incomplete || lladdr != k.lladdr then Stale
                   else k.state;
      Known(state, lladdr, flags.router)
  }

  /** The rules one by one: what an advertisement does to an entry without an address, and to one with. */
  lemma AdvertisementRules(k: Known, flags: Flags, tllao: Option<LinkAddr>)
    ensures var k' := Advertised(k, flags, tllao);
      var other := tllao.Some? && tllao.value != k.lladdr;
      && (k.state == Incomplete && tllao.None? ==> k' == k)
      && (k.state == Incomplete && tllao.Some? ==>
            k' == Known(if flags.solicited then Reachable else Stale, tllao.value, flags.router))
      && (k.state != Incomplete && other && !flags.override ==>
            k'.lladdr == k.lladdr && k'.isRouter == k.isRouter
            && k'.state == if k.state == Reachable then Stale else k.state)
      && (k.state != Incomplete && other && flags.override ==>
            k' == Known(if flags.solicited then Reachable else Stale, tllao.value, flags.router))
      && (k.state != Incomplete && !other ==>
            k' == Known(if flags.solicited then Reachable else k.state, k.lladdr, flags.router))
  {
  }

  // ---------- One entry over time ----------

  /** The visit of `uip_ds6_periodic` to an entry: solicit again, age, or give up. */
  function Tick(n: Nbr, now: nat, retrans: nat): Nbr {
    if !n.isUsed then n
    else match n.state
      case Incomplete | Probe =>
        if n.nsCount >= MAX_SOLICIT then n.(isUsed := false)
        else if now >= n.sendNsAt then n.(nsCount := n.nsCount + 1, sendNsAt := now + retrans)
        else n
      case Reachable =>
        if now >= n.reachableAt then n.(state := Stale) else n
      case Delay =>
        if now >= n.reachableAt then n.(state := Probe, nsCount := 1, sendNsAt := now + retrans) else n
      case Stale => n
  }

  /** Does the visit send a solicitation? */
  predicate Solicited(n: Nbr, now: nat) {
    && n.isUsed
    && (((n.state == Incomplete || n.state == Probe) && n.nsCount < MAX_SOLICIT && now >= n.sendNsAt)
        || (n.state == Delay && now >= n.reachableAt))
  }

  function Ticks(n: Nbr, times: seq<nat>, retrans: nat): Nbr
    decreases |times|
  {
    if times == [] then n else Ticks(Tick(n, times[0], retrans), times[1..], retrans)
  }

  function SolicitationsOf(n: Nbr, times: seq<nat>, retrans: nat): nat
    decreases |times|
  {
    if times == [] then 0
    else (if Solicited(n, times[0]) then 1 else 0) + SolicitationsOf(Tick(n, times[0], retrans), times[1..], retrans)
  }

  /** How many solicitations an entry has had that count towards giving up. */
  function Spent(n: Nbr): nat {
    if n.state == Delay then 0 else n.nsCount
  }

  /** An entry whose address is being looked for, or whose neighbour is being probed. */
  predicate Asking(n: Nbr) {
    n.isUsed && n.nsCount <= MAX_SOLICIT && n.state in {Incomplete, Probe, Delay}
  }

  /**
   * Whenever the periodic scan runs, however often: an entry that is gone has had exactly three
   * solicitations, and one that is still there has had as many as it has counted.
   */
  lemma {:induction false} GivesUpAfterThree(n: Nbr, times: seq<nat>, retrans: nat)
    requires Asking(n)
    ensures var m := Ticks(n, times, retrans);
      Spent(n) + SolicitationsOf(n, times, retrans) == if m.isUsed then Spent(m) else MAX_SOLICIT
    ensures Ticks(n, times, retrans).isUsed ==> Asking(Ticks(n, times, retrans))
    decreases |times|
  {
    if times != [] {
      var m := Tick(n, times[0], retrans);
      if m.isUsed {
        GivesUpAfterThree(m, times[1..], retrans);
      } else {
        GoneIsGone(m, times[1..], retrans);
      }
    }
  }

  lemma {:induction false} GoneIsGone(n: Nbr, times: seq<nat>, retrans: nat)
    requires !n.isUsed
    ensures Ticks(n, times, retrans) == n && SolicitationsOf(n, times, retrans) == 0
    decreases |times|
  {
    if times != [] {
      GoneIsGone(n, times[1..], retrans);
    }
  }

  /** When the entry next wants a visit. */
  function DueAt(n: Nbr): nat {
    if n.state == Delay then n.reachableAt else n.sendNsAt
  }

  /** The visits come late enough for each retransmission interval to have passed. */
  predicate Unhurried(n: Nbr, times: seq<nat>, retrans: nat) {
    && (times != [] ==> times[0] >= DueAt(n))
    && forall k :: 0 < k < |times| ==> times[k] >= times[k - 1] + retrans
  }

  /** Then the entry lives for exactly as many more visits as it has solicitations left, and one. */
  lemma {:induction false} LivesUntil(n: Nbr, times: seq<nat>, retrans: nat)
    requires Asking(n) && Unhurried(n, times, retrans)
    ensures Ticks(n, times, retrans).isUsed <==> |times| <= MAX_SOLICIT - Spent(n)
    decreases |times|
  {
    if times != [] {
      var m := Tick(n, times[0], retrans);
      if m.isUsed {
        forall k | 0 < k < |times[1..]| ensures times[1..][k] >= times[1..][k - 1] + retrans {
          assert times[1..][k] == times[k + 1] && times[1..][k - 1] == times[k];
        }
        LivesUntil(m, times[1..], retrans);
      } else {
        GoneIsGone(m, times[1..], retrans);
      }
    }
  }

  /** Three in all: one from resolving and two from the periodic scan, or all three as probes. */
  lemma NudGivesUp(nextHop: Addr, now: nat, clock: nat, retrans: nat, n: Nbr, times: seq<nat>)
    requires n.isUsed && n.nsCount <= MAX_SOLICIT && n.state == Delay
    ensures var m := Sought(nextHop, now, clock, retrans);
      !Ticks(m, times, retrans).isUsed ==> 1 + SolicitationsOf(m, times, retrans) == MAX_SOLICIT
    ensures !Ticks(n, times, retrans).isUsed ==> SolicitationsOf(n, times, retrans) == MAX_SOLICIT
  {
    GivesUpAfterThree(Sought(nextHop, now, clock, retrans), times, retrans);
    GivesUpAfterThree(n, times, retrans);
  }

  // ---------- The cache in memory ----------

  function NewNbr(ipaddr: Addr, lladdr: Option<LinkAddr>, isRouter: bool, state: NbrState, now: nat, clock: nat): Nbr {
    Nbr(true, ipaddr, if lladdr.Some? then lladdr.value else NO_LINK_ADDR, now, now, clock, 0, isRouter, state)
  }

  /** A full table makes room by giving up the entry created first, if it is older than `clock`. */
  predicate Oldest(cache: seq<Nbr>, i: nat, clock: nat) {
    && i < |cache| && cache[i].lastLookup < clock
    && (forall j :: 0 <= j < |cache| ==> cache[j].isUsed && cache[j].lastLookup >= cache[i].lastLookup)
    && forall j :: 0 <= j < i ==> cache[j].lastLookup > cache[i].lastLookup
  }

  /** The entry made last is not given up as long as an earlier one is there. */
  lemma YoungestStays(cache: seq<Nbr>, i: nat, k: nat, n: Nbr, now: nat, clock: nat, j: nat, later: nat)
    requires i < |cache| && k < |cache| && k != i && cache[k].lastLookup < clock
    requires exists a, l, r, s :: n == NewNbr(a, l, r, s, now, clock)
    ensures Oldest(cache[i := n], j, later) ==> j != i
  {
    assert cache[i := n][k] == cache[k];
  }

  predicate Full(cache: seq<Nbr>) {
    forall i :: 0 <= i < |cache| ==> cache[i].isUsed
  }

  predicate LastFree(cache: seq<Nbr>, i: nat) {
    i < |cache| && !cache[i].isUsed && forall j :: i < j < |cache| ==> cache[j].isUsed
  }

  /** What resolving yields: nothing to send, a multicast frame, or the cached address of the next hop. */
  datatype Resolution = Drop | ToGroup(lladdr: LinkAddr) | ToNeighbour(lladdr: LinkAddr)

  class NbrCache {
    const cache: array<Nbr>
    const defrts: array<Element>
    var reachableTime: nat
    var retransTimer: nat
    /** The file's cursors `locnbr` and `locdefrt`. */
    var locNbr: nat
    var locDefrt: nat
    /** The destination address in the packet buffer. */
    var dest: Addr
    /** Every pair of addresses that a link-layer address option has carried. */
    ghost var learned: set<(Addr, LinkAddr)>

    ghost predicate Valid()
      reads cache, defrts, this`learned
    {
      CacheValid(cache[..], learned) && Distinct(defrts[..])
    }

    constructor (nbrNb: nat, defrtNb: nat, reachableTime: nat, retransTimer: nat)
      ensures Valid() && fresh(cache) && fresh(defrts) && cache.Length == nbrNb && defrts.Length == defrtNb
      ensures learned == {} && forall i :: 0 <= i < nbrNb ==> !cache[i].isUsed
    {
      cache := new Nbr[nbrNb](_ => Nbr(false, UNSPECIFIED, NO_LINK_ADDR, 0, 0, 0, 0, false, Incomplete));
      defrts := new Element[defrtNb](_ => Element(false, UNSPECIFIED));
      this.reachableTime, this.retransTimer := reachableTime, retransTimer;
      locNbr, locDefrt, dest, learned := 0, 0, UNSPECIFIED, {};
    }

    /** `uip_ds6_nbr_lookup` */
    method Lookup(ipaddr: Addr) returns (found: bool)
      modifies this`locNbr
      ensures found <==> Holds(NbrHeads(cache[..]), ipaddr)
      ensures found ==> locNbr < cache.Length && cache[locNbr].isUsed && cache[locNbr].ipaddr == ipaddr
    {
      var r;
      r, locNbr := ListLoop(cache, NbrHead, ipaddr, 128);
      FullPrefix(NbrHeads(cache[..]), ipaddr, r, locNbr);
      found := r == Found;
    }

    /** The search for the entry to give up, which a full table makes. */
    method FindOldest(clock: nat) returns (oldest: Option<nat>)
      requires forall i :: 0 <= i < cache.Length ==> cache[i].isUsed
      ensures oldest.Some? ==> Oldest(cache[..], oldest.value, clock)
      ensures oldest.None? ==> forall i :: 0 <= i < cache.Length ==> cache[i].lastLookup >= clock
    {
      oldest := None;
      var oldestTime, i := clock, 0;
      while i < cache.Length
        invariant 0 <= i <= cache.Length && oldestTime <= clock
        invariant forall j :: 0 <= j < i ==> cache[j].lastLookup >= oldestTime
        invariant oldest.None? ==> oldestTime == clock
        invariant oldest.Some? ==> oldest.value < i && cache[oldest.value].lastLookup == oldestTime < clock
        invariant oldest.Some? ==> forall j :: 0 <= j < oldest.value ==> cache[j].lastLookup > oldestTime
      {
        if cache[i].isUsed {
          if cache[i].lastLookup < oldestTime {
            oldest, oldestTime := Some(i), cache[i].lastLookup;
          }
        }
        i := i + 1;
      }
    }

    /** `uip_ds6_nbr_add`: evicting an entry and trying again happens at most once. */
    method Add(ipaddr: Addr, lladdr: Option<LinkAddr>, isRouter: bool, state: NbrState, now: nat, clock: nat)
      returns (added: Option<nat>)
      modifies this`locNbr, cache
      ensures added.Some? ==>
        && !old(Holds(NbrHeads(cache[..]), ipaddr))
        && (old(LastFree(cache[..], added.value)) || old(Oldest(cache[..], added.value, clock)))
        && cache[..] == old(cache[..])[added.value := NewNbr(ipaddr, lladdr, isRouter, state, now, clock)]
      ensures added.None? ==>
        && cache[..] == old(cache[..])
        && (Holds(NbrHeads(cache[..]), ipaddr)
            || forall i :: 0 <= i < cache.Length ==> cache[i].isUsed && cache[i].lastLookup >= clock)
      decreases Full(cache[..])
    {
      var r;
      r, locNbr := ListLoop(cache, NbrHead, ipaddr, 128);
      FullPrefix(NbrHeads(cache[..]), ipaddr, r, locNbr);
      HeadsUsed(cache[..]);
      if r == FreeSpace {
        cache[locNbr] := Nbr(true, ipaddr, if lladdr.Some? then lladdr.value else NO_LINK_ADDR, now, now, clock, 0,
                             isRouter, state);
        added := Some(locNbr);
        return;
      } else if r == NoSpace {
        var oldest := FindOldest(clock);
        if oldest.Some? {
          ghost var before := cache[..];
          cache[oldest.value] := cache[oldest.value].(isUsed := false);
          HeadsUsed(cache[..]);
          EvictedIsAnother(before, oldest.value, ipaddr);
          added := Add(ipaddr, lladdr, isRouter, state, now, clock);
          return;
        }
      }
      added := None;
    }

    /** `uip_ds6_defrt_lookup` and `uip_ds6_defrt_rm` of what it finds. */
    method DefrtDrop(ipaddr: Addr)
      requires Distinct(defrts[..])
      modifies this`locDefrt, defrts
      ensures forall j :: 0 <= j < defrts.Length ==> defrts[j] == Without(old(defrts[j]), ipaddr)
      ensures Distinct(defrts[..]) && !Holds(defrts[..], ipaddr)
    {
      var r;
      r, locDefrt := ListLoop(defrts, Self, ipaddr, 128);
      assert Elements(defrts[..], Self) == defrts[..];
      FullPrefix(defrts[..], ipaddr, r, locDefrt);
      if r == Found {
        assert forall j :: 0 <= j < defrts.Length ==> defrts[j] == defrts[..][j];
        defrts[locDefrt] := defrts[locDefrt].(isUsed := false);
      }
    }

    // ---------- Link-layer addresses from solicitations and router advertisements ----------

    /** The SLLAO part of `uip_nd6_ns_input` (section 7.2.3 of RFC 4861). */
    method NsSllao(src: Addr, lladdr: LinkAddr, now: nat, clock: nat) returns (bad: bool)
      requires Valid()
      modifies this`locNbr, this`learned, cache
      ensures Valid() && NoneReenters(old(cache[..]), cache[..])
      ensures bad <==> src == UNSPECIFIED
      ensures bad ==> cache[..] == old(cache[..]) && learned == old(learned)
      ensures !bad ==> learned == old(learned) + {(src, lladdr)}
      ensures !bad ==> LearnedFrom(old(cache[..]), cache[..], src, lladdr, false, now, clock)
    {
      hide EntryValid, NoneReenters;
      bad := src == UNSPECIFIED;
      if bad {
        NothingReenters(cache[..]);
        return;
      }
      ghost var before, known := cache[..], learned;
      learned := learned + {(src, lladdr)};
      var found := Lookup(src);
      if !found {
        var added := Add(src, Some(lladdr), false, Stale, now, clock);
        NewIsLearned(before, cache[..], added, src, lladdr, false, now, clock, known);
      } else {
        var i := locNbr;
        if lladdr != cache[i].lladdr {
          cache[i] := cache[i].(lladdr := lladdr);
          cache[i] := cache[i].(state := Stale);
        } else {
          if cache[i].state == Incomplete {
            cache[i] := cache[i].(state := Stale);
          }
        }
        assert cache[..] == before[i := cache[i]];
        OldIsLearned(before, i, cache[i], src, lladdr, false, now, clock, known);
      }
    }

    /** The SLLAO part of `uip_nd6_ra_input`: the sender is a router, too. */
    method RaSllao(src: Addr, lladdr: LinkAddr, now: nat, clock: nat)
      requires Valid()
      modifies this`locNbr, this`learned, cache
      ensures Valid() && NoneReenters(old(cache[..]), cache[..])
      ensures learned == old(learned) + {(src, lladdr)}
      ensures LearnedFrom(old(cache[..]), cache[..], src, lladdr, true, now, clock)
    {
      hide EntryValid, NoneReenters;
      ghost var before, known := cache[..], learned;
      learned := learned + {(src, lladdr)};
      var found := Lookup(src);
      if !found {
        var added := Add(src, Some(lladdr), true, Stale, now, clock);
        NewIsLearned(before, cache[..], added, src, lladdr, true, now, clock, known);
      } else {
        var i := locNbr;
        if cache[i].state == Incomplete {
          cache[i] := cache[i].(state := Stale);
        }
        if lladdr != cache[i].lladdr {
          cache[i] := cache[i].(lladdr := lladdr);
          cache[i] := cache[i].(state := Stale);
        }
        cache[i] := cache[i].(isRouter := true);
        assert cache[..] == before[i := cache[i]];
        OldIsLearned(before, i, cache[i], src, lladdr, true, now, clock, known);
      }
    }

    // ---------- Neighbour advertisements ----------

    /** The part of `uip_nd6_na_input` that changes the entry at the cursor. */
    method TakeAdvertisement(src: Addr, flags: Flags, tllao: Option<LinkAddr>, now: nat) returns (taken: bool)
      requires locNbr < cache.Length && cache[locNbr].isUsed && Distinct(defrts[..])
      modifies this`locDefrt, cache, defrts
      ensures cache[..] == old(cache[..])[locNbr := cache[locNbr]]
      ensures KnownOf(cache[locNbr]) == Advertised(KnownOf(old(cache[locNbr])), flags, tllao)
      ensures taken <==> !Ignored(KnownOf(old(cache[locNbr])), flags, tllao)
      ensures SameBesides(old(cache[locNbr]), cache[locNbr])
      ensures cache[locNbr].reachableAt ==
        if taken && flags.solicited then now + reachableTime else old(cache[locNbr].reachableAt)
      ensures cache[locNbr].nsCount ==
        if taken && flags.solicited && old(cache[locNbr].state) == Incomplete then 0 else old(cache[locNbr].nsCount)
      ensures Distinct(defrts[..])
      ensures forall j :: 0 <= j < defrts.Length ==>
        defrts[j] == if taken && old(cache[locNbr].state) != Incomplete && old(cache[locNbr].isRouter) && !flags.router
                     then Without(old(defrts[j]), src) else old(defrts[j])
    {
      hide Distinct, Holds;
      var i := locNbr;
      ghost var before := cache[..];
      var llChange := tllao.Some? && tllao.value != cache[i].lladdr;
      if cache[i].state == Incomplete {
        if tllao.None? {
          return false;
        }
        cache[i] := cache[i].(lladdr := tllao.value);
        if flags.solicited {
          cache[i] := cache[i].(state := Reachable, nsCount := 0, reachableAt := now + reachableTime);
        } else {
          cache[i] := cache[i].(state := Stale);
        }
        cache[i] := cache[i].(isRouter := flags.router);
      } else {
        if !flags.override && llChange {
          if cache[i].state == Reachable {
            cache[i] := cache[i].(state := Stale);
          }
          return false;
        } else {
          if flags.override || (!flags.override && tllao.Some? && !llChange) || tllao.None? {
            if tllao.Some? {
              cache[i] := cache[i].(lladdr := tllao.value);
            }
            if flags.solicited {
              cache[i] := cache[i].(state := Reachable, reachableAt := now + reachableTime);
            } else {
              if tllao.Some? && llChange {
                cache[i] := cache[i].(state := Stale);
              }
            }
          }
          if cache[i].isRouter && !flags.router {
            DefrtDrop(src);
          }
          cache[i] := cache[i].(isRouter := flags.router);
        }
      }
      taken := true;
    }

    /**
     * `uip_nd6_na_input` for a target that is not ours: the entry of the target, and no other,
     * changes as section 7.2.5 of RFC 4861 says.
     */
    method NaInput(src: Addr, target: Addr, flags: Flags, tllao: Option<LinkAddr>, now: nat) returns (taken: bool)
      requires Valid()
      modifies this`locNbr, this`locDefrt, this`learned, cache, defrts
      ensures Valid() && NoneReenters(old(cache[..]), cache[..])
      ensures learned == old(learned) + if tllao.Some? then {(target, tllao.value)} else {}
      ensures !old(Holds(NbrHeads(cache[..]), target)) ==> !taken && cache[..] == old(cache[..])
      ensures old(Holds(NbrHeads(cache[..]), target)) ==>
        && locNbr < cache.Length && old(cache[..])[locNbr].isUsed && old(cache[..])[locNbr].ipaddr == target
        && cache[..] == old(cache[..])[locNbr := cache[locNbr]]
        && KnownOf(cache[locNbr]) == Advertised(KnownOf(old(cache[..])[locNbr]), flags, tllao)
        && (taken <==> !Ignored(KnownOf(old(cache[..])[locNbr]), flags, tllao))
    {
      hide NoneReenters, EntryValid;
      ghost var before, known := cache[..], learned;
      learned := learned + if tllao.Some? then {(target, tllao.value)} else {};
      var found := Lookup(target);
      if !found {
        NothingReenters(before);
        LearningKeepsCache(before, known, learned);
        return false;
      }
      taken := TakeAdvertisement(src, flags, tllao, now);
      AdvertisedIsValid(before[locNbr], cache[locNbr], flags, tllao, known);
      UpdateKeepsValid(before, locNbr, cache[locNbr], known, learned);
    }

    // ---------- Sending ----------

    /** `uip_nd6_ns_output`: where the solicitation in the packet buffer goes. */
    method NsOutput(dst: Option<Addr>, tgt: Addr)
      modifies this`dest
      ensures dest == if dst.None? then SolicitedNode(tgt) else dst.value
    {
      dest := if dst.None? then SolicitedNode(tgt) else dst.value;
    }

    /** The part of resolving that makes an entry for an unknown next hop and asks for its address. */
    method Solicit(nextHop: Addr, now: nat, clock: nat) returns (asked: bool)
      requires Valid() && !Holds(NbrHeads(cache[..]), nextHop)
      modifies this`locNbr, this`dest, cache
      ensures Valid() && NoneReenters(old(cache[..]), cache[..])
      ensures dest == if asked then SolicitedNode(nextHop) else old(dest)
      ensures asked ==> exists i :: 0 <= i < cache.Length && (LastFree(old(cache[..]), i) || Oldest(old(cache[..]), i, clock))
                                    && cache[..] == old(cache[..])[i := Sought(nextHop, now, clock, retransTimer)]
      ensures !asked ==> cache[..] == old(cache[..])
      ensures !asked ==> forall i :: 0 <= i < cache.Length ==> cache[i].isUsed && cache[i].lastLookup >= clock
    {
      hide NoneReenters, EntryValid;
      ghost var before := cache[..];
      var added := Add(nextHop, None, false, Incomplete, now, clock);
      asked := added.Some?;
      if !asked {
        NothingReenters(before);
        return;
      }
      var i := added.value;
      NsOutput(None, cache[i].ipaddr);
      cache[i] := cache[i].(sendNsAt := now + retransTimer);
      cache[i] := cache[i].(nsCount := 1);
      assert cache[..] == before[i := Sought(nextHop, now, clock, retransTimer)];
      SoughtIsValid(before, i, nextHop, now, clock, retransTimer, learned);
    }

    /** What follows once the next hop is known; nothing depends on it for other than unicast destinations. */
    method ResolveVia(nextHop: Addr, now: nat, clock: nat) returns (r: Resolution)
      requires Valid()
      modifies this`locNbr, this`dest, cache
      ensures Valid() && NoneReenters(old(cache[..]), cache[..])
      ensures r.ToNeighbour? ==> (nextHop, r.lladdr) in learned
      ensures r.ToGroup? ==> Multicast(dest) && r.lladdr == GroupAddr(dest)
      ensures r.ToNeighbour? ==> StartsProbing(old(cache[..]), cache[..], nextHop, now)
      ensures old(dest) == UNSPECIFIED || Multicast(old(dest)) ==> cache[..] == old(cache[..]) && dest == old(dest)
      ensures old(dest) == UNSPECIFIED ==> r == Drop
      ensures Multicast(old(dest)) ==> r.ToGroup?
      ensures old(dest) != UNSPECIFIED && !Multicast(old(dest)) ==>
        Resolved(old(cache[..]), cache[..], nextHop, now, clock, retransTimer, r)
        && dest == if r.ToGroup? then SolicitedNode(nextHop) else old(dest)
    {
      hide NoneReenters, EntryValid, StartsProbing;
      if dest == UNSPECIFIED {
        NothingReenters(cache[..]);
        return Drop;
      }
      if !Multicast(dest) {
        ghost var before := cache[..];
        var found := Lookup(nextHop);
        if !found {
          var asked := Solicit(nextHop, now, clock);
          if !asked {
            return Drop;
          }
        } else {
          var i := locNbr;
          HeldAt(before, i);
          if cache[i].state == Incomplete {
            NothingReenters(before);
            return Drop;
          }
          if cache[i].state == Stale {
            cache[i] := cache[i].(state := Delay, reachableAt := now + DELAY_FIRST_PROBE, nsCount := 0);
          }
          cache[i] := cache[i].(sendNsAt := now + retransTimer);
          assert cache[..] == before[i := Consulted(before[i], now, retransTimer)];
          ConsultedIsValid(before, i, now, retransTimer, learned);
          ConsultingStartsProbing(before, i, now, retransTimer);
          return ToNeighbour(cache[i].lladdr);
        }
      } else {
        NothingReenters(cache[..]);
      }
      r := ToGroup(GroupAddr(dest));
    }

    /** `uip_ds6_is_addr_onlink` */
    method OnLink(prefixes: array<Prefix>, a: Addr) returns (onLink: bool)
      requires forall i :: 0 <= i < prefixes.Length ==> prefixes[i].length <= 128
      ensures onLink <==> Covers(prefixes[..], a)
    {
      var i := 0;
      while i < prefixes.Length
        invariant 0 <= i <= prefixes.Length
        invariant forall j :: 0 <= j < i ==> !(prefixes[j].isUsed && PrefixCmp(prefixes[j].ipaddr, a, prefixes[j].length))
      {
        if prefixes[i].isUsed && PrefixCmp(prefixes[i].ipaddr, a, prefixes[i].length) {
          assert prefixes[..][i] == prefixes[i];
          return true;
        }
        i := i + 1;
      }
      onLink := false;
    }

    /** `uip_ds6_defrt_choose`: the first router whose address is known, else the last one there is. */
    method DefrtChoose() returns (router: Option<Addr>)
      requires Valid()
      modifies this`locNbr, this`locDefrt
      ensures IsChosen(defrts[..], cache[..], router)
    {
      hide EntryValid;
      router := None;
      locDefrt := 0;
      ghost var last: nat := 0;
      while locDefrt < defrts.Length
        invariant locDefrt <= defrts.Length
        invariant forall j :: 0 <= j < locDefrt ==> !(defrts[j].isUsed && HasKnown(cache[..], defrts[j].ipaddr))
        invariant router.None? ==> forall j :: 0 <= j < locDefrt ==> !defrts[j].isUsed
        invariant router.Some? ==> last < locDefrt && defrts[last].isUsed && defrts[last].ipaddr == router.value
        invariant router.Some? ==> forall j :: last < j < locDefrt ==> !defrts[j].isUsed
        decreases defrts.Length - locDefrt
      {
        if defrts[locDefrt].isUsed {
          var found := Lookup(defrts[locDefrt].ipaddr);
          KnownByLookup(cache[..], defrts[locDefrt].ipaddr, found, locNbr);
          router := Some(defrts[locDefrt].ipaddr);
          last := locDefrt;
          if found && cache[locNbr].state != Incomplete {
            assert defrts[..][locDefrt] == defrts[locDefrt];
            return;
          }
        }
        locDefrt := locDefrt + 1;
      }
    }

    /** Next-hop determination for a unicast destination. */
    method NextHop(prefixes: array<Prefix>, routes: array<Route>) returns (hop: Addr)
      requires Valid() && WellFormed(routes[..])
      requires forall i :: 0 <= i < prefixes.Length ==> prefixes[i].length <= 128
      modifies this`locNbr, this`locDefrt
      ensures IsNextHop(dest, prefixes[..], routes[..], defrts[..], cache[..], hop)
    {
      hide IsChosen, Covers;
      var onLink := OnLink(prefixes, dest);
      if LinkLocal(dest) || onLink {
        hop := dest;
      } else {
        var route := RouteLookup(routes, dest);
        if route.None? {
          var router := DefrtChoose();
          assert forall j :: 0 <= j < routes.Length ==> routes[..][j] == routes[j];
          hop := if router.None? then dest else router.value;
        } else {
          hop := routes[route.value].nextHop;
        }
      }
    }

    /**
     * `uip_ds6_resolve_lladdr` for the packet in the buffer. Its destination is read again after a
     * solicitation has replaced the packet, so that the frame goes to the solicitation's group.
     */
    method Resolve(prefixes: array<Prefix>, routes: array<Route>, now: nat, clock: nat) returns (r: Resolution, nextHop: Addr)
      requires Valid() && WellFormed(routes[..])
      requires forall i :: 0 <= i < prefixes.Length ==> prefixes[i].length <= 128
      modifies this`locNbr, this`locDefrt, this`dest, cache
      ensures Valid() && NoneReenters(old(cache[..]), cache[..])
      ensures r.ToNeighbour? ==> (nextHop, r.lladdr) in learned
      ensures r.ToGroup? ==> Multicast(dest) && r.lladdr == GroupAddr(dest)
      ensures r.ToNeighbour? ==> StartsProbing(old(cache[..]), cache[..], nextHop, now)
      ensures old(dest) == UNSPECIFIED || Multicast(old(dest)) ==> cache[..] == old(cache[..]) && dest == old(dest)
      ensures old(dest) == UNSPECIFIED ==> r == Drop
      ensures Multicast(old(dest)) ==> r.ToGroup?
      ensures old(dest) != UNSPECIFIED && !Multicast(old(dest)) ==>
        && IsNextHop(old(dest), prefixes[..], routes[..], defrts[..], old(cache[..]), nextHop)
        && Resolved(old(cache[..]), cache[..], nextHop, now, clock, retransTimer, r)
        && dest == if r.ToGroup? then SolicitedNode(nextHop) else old(dest)
    {
      hide *;
      nextHop := dest;
      if dest != UNSPECIFIED && !Multicast(dest) {
        nextHop := NextHop(prefixes, routes);
      }
      r := ResolveVia(nextHop, now, clock);
    }

    /** `uip_ds6_nbr_refresh_ipin`: a packet from a neighbour answers the question whether it is there. */
    method RefreshIpin(src: Addr, toMulticast: bool, now: nat)
      requires Valid()
      modifies this`locNbr, cache
      ensures Valid() && NoneReenters(old(cache[..]), cache[..])
      ensures forall i :: 0 <= i < cache.Length ==>
        cache[i] == if toMulticast then old(cache[i]) else Refreshed(old(cache[i]), src, now, reachableTime)
      ensures forall i :: 0 <= i < cache.Length ==>
        if !toMulticast && old(cache[i].isUsed) && old(cache[i].ipaddr) == src && old(cache[i].state) == Delay then
          && cache[i].isUsed && cache[i].state == Reachable && cache[i].nsCount == 0
          && cache[i].reachableAt == now + reachableTime
        else cache[i] == old(cache[i])
    {
      hide NoneReenters;
      ghost var before := cache[..];
      NothingReenters(before);
      if toMulticast {
        return;
      }
      HeadsUsed(before);
      var found := Lookup(src);
      if !found {
        return;
      }
      HeldAt(before, locNbr);
      if cache[locNbr].state == Delay {
        cache[locNbr] := cache[locNbr].(state := Reachable, nsCount := 0, reachableAt := now + reachableTime);
        UpdateKeepsValid(before, locNbr, cache[locNbr], learned, learned);
      }
    }

    /** `uip_ds6_defrt_add` */
    method DefrtAdd(ipaddr: Addr) returns (ok: bool)
      requires Valid()
      modifies this`locDefrt, defrts
      ensures Valid()
      ensures ok ==> !old(Holds(defrts[..], ipaddr))
      ensures ok ==> exists i :: 0 <= i < defrts.Length && !old(defrts[i].isUsed)
                                 && defrts[..] == old(defrts[..])[i := Element(true, ipaddr)]
      ensures !ok ==> defrts[..] == old(defrts[..])
    {
      var r;
      r, locDefrt := ListLoop(defrts, Self, ipaddr, 128);
      assert Elements(defrts[..], Self) == defrts[..];
      FullPrefix(defrts[..], ipaddr, r, locDefrt);
      ok := r == FreeSpace;
      if ok {
        NewIsDistinct(defrts[..], locDefrt, ipaddr);
        assert !defrts[..][locDefrt].isUsed;
        defrts[locDefrt] := Element(true, ipaddr);
        assert defrts[..] == old(defrts[..])[locDefrt := Element(true, ipaddr)];
      }
    }

    // ---------- Time ----------

    /**
     * The neighbour part of `uip_ds6_periodic`, with the solicitations it composes, in order. They
     * share one packet buffer: only the last one is still in it when the scan ends.
     */
    method Periodic(now: nat) returns (sent: seq<Solicitation>)
      requires Valid()
      modifies this`locNbr, this`locDefrt, this`dest, cache, defrts
      ensures Valid() && NoneReenters(old(cache[..]), cache[..])
      ensures forall i :: 0 <= i < cache.Length ==> cache[i] == Tick(old(cache[i]), now, retransTimer)
      ensures sent == SolicitationsSent(old(cache[..]), now)
      ensures dest == if sent == [] then old(dest) else sent[|sent| - 1].dest
      ensures forall j :: 0 <= j < defrts.Length ==>
        defrts[j] == if GivenUp(old(cache[..]), old(defrts[j]).ipaddr) then old(defrts[j]).(isUsed := false) else old(defrts[j])
    {
      hide NoneReenters, EntryValid, Tick, SolicitationsSent, Distinct, GivenUp;
      ghost var before := cache[..];
      ghost var routers := defrts[..];
      sent := [];
      locNbr := 0;
      NothingYet(before, now, routers);
      while locNbr < cache.Length
        invariant locNbr <= cache.Length && Distinct(defrts[..])
        invariant forall i :: 0 <= i < locNbr ==> cache[i] == Tick(before[i], now, retransTimer)
        invariant forall i :: locNbr <= i < cache.Length ==> cache[i] == before[i]
        invariant sent == SolicitationsSent(before[..locNbr], now)
        invariant dest == if sent == [] then old(dest) else sent[|sent| - 1].dest
        invariant forall j :: 0 <= j < defrts.Length ==>
          defrts[j] == if GivenUp(before[..locNbr], routers[j].ipaddr) then routers[j].(isUsed := false) else routers[j]
        decreases cache.Length - locNbr
      {
        ghost var i, kept := locNbr, defrts[..];
        var ns := Visit(now);
        sent := if ns.Some? then sent + [ns.value] else sent;
        OneMoreVisit(before, i, now, routers, kept, defrts[..]);
        locNbr := locNbr + 1;
      }
      assert before[..locNbr] == before;
      TicksKeepValid(before, cache[..], now, retransTimer, learned);
    }

    /** The scan at the cursor. */
    method Visit(now: nat) returns (sent: Option<Solicitation>)
      requires locNbr < cache.Length && Distinct(defrts[..])
      modifies this`locDefrt, this`dest, cache, defrts
      ensures cache[..] == old(cache[..])[locNbr := Tick(old(cache[locNbr]), now, retransTimer)]
      ensures sent == SentTo(old(cache[locNbr]), now)
      ensures dest == if sent.Some? then sent.value.dest else old(dest)
      ensures Distinct(defrts[..])
      ensures forall j :: 0 <= j < defrts.Length ==>
        defrts[j] ==
          if ProbeFailed(old(cache[locNbr])) then Without(old(defrts[j]), old(cache[locNbr].ipaddr)) else old(defrts[j])
    {
      hide Distinct, Holds;
      sent := None;
      if cache[locNbr].isUsed {
        match cache[locNbr].state {
          case Incomplete =>
            if cache[locNbr].nsCount >= MAX_SOLICIT {
              cache[locNbr] := cache[locNbr].(isUsed := false);
            } else if now >= cache[locNbr].sendNsAt {
              cache[locNbr] := cache[locNbr].(nsCount := cache[locNbr].nsCount + 1);
              NsOutput(None, cache[locNbr].ipaddr);
              sent := Some(Solicitation(dest, cache[locNbr].ipaddr));
              cache[locNbr] := cache[locNbr].(sendNsAt := now + retransTimer);
            }
          case Reachable =>
            if now >= cache[locNbr].reachableAt {
              cache[locNbr] := cache[locNbr].(state := Stale);
            }
          case Delay =>
            if now >= cache[locNbr].reachableAt {
              cache[locNbr] := cache[locNbr].(state := Probe, nsCount := 1);
              NsOutput(Some(cache[locNbr].ipaddr), cache[locNbr].ipaddr);
              sent := Some(Solicitation(dest, cache[locNbr].ipaddr));
              cache[locNbr] := cache[locNbr].(sendNsAt := now + retransTimer);
            }
          case Probe =>
            if cache[locNbr].nsCount >= MAX_SOLICIT {
              DefrtDrop(cache[locNbr].ipaddr);
              cache[locNbr] := cache[locNbr].(isUsed := false);
            } else if now >= cache[locNbr].sendNsAt {
              cache[locNbr] := cache[locNbr].(nsCount := cache[locNbr].nsCount + 1);
              NsOutput(Some(cache[locNbr].ipaddr), cache[locNbr].ipaddr);
              sent := Some(Solicitation(dest, cache[locNbr].ipaddr));
              cache[locNbr] := cache[locNbr].(sendNsAt := now + retransTimer);
            }
          case Stale =>
        }
      }
    }
  }

  datatype Solicitation = Solicitation(dest: Addr, target: Addr)

  /** The solicitation of one visit: to the group while the address is unknown, to the neighbour itself afterwards. */
  function SentTo(n: Nbr, now: nat): Option<Solicitation> {
    if Solicited(n, now) then
      Some(Solicitation(if n.state == Incomplete then SolicitedNode(n.ipaddr) else n.ipaddr, n.ipaddr))
    else None
  }

  function SolicitationsSent(cache: seq<Nbr>, now: nat): seq<Solicitation> {
    if cache == [] then []
    else
      var last := SentTo(cache[|cache| - 1], now);
      SolicitationsSent(cache[..|cache| - 1], now) + if last.Some? then [last.value] else []
  }

  /** The neighbour has not answered the last of its probes. */
  predicate ProbeFailed(n: Nbr) {
    n.isUsed && n.state == Probe && n.nsCount >= MAX_SOLICIT
  }

  /** Its entry goes at this visit, and no other entry in PROBE does. */
  lemma FailedProbesGo(n: Nbr, now: nat, retrans: nat)
    requires n.isUsed && n.state == Probe
    ensures ProbeFailed(n) <==> !Tick(n, now, retrans).isUsed
  {
  }

  predicate GivenUp(cache: seq<Nbr>, a: Addr) {
    exists i :: 0 <= i < |cache| && ProbeFailed(cache[i]) && cache[i].ipaddr == a
  }

  lemma NothingYet(cache: seq<Nbr>, now: nat, routers: seq<Element>)
    ensures SolicitationsSent(cache[..0], now) == []
    ensures forall j :: 0 <= j < |routers| ==> !GivenUp(cache[..0], routers[j].ipaddr)
  {
  }

  lemma OneMoreVisit(cache: seq<Nbr>, i: nat, now: nat, routers: seq<Element>, before: seq<Element>, after: seq<Element>)
    requires i < |cache| && |routers| == |before| == |after|
    requires forall j :: 0 <= j < |routers| ==>
      before[j] == if GivenUp(cache[..i], routers[j].ipaddr) then routers[j].(isUsed := false) else routers[j]
    requires forall j :: 0 <= j < |routers| ==>
      after[j] == if ProbeFailed(cache[i]) then Without(before[j], cache[i].ipaddr) else before[j]
    ensures SolicitationsSent(cache[..i + 1], now) ==
            SolicitationsSent(cache[..i], now) + (if SentTo(cache[i], now).Some? then [SentTo(cache[i], now).value] else [])
    ensures forall j :: 0 <= j < |routers| ==>
      after[j] == if GivenUp(cache[..i + 1], routers[j].ipaddr) then routers[j].(isUsed := false) else routers[j]
  {
    assert cache[..i + 1][..i] == cache[..i];
    hide SolicitationsSent, SentTo;
    forall a ensures GivenUp(cache[..i + 1], a) <==> GivenUp(cache[..i], a) || (ProbeFailed(cache[i]) && cache[i].ipaddr == a) {
      if GivenUp(cache[..i], a) {
        var k :| 0 <= k < i && ProbeFailed(cache[..i][k]) && cache[..i][k].ipaddr == a;
        assert cache[..i + 1][k] == cache[..i][k];
      }
      if ProbeFailed(cache[i]) && cache[i].ipaddr == a {
        assert cache[..i + 1][i] == cache[i];
      }
    }
    hide GivenUp, ProbeFailed;
  }

  lemma TicksKeepValid(before: seq<Nbr>, after: seq<Nbr>, now: nat, retrans: nat, learned: set<(Addr, LinkAddr)>)
    requires CacheValid(before, learned) && |after| == |before|
    requires forall i :: 0 <= i < |before| ==> after[i] == Tick(before[i], now, retrans)
    ensures CacheValid(after, learned) && NoneReenters(before, after)
  {
    forall i | 0 <= i < |before|
      ensures (before[i].isUsed && EntryValid(before[i], learned) ==> after[i].isUsed ==> EntryValid(after[i], learned))
      ensures after[i].ipaddr == before[i].ipaddr && (after[i].isUsed ==> before[i].isUsed)
      ensures before[i].state != Incomplete ==> after[i].state != Incomplete
    {
    }
    hide Tick, EntryValid;
    HeadsUsed(before);
    HeadsUsed(after);
    forall j, k | 0 <= j < |before| && 0 <= k < |before| && j != k && before[j].isUsed && before[k].isUsed
      ensures before[j].ipaddr != before[k].ipaddr
    {
      assert NbrHeads(before)[j] == NbrHead(before[j]) && NbrHeads(before)[k] == NbrHead(before[k]);
    }
  }

  function Refreshed(n: Nbr, src: Addr, now: nat, reachableTime: nat): Nbr {
    if n.isUsed && n.ipaddr == src && n.state == Delay then
      n.(state := Reachable, nsCount := 0, reachableAt := now + reachableTime)
    else n
  }

  /** A prefix that is on the link. */
  datatype Prefix = Prefix(isUsed: bool, ipaddr: Addr, length: nat)

  predicate Covers(prefixes: seq<Prefix>, a: Addr)
    requires forall i :: 0 <= i < |prefixes| ==> prefixes[i].length <= 128
  {
    exists i :: 0 <= i < |prefixes| && prefixes[i].isUsed && PrefixCmp(prefixes[i].ipaddr, a, prefixes[i].length)
  }

  /** The neighbour's link-layer address is known. */
  predicate HasKnown(cache: seq<Nbr>, a: Addr) {
    exists i :: 0 <= i < |cache| && cache[i].isUsed && cache[i].ipaddr == a && cache[i].state != Incomplete
  }

  lemma KnownByLookup(cache: seq<Nbr>, a: Addr, found: bool, i: nat)
    requires Distinct(NbrHeads(cache)) && (found <==> Holds(NbrHeads(cache), a))
    requires found ==> i < |cache| && cache[i].isUsed && cache[i].ipaddr == a
    ensures HasKnown(cache, a) <==> found && cache[i].state != Incomplete
  {
    HeadsUsed(cache);
    if found {
      HeldAt(cache, i);
    }
  }

  predicate IsChosen(routers: seq<Element>, cache: seq<Nbr>, router: Option<Addr>) {
    if router.None? then forall j :: 0 <= j < |routers| ==> !routers[j].isUsed
    else exists i :: 0 <= i < |routers| && routers[i].isUsed && routers[i].ipaddr == router.value && IsPreferred(routers, cache, i)
  }

  /** The first router that is known, or the last one if none is. */
  predicate IsPreferred(routers: seq<Element>, cache: seq<Nbr>, i: nat)
    requires i < |routers|
  {
    if HasKnown(cache, routers[i].ipaddr) then
      forall j :: 0 <= j < i ==> !(routers[j].isUsed && HasKnown(cache, routers[j].ipaddr))
    else
      && (forall j :: 0 <= j < |routers| ==> !(routers[j].isUsed && HasKnown(cache, routers[j].ipaddr)))
      && forall j :: i < j < |routers| ==> !routers[j].isUsed
  }

  /** On the link the destination itself, else the longest route's next hop, else a router, else the destination. */
  predicate IsNextHop(dest: Addr, prefixes: seq<Prefix>, routes: seq<Route>, routers: seq<Element>, cache: seq<Nbr>, hop: Addr)
    requires WellFormed(routes) && forall i :: 0 <= i < |prefixes| ==> prefixes[i].length <= 128
  {
    if LinkLocal(dest) || Covers(prefixes, dest) then hop == dest
    else if exists i :: 0 <= i < |routes| && Matches(routes[i], dest) then
      exists i :: 0 <= i < |routes| && IsLongest(routes, dest, i) && hop == routes[i].nextHop
    else (IsChosen(routers, cache, None) && hop == dest) || IsChosen(routers, cache, Some(hop))
  }

  predicate SameBesides(n: Nbr, m: Nbr) {
    m.isUsed == n.isUsed && m.ipaddr == n.ipaddr && m.sendNsAt == n.sendNsAt && m.lastLookup == n.lastLookup
  }

  lemma LearningKeepsCache(cache: seq<Nbr>, learned: set<(Addr, LinkAddr)>, learned': set<(Addr, LinkAddr)>)
    requires CacheValid(cache, learned) && learned <= learned'
    ensures CacheValid(cache, learned')
  {
  }

  lemma AdvertisedIsValid(n: Nbr, m: Nbr, flags: Flags, tllao: Option<LinkAddr>, learned: set<(Addr, LinkAddr)>)
    requires n.isUsed && EntryValid(n, learned) && SameBesides(n, m) && KnownOf(m) == Advertised(KnownOf(n), flags, tllao)
    requires m.nsCount == n.nsCount || (n.state == Incomplete && m.nsCount == 0)
    ensures Update(n, m) && EntryValid(m, learned + if tllao.Some? then {(n.ipaddr, tllao.value)} else {})
  {
  }

  /** The Ethernet address of a multicast group (section 7 of RFC 2464). */
  function GroupAddr(a: Addr): LinkAddr {
    [0x33, 0x33, a[12], a[13], a[14], a[15]]
  }

  /** Two groups share an Ethernet address exactly if their last 32 bits agree. */
  lemma SameGroupAddr(a: Addr, b: Addr)
    ensures GroupAddr(a) == GroupAddr(b) <==> a[12..] == b[12..]
    ensures GroupAddr(a)[..2] == [0x33, 0x33] && GroupAddr(a)[2..] == a[12..]
  {
    var g, h := GroupAddr(a), GroupAddr(b);
    assert g[2..] == a[12..] && h[2..] == b[12..];
    if a[12..] == b[12..] {
      assert a[12] == a[12..][0] == b[12] && a[13] == a[12..][1] == b[13];
      assert a[14] == a[12..][2] == b[14] && a[15] == a[12..][3] == b[15];
    }
  }

  /** The entry of a neighbour that is asked for its address for the first time. */
  function Sought(nextHop: Addr, now: nat, clock: nat, retrans: nat): Nbr {
    NewNbr(nextHop, None, false, Incomplete, now, clock).(sendNsAt := now + retrans, nsCount := 1)
  }

  /** The entry after its link-layer address was used. */
  function Consulted(n: Nbr, now: nat, retrans: nat): Nbr {
    var m := if n.state == Stale then n.(state := Delay, reachableAt := now + DELAY_FIRST_PROBE, nsCount := 0) else n;
    m.(sendNsAt := now + retrans)
  }

  /**
   * Handing out the address of `nextHop` leaves no entry of it STALE: one that was is in DELAY, to be
   * probed in five seconds with no solicitation counted yet (section 7.3.3 of RFC 4861). Any other
   * keeps its state and times, and other neighbours' entries are untouched.
   */
  ghost predicate StartsProbing(before: seq<Nbr>, after: seq<Nbr>, nextHop: Addr, now: nat) {
    && |after| == |before|
    && (exists i :: 0 <= i < |after| && after[i].isUsed && after[i].ipaddr == nextHop)
    && forall i :: 0 <= i < |after| ==>
         if before[i].isUsed && before[i].ipaddr == nextHop then
           && after[i].isUsed && after[i].ipaddr == nextHop && after[i].state != Stale
           && (if before[i].state == Stale
               then after[i].state == Delay && after[i].nsCount == 0 && after[i].reachableAt == now + 5
               else after[i].state == before[i].state && after[i].nsCount == before[i].nsCount
                    && after[i].reachableAt == before[i].reachableAt)
         else after[i] == before[i]
  }

  lemma ConsultingStartsProbing(cache: seq<Nbr>, i: nat, now: nat, retrans: nat)
    requires i < |cache| && Distinct(NbrHeads(cache)) && cache[i].isUsed
    ensures StartsProbing(cache, cache[i := Consulted(cache[i], now, retrans)], cache[i].ipaddr, now)
  {
    HeldAt(cache, i);
    hide Distinct, Holds;
    assert cache[i := Consulted(cache[i], now, retrans)][i].ipaddr == cache[i].ipaddr;
  }

  /** What resolving a unicast destination does to the cache. */
  predicate Resolved(before: seq<Nbr>, after: seq<Nbr>, nextHop: Addr, now: nat, clock: nat, retrans: nat, r: Resolution) {
    match r
    case ToNeighbour(lladdr) =>
      exists i :: 0 <= i < |before| && before[i].isUsed && before[i].ipaddr == nextHop && before[i].state != Incomplete
                  && before[i].lladdr == lladdr && after == before[i := Consulted(before[i], now, retrans)]
    case ToGroup(_) =>
      && !Holds(NbrHeads(before), nextHop)
      && exists i :: 0 <= i < |before| && (LastFree(before, i) || Oldest(before, i, clock))
                     && after == before[i := Sought(nextHop, now, clock, retrans)]
    case Drop =>
      && after == before
      && ((exists i :: 0 <= i < |before| && before[i].isUsed && before[i].ipaddr == nextHop && before[i].state == Incomplete)
          || forall i :: 0 <= i < |before| ==> before[i].isUsed && before[i].lastLookup >= clock)
  }

  lemma HeldAt(cache: seq<Nbr>, i: nat)
    requires i < |cache| && Distinct(NbrHeads(cache)) && cache[i].isUsed
    ensures Holds(NbrHeads(cache), cache[i].ipaddr)
    ensures forall j :: 0 <= j < |cache| && cache[j].isUsed && cache[j].ipaddr == cache[i].ipaddr ==> j == i
  {
    HeadsUsed(cache);
    assert NbrHeads(cache)[i] == NbrHead(cache[i]);
    forall j | 0 <= j < |cache| && cache[j].isUsed && cache[j].ipaddr == cache[i].ipaddr ensures j == i {
      assert NbrHeads(cache)[j] == NbrHead(cache[j]);
    }
  }

  lemma SoughtIsValid(cache: seq<Nbr>, i: nat, nextHop: Addr, now: nat, clock: nat, retrans: nat,
                      learned: set<(Addr, LinkAddr)>)
    requires CacheValid(cache, learned) && i < |cache| && !Holds(NbrHeads(cache), nextHop)
    ensures CacheValid(cache[i := Sought(nextHop, now, clock, retrans)], learned)
    ensures NoneReenters(cache, cache[i := Sought(nextHop, now, clock, retrans)])
    ensures Asking(Sought(nextHop, now, clock, retrans))
  {
    hide NoneReenters;
    NewKeepsValid(cache, i, Sought(nextHop, now, clock, retrans), learned, learned);
  }

  lemma ConsultedIsValid(cache: seq<Nbr>, i: nat, now: nat, retrans: nat, learned: set<(Addr, LinkAddr)>)
    requires CacheValid(cache, learned) && i < |cache| && cache[i].isUsed && cache[i].state != Incomplete
    ensures CacheValid(cache[i := Consulted(cache[i], now, retrans)], learned)
    ensures NoneReenters(cache, cache[i := Consulted(cache[i], now, retrans)])
    ensures (cache[i].ipaddr, cache[i].lladdr) in learned
  {
    hide NoneReenters;
    UpdateKeepsValid(cache, i, Consulted(cache[i], now, retrans), learned, learned);
  }

  /** A source's link-layer address is taken over; only a different one, or the first, makes the entry stale. */
  function TakenOver(n: Nbr, lladdr: LinkAddr, router: bool): Nbr {
    n.(lladdr := lladdr, isRouter := n.isRouter || router,
       state := if n.state == Incomplete || n.lladdr != lladdr then Stale else n.state)
  }

  /** The one entry for `src` is brought up to date, or a stale entry is made for it if there is room. */
  predicate LearnedFrom(before: seq<Nbr>, after: seq<Nbr>, src: Addr, lladdr: LinkAddr, router: bool, now: nat, clock: nat) {
    if Holds(NbrHeads(before), src) then
      exists i :: 0 <= i < |before| && before[i].isUsed && before[i].ipaddr == src
                  && after == before[i := TakenOver(before[i], lladdr, router)]
    else
      AddedFor(before, after, NewNbr(src, Some(lladdr), router, Stale, now, clock), clock)
  }

  /**
   * What section 7.2.3 of RFC 4861 asks for, entry by entry: the source's entry has the address from the
   * option and is STALE if it is new, or the address is; no other entry changes, unless it makes room.
   */
  ghost predicate SourceIsKnown(before: seq<Nbr>, after: seq<Nbr>, src: Addr, lladdr: LinkAddr, router: bool) {
    && |after| == |before|
    && forall i :: 0 <= i < |after| ==>
         if before[i].isUsed && before[i].ipaddr == src then
           && after[i].isUsed && after[i].ipaddr == src && after[i].lladdr == lladdr
           && after[i].isRouter == (before[i].isRouter || router)
           && after[i].state == (if before[i].state == Incomplete || before[i].lladdr != lladdr then Stale else before[i].state)
         else after[i] == before[i] || NewlyKnown(after[i], src, lladdr, router)
  }

  predicate NewlyKnown(n: Nbr, src: Addr, lladdr: LinkAddr, router: bool) {
    n.isUsed && n.ipaddr == src && n.lladdr == lladdr && n.state == Stale && n.isRouter == router && n.nsCount == 0
  }

  lemma LearningMakesKnown(before: seq<Nbr>, after: seq<Nbr>, src: Addr, lladdr: LinkAddr, router: bool,
                           now: nat, clock: nat)
    requires Distinct(NbrHeads(before)) && LearnedFrom(before, after, src, lladdr, router, now, clock)
    ensures SourceIsKnown(before, after, src, lladdr, router)
    ensures !Holds(NbrHeads(before), src) && after != before ==> Holds(NbrHeads(after), src)
  {
    hide LastFree, Oldest;
    HeadsUsed(before);
    HeadsUsed(after);
    if Holds(NbrHeads(before), src) {
      var i :| 0 <= i < |before| && before[i].isUsed && before[i].ipaddr == src
               && after == before[i := TakenOver(before[i], lladdr, router)];
      HeldAt(before, i);
    } else {
      hide Distinct;
      forall i | 0 <= i < |before| && before[i].isUsed ensures before[i].ipaddr != src {
        assert NbrHeads(before)[i].isUsed && NbrHeads(before)[i].ipaddr == before[i].ipaddr;
      }
      var n := NewNbr(src, Some(lladdr), router, Stale, now, clock);
      if after != before {
        var i :| 0 <= i < |before| && after == before[i := n];
        assert NbrHeads(after)[i] == NbrHead(n);
      }
    }
  }

  predicate AddedFor(before: seq<Nbr>, after: seq<Nbr>, n: Nbr, clock: nat) {
    || (exists i :: 0 <= i < |before| && (LastFree(before, i) || Oldest(before, i, clock)) && after == before[i := n])
    || (after == before && forall i :: 0 <= i < |before| ==> before[i].isUsed && before[i].lastLookup >= clock)
  }

  lemma NothingReenters(cache: seq<Nbr>)
    requires Distinct(NbrHeads(cache))
    ensures NoneReenters(cache, cache)
  {
    HeadsUsed(cache);
    forall j, k | 0 <= j < |cache| && 0 <= k < |cache| && SameNeighbour(cache[j], cache[k]) && cache[j].state != Incomplete
      ensures cache[k].state != Incomplete
    {
      assert NbrHeads(cache)[j] == NbrHead(cache[j]) && NbrHeads(cache)[k] == NbrHead(cache[k]);
    }
  }

  lemma NewIsLearned(before: seq<Nbr>, after: seq<Nbr>, added: Option<nat>, src: Addr, lladdr: LinkAddr, router: bool,
                     now: nat, clock: nat, learned: set<(Addr, LinkAddr)>)
    requires CacheValid(before, learned) && !Holds(NbrHeads(before), src)
    requires added.Some? ==>
      && added.value < |before| && (LastFree(before, added.value) || Oldest(before, added.value, clock))
      && after == before[added.value := NewNbr(src, Some(lladdr), router, Stale, now, clock)]
    requires added.None? ==>
      after == before && forall i :: 0 <= i < |before| ==> before[i].isUsed && before[i].lastLookup >= clock
    ensures CacheValid(after, learned + {(src, lladdr)}) && NoneReenters(before, after)
    ensures LearnedFrom(before, after, src, lladdr, router, now, clock)
  {
    hide NoneReenters, LastFree, Oldest;
    if added.Some? {
      NewKeepsValid(before, added.value, NewNbr(src, Some(lladdr), router, Stale, now, clock), learned,
                    learned + {(src, lladdr)});
    } else {
      NothingReenters(before);
    }
  }

  lemma OldIsLearned(before: seq<Nbr>, i: nat, n: Nbr, src: Addr, lladdr: LinkAddr, router: bool, now: nat, clock: nat,
                     learned: set<(Addr, LinkAddr)>)
    requires CacheValid(before, learned) && i < |before| && before[i].isUsed && before[i].ipaddr == src
    requires n == TakenOver(before[i], lladdr, router)
    ensures CacheValid(before[i := n], learned + {(src, lladdr)}) && NoneReenters(before, before[i := n])
    ensures LearnedFrom(before, before[i := n], src, lladdr, router, now, clock)
  {
    hide NoneReenters;
    HeadsUsed(before);
    assert Holds(NbrHeads(before), src) by { assert NbrHeads(before)[i] == NbrHead(before[i]); }
    UpdateKeepsValid(before, i, n, learned, learned + {(src, lladdr)});
  }

  lemma HeadsUsed(cache: seq<Nbr>)
    ensures forall i :: 0 <= i < |cache| ==> NbrHeads(cache)[i] == NbrHead(cache[i])
  {
  }

  lemma EvictedIsAnother(cache: seq<Nbr>, i: nat, a: Addr)
    requires i < |cache| && !Holds(NbrHeads(cache), a)
    ensures !Holds(NbrHeads(cache[i := cache[i].(isUsed := false)]), a)
  {
    var heads := NbrHeads(cache[i := cache[i].(isUsed := false)]);
    forall j | 0 <= j < |cache| && heads[j].isUsed ensures heads[j].ipaddr != a {
      assert NbrHeads(cache)[j] == NbrHead(cache[j]);
    }
  }
}
