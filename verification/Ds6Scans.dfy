/**
 * What one run of `uip_ds6_periodic` leaves to send. All solicitations it composes share the packet
 * buffer that its caller sends once, so that each is written over by the next.
 */
module Ds6Scans {
  import opened Octets
  import opened Ip6Match
  import opened Ip6Addresses
  import opened Neighbours

  // ---------- One scan ----------

  /** Of the solicitations for neighbours, that of entry `i` is the last. */
  predicate LastToAsk(cache: seq<Nbr>, i: nat, now: nat)
    requires i < |cache|
  {
    Solicited(cache[i], now) && forall j :: i < j < |cache| ==> !Solicited(cache[j], now)
  }

  predicate DadAsks(s: AddrSlot, maxDadNs: nat, now: nat) {
    DadDue(s, maxDadNs, now) && s.dadNsCount < maxDadNs
  }

  /** Of all solicitations, that for the own address in slot `i` is the last. */
  predicate LastForAddress(addrs: seq<AddrSlot>, i: nat, cache: seq<Nbr>, maxDadNs: nat, now: nat)
    requires i < |addrs|
  {
    && DadAsks(addrs[i], maxDadNs, now)
    && (forall j :: i < j < |addrs| ==> !DadAsks(addrs[j], maxDadNs, now))
    && forall k :: 0 <= k < |cache| ==> !Solicited(cache[k], now)
  }

  function ForAddress(a: Addr): Solicitation {
    Solicitation(SolicitedNode(a), a)
  }

  /** The last entry that is solicited, or -1. */
  function LastAsked(cache: seq<Nbr>, now: nat): (i: int)
    ensures -1 <= i < |cache|
    ensures i >= 0 ==> LastToAsk(cache, i, now)
    ensures forall j :: i < j < |cache| ==> !Solicited(cache[j], now)
  {
    if cache == [] then -1
    else if Solicited(cache[|cache| - 1], now) then |cache| - 1
    else
      var rest := cache[..|cache| - 1];
      assert forall j :: 0 <= j < |rest| ==> rest[j] == cache[j];
      LastAsked(rest, now)
  }

  /** A scan composes something exactly if an entry is due, and last the solicitation for the last of these. */
  lemma {:induction false} LastSolicitation(cache: seq<Nbr>, now: nat)
    ensures var sent, i := SolicitationsSent(cache, now), LastAsked(cache, now);
      if i < 0 then sent == [] else sent != [] && SentTo(cache[i], now) == Some(sent[|sent| - 1])
    decreases |cache|
  {
    hide LastToAsk, Solicited, SolicitedNode;
    if cache != [] {
      LastSolicitation(cache[..|cache| - 1], now);
    }
  }

  /** The last own address that is solicited, or -1. */
  function LastDadAsked(addrs: seq<AddrSlot>, maxDadNs: nat, now: nat): (i: int)
    ensures -1 <= i < |addrs|
    ensures i >= 0 ==> DadAsks(addrs[i], maxDadNs, now)
    ensures forall j :: i < j < |addrs| ==> !DadAsks(addrs[j], maxDadNs, now)
  {
    if addrs == [] then -1
    else if DadAsks(addrs[|addrs| - 1], maxDadNs, now) then |addrs| - 1
    else
      var rest := addrs[..|addrs| - 1];
      assert forall j :: 0 <= j < |rest| ==> rest[j] == addrs[j];
      LastDadAsked(rest, maxDadNs, now)
  }

  lemma {:induction false} LastDadSolicitation(addrs: seq<AddrSlot>, maxDadNs: nat, now: nat)
    ensures var sent, i := Solicitations(addrs, maxDadNs, now), LastDadAsked(addrs, maxDadNs, now);
      if i < 0 then sent == [] else sent != [] && sent[|sent| - 1] == addrs[i].ipaddr
    decreases |addrs|
  {
    hide DadDue;
    if addrs != [] {
      LastDadSolicitation(addrs[..|addrs| - 1], maxDadNs, now);
    }
  }

  /** What is in the packet buffer after a scan that composed these. */
  function LeftOver(dadSent: seq<Addr>, nbrSent: seq<Solicitation>): Option<Solicitation> {
    if nbrSent != [] then Some(nbrSent[|nbrSent| - 1])
    else if dadSent != [] then Some(ForAddress(dadSent[|dadSent| - 1]))
    else None
  }

  /** The last neighbour's solicitation, else the last own address's, and nothing only if nothing is due. */
  ghost predicate IsLeft(addrs: seq<AddrSlot>, cache: seq<Nbr>, maxDadNs: nat, now: nat, left: Option<Solicitation>) {
    && (forall i :: 0 <= i < |cache| && LastToAsk(cache, i, now) ==> left == SentTo(cache[i], now))
    && (forall i :: 0 <= i < |addrs| && LastForAddress(addrs, i, cache, maxDadNs, now) ==>
          left == Some(ForAddress(addrs[i].ipaddr)))
    && (left.None? <==> (forall i :: 0 <= i < |cache| ==> !Solicited(cache[i], now))
                        && forall i :: 0 <= i < |addrs| ==> !DadAsks(addrs[i], maxDadNs, now))
  }

  lemma LeftToSend(addrs: seq<AddrSlot>, cache: seq<Nbr>, maxDadNs: nat, now: nat)
    ensures IsLeft(addrs, cache, maxDadNs, now,
                   LeftOver(Solicitations(addrs, maxDadNs, now), SolicitationsSent(cache, now)))
  {
    var left := LeftOver(Solicitations(addrs, maxDadNs, now), SolicitationsSent(cache, now));
    LastSolicitation(cache, now);
    LastDadSolicitation(addrs, maxDadNs, now);
    hide Solicitations, SolicitationsSent, DadAsks, Solicited, SentTo, ForAddress;
    var i, j := LastAsked(cache, now), LastDadAsked(addrs, maxDadNs, now);
    assert left == if i >= 0 then SentTo(cache[i], now) else if j >= 0 then Some(ForAddress(addrs[j].ipaddr)) else None;
    hide LastAsked, LastDadAsked, LeftOver;
    forall k | 0 <= k < |cache| && LastToAsk(cache, k, now) ensures k == i {
    }
    forall k | 0 <= k < |addrs| && LastForAddress(addrs, k, cache, maxDadNs, now) ensures i < 0 && k == j {
    }
  }

  /** The part of `uip_ds6_periodic` that solicits, and what it leaves in the packet buffer. */
  method Periodic(interface: Interface, nbrs: NbrCache, now: nat) returns (left: Option<Solicitation>)
    requires interface.Valid() && nbrs.Valid()
    requires interface.maddrList != nbrs.defrts
    modifies interface`locAddr, interface`locMaddr, interface.addrList, interface.maddrList
    modifies nbrs`locNbr, nbrs`locDefrt, nbrs`dest, nbrs.cache, nbrs.defrts
    ensures interface.Valid() && nbrs.Valid()
    ensures forall i :: 0 <= i < interface.addrList.Length ==>
      interface.addrList[i] == Visited(old(interface.addrList[i]), interface.maxDadNs, now, interface.retrans)
    ensures forall i :: 0 <= i < nbrs.cache.Length ==> nbrs.cache[i] == Tick(old(nbrs.cache[i]), now, nbrs.retransTimer)
    ensures IsLeft(old(interface.addrList[..]), old(nbrs.cache[..]), interface.maxDadNs, now, left)
    ensures nbrs.dest == if left.Some? then left.value.dest else old(nbrs.dest)
  {
    hide Solicitations, SolicitationsSent, Visited, Tick, SolicitedNode, IsLeft;
    hide NoneReenters, GivenUp, TablesValid, CacheValid, Distinct;
    LeftToSend(interface.addrList[..], nbrs.cache[..], interface.maxDadNs, now);
    left := None;
    var dadSent := interface.Periodic(now);
    if dadSent != [] {
      left := Some(ForAddress(dadSent[|dadSent| - 1]));
      nbrs.dest := left.value.dest;
    }
    var nbrSent := nbrs.Periodic(now);
    if nbrSent != [] {
      left := Some(nbrSent[|nbrSent| - 1]);
    }
  }
}
