/**
 * The address tables of the IPv6 interface in src/net/uip-ds6.c: the generic search, unicast and
 * multicast addresses, duplicate address detection and the periodic scan whose cursor the scan's
 * own callees overwrite.
 */
module Ip6Addresses {
  import opened Octets
  import opened Ip6Match
  import opened Sets

  // ---------- The generic search ----------

  /** What the tables have in common. */
  datatype Element = Element(isUsed: bool, ipaddr: Addr)

  datatype Search = Found | FreeSpace | NoSpace

  predicate Hit(e: Element, ipaddr: Addr, length: nat)
    requires length <= 128
  {
    e.isUsed && PrefixCmp(e.ipaddr, ipaddr, length)
  }

  /** The outcome: the first slot that matches, or else the last free one, or else nothing. */
  predicate IsOutcome(list: seq<Element>, ipaddr: Addr, length: nat, r: Search, out: nat)
    requires length <= 128
  {
    match r
    case Found =>
      out < |list| && Hit(list[out], ipaddr, length) && forall j :: 0 <= j < out ==> !Hit(list[j], ipaddr, length)
    case FreeSpace =>
      && out < |list| && !list[out].isUsed && (forall j :: out < j < |list| ==> list[j].isUsed)
      && forall j :: 0 <= j < |list| ==> !Hit(list[j], ipaddr, length)
    case NoSpace =>
      forall j :: 0 <= j < |list| ==> list[j].isUsed && !Hit(list[j], ipaddr, length)
  }

  function Elements<E>(list: seq<E>, head: E -> Element): (r: seq<Element>)
    ensures |r| == |list| && forall i :: 0 <= i < |list| ==> r[i] == head(list[i])
  {
    seq(|list|, i requires 0 <= i < |list| => head(list[i]))
  }

  /** `uip_ds6_list_loop`, for any table whose elements begin with an `Element`. */
  method ListLoop<E>(list: array<E>, head: E -> Element, ipaddr: Addr, length: nat) returns (r: Search, out: nat)
    requires length <= 128
    ensures IsOutcome(Elements(list[..], head), ipaddr, length, r, out)
  {
    ghost var es := Elements(list[..], head);
    var free: Option<nat> := None;
    var i := 0;
    while i < list.Length
      invariant 0 <= i <= list.Length
      invariant forall j :: 0 <= j < i ==> !Hit(es[j], ipaddr, length)
      invariant free.None? ==> forall j :: 0 <= j < i ==> es[j].isUsed
      invariant free.Some? ==> free.value < i && !es[free.value].isUsed && forall j :: free.value < j < i ==> es[j].isUsed
    {
      var element := head(list[i]);
      assert element == es[i];
      if element.isUsed {
        if PrefixCmp(element.ipaddr, ipaddr, length) {
          return Found, i;
        }
      } else {
        free := Some(i);
      }
      i := i + 1;
    }
    if free.Some? {
      r, out := FreeSpace, free.value;
    } else {
      r, out := NoSpace, 0;
    }
  }

  // ---------- The two tables ----------

  function HeadOf(s: AddrSlot): Element {
    Element(s.isUsed, s.ipaddr)
  }

  /** `uip_create_solicited_node` */
  function SolicitedNode(a: Addr): Addr {
    [0xff, 0x02, 0, 0, 0, 0, 0, 0, 0, 0, 0, 0x01, 0xff, a[13], a[14], a[15]]
  }

  /** Two addresses have the same group exactly if their last 24 bits agree (section 2.7.1 of RFC 4291). */
  lemma SameGroup(a: Addr, b: Addr)
    ensures SolicitedNode(a) == SolicitedNode(b) <==> a[13..] == b[13..]
    ensures Multicast(SolicitedNode(a)) && SolicitedNode(a)[13..] == a[13..]
  {
    var g, h := SolicitedNode(a), SolicitedNode(b);
    assert g[13..] == a[13..] && h[13..] == b[13..];
    if a[13..] == b[13..] {
      assert a[13] == a[13..][0] == b[13] && a[14] == a[13..][1] == b[14] && a[15] == a[13..][2] == b[15];
      assert g == h;
    }
  }

  const ALL_NODES: Addr := [0xff, 0x02, 0, 0, 0, 0, 0, 0, 0, 0, 0, 0, 0, 0, 0, 0x01]

  function Heads(list: seq<AddrSlot>): seq<Element> {
    Elements(list, HeadOf)
  }

  function Self(e: Element): Element {
    e
  }

  /** No two used slots hold the same address. */
  predicate Distinct(list: seq<Element>) {
    forall i, j :: 0 <= i < j < |list| && list[i].isUsed && list[j].isUsed ==> list[i].ipaddr != list[j].ipaddr
  }

  predicate Holds(list: seq<Element>, a: Addr) {
    exists i :: 0 <= i < |list| && list[i].isUsed && list[i].ipaddr == a
  }

  /** The address is the solicited-node address of a used unicast address. */
  predicate Solicits(list: seq<Element>, m: Addr) {
    exists i :: 0 <= i < |list| && list[i].isUsed && SolicitedNode(list[i].ipaddr) == m
  }

  /** Unicast and multicast addresses are unique, and no multicast address is without a reason. */
  predicate TablesValid(addrs: seq<Element>, maddrs: seq<Element>) {
    && Distinct(addrs) && Distinct(maddrs) && |maddrs| >= 1 + |addrs| > 1
    && forall i :: 0 <= i < |maddrs| && maddrs[i].isUsed ==> maddrs[i].ipaddr == ALL_NODES || Solicits(addrs, maddrs[i].ipaddr)
  }

  /** Every used unicast address has its solicited-node group. */
  predicate Covered(addrs: seq<Element>, maddrs: seq<Element>) {
    forall i :: 0 <= i < |addrs| && addrs[i].isUsed ==> Holds(maddrs, SolicitedNode(addrs[i].ipaddr))
  }

  // ---------- The multicast table never overflows ----------

  function Addresses(list: seq<Element>): set<Addr> {
    set i | 0 <= i < |list| && list[i].isUsed :: list[i].ipaddr
  }

  function UsedCount(list: seq<Element>): nat {
    if list == [] then 0 else UsedCount(list[..|list| - 1]) + if list[|list| - 1].isUsed then 1 else 0
  }

  /** Without duplicates, as many slots are used as there are addresses. */
  lemma {:induction false} CountIsCardinality(list: seq<Element>)
    requires Distinct(list)
    ensures UsedCount(list) == |Addresses(list)|
  {
    if list != [] {
      var front := list[..|list| - 1];
      CountIsCardinality(front);
      AddressesOfLast(list);
    }
  }

  lemma AddressesOfLast(list: seq<Element>)
    requires list != [] && Distinct(list)
    ensures var last := list[|list| - 1];
      var front := list[..|list| - 1];
      if last.isUsed then Addresses(list) == Addresses(front) + {last.ipaddr} && last.ipaddr !in Addresses(front)
      else Addresses(list) == Addresses(front)
  {
    var n := |list| - 1;
    var front := list[..n];
    assert forall i :: 0 <= i < n ==> front[i] == list[i];
    forall a ensures a in Addresses(list) <==> a in Addresses(front) || (list[n].isUsed && a == list[n].ipaddr) {
      if a in Addresses(list) {
        var i :| 0 <= i < |list| && list[i].isUsed && list[i].ipaddr == a;
        assert i < n ==> front[i].ipaddr == a;
      }
      if a in Addresses(front) {
        var i :| 0 <= i < |front| && front[i].isUsed && front[i].ipaddr == a;
        assert list[i].ipaddr == a;
      }
    }
  }

  lemma {:induction false} CountAtMost(list: seq<Element>)
    ensures UsedCount(list) <= |list|
    ensures UsedCount(list) == |list| <==> forall i :: 0 <= i < |list| ==> list[i].isUsed
  {
    if list != [] {
      CountAtMost(list[..|list| - 1]);
    }
  }

  /** The solicited-node groups of these addresses. */
  function Groups(s: set<Addr>): set<Addr> {
    set a | a in s :: SolicitedNode(a)
  }

  lemma {:induction false} NoMoreGroupsThanAddresses(s: set<Addr>)
    ensures |Groups(s)| <= |s|
    decreases |s|
  {
    hide SolicitedNode;
    if s != {} {
      var a :| a in s;
      var rest := s - {a};
      NoMoreGroupsThanAddresses(rest);
      assert Groups(s) == Groups(rest) + {SolicitedNode(a)};
    } else {
      assert Groups(s) == {};
    }
  }

  lemma MulticastHasReason(addrs: seq<Element>, maddrs: seq<Element>)
    requires TablesValid(addrs, maddrs)
    ensures Addresses(maddrs) <= Groups(Addresses(addrs)) + {ALL_NODES}
  {
    hide SolicitedNode;
    forall m | m in Addresses(maddrs) && m != ALL_NODES
      ensures exists a :: a in Addresses(addrs) && SolicitedNode(a) == m
    {
      var i :| 0 <= i < |maddrs| && maddrs[i].isUsed && maddrs[i].ipaddr == m;
      var j :| 0 <= j < |addrs| && addrs[j].isUsed && SolicitedNode(addrs[j].ipaddr) == m;
      assert addrs[j].ipaddr in Addresses(addrs);
    }
  }

  /** At most one multicast address per used unicast address, and all-nodes. */
  lemma MulticastIsBounded(addrs: seq<Element>, maddrs: seq<Element>)
    requires TablesValid(addrs, maddrs)
    ensures UsedCount(maddrs) <= 1 + UsedCount(addrs)
  {
    CountIsCardinality(addrs);
    CountIsCardinality(maddrs);
    MulticastHasReason(addrs, maddrs);
    hide *;
    var groups := Groups(Addresses(addrs));
    NoMoreGroupsThanAddresses(Addresses(addrs));
    SubsetSize(Addresses(maddrs), groups + {ALL_NODES});
  }

  /** As long as a unicast slot is free, so is a multicast slot. */
  lemma RoomForSolicitedNode(addrs: seq<Element>, maddrs: seq<Element>, i: nat)
    requires TablesValid(addrs, maddrs) && i < |addrs| && !addrs[i].isUsed
    ensures exists j :: 0 <= j < |maddrs| && !maddrs[j].isUsed
  {
    MulticastIsBounded(addrs, maddrs);
    CountAtMost(addrs);
    CountAtMost(maddrs);
  }

  // ---------- What the operations do to the tables ----------

  lemma AddingKeepsValid(addrs: seq<Element>, maddrs: seq<Element>, i: nat, a: Addr)
    requires TablesValid(addrs, maddrs) && i < |addrs| && !addrs[i].isUsed && !Holds(addrs, a)
    ensures TablesValid(addrs[i := Element(true, a)], maddrs)
    ensures Solicits(addrs[i := Element(true, a)], SolicitedNode(a))
  {
    hide SolicitedNode, Holds;
    var addrs' := addrs[i := Element(true, a)];
    assert addrs'[i] == Element(true, a);
    forall m | Solicits(addrs, m) ensures Solicits(addrs', m) {
      var j :| 0 <= j < |addrs| && addrs[j].isUsed && SolicitedNode(addrs[j].ipaddr) == m;
      assert addrs'[j] == addrs[j];
    }
    assert Distinct(addrs') by { NewIsDistinct(addrs, i, a); }
  }

  lemma AddingKeepsCovered(addrs: seq<Element>, maddrs: seq<Element>, i: nat, a: Addr)
    requires i < |addrs| && Holds(maddrs, SolicitedNode(a))
    ensures Covered(addrs, maddrs) ==> Covered(addrs[i := Element(true, a)], maddrs)
  {
    hide SolicitedNode, Holds;
  }

  lemma NewIsDistinct(list: seq<Element>, i: nat, a: Addr)
    requires Distinct(list) && i < |list| && !Holds(list, a)
    ensures Distinct(list[i := Element(true, a)])
  {
  }

  /** The new group takes a free slot of the multicast table, or is there already. */
  lemma JoiningKeepsValid(addrs: seq<Element>, maddrs: seq<Element>, i: nat, m: Addr)
    requires TablesValid(addrs, maddrs) && i < |maddrs| && !maddrs[i].isUsed && !Holds(maddrs, m)
    requires m == ALL_NODES || Solicits(addrs, m)
    ensures TablesValid(addrs, maddrs[i := Element(true, m)])
    ensures forall n :: Holds(maddrs[i := Element(true, m)], n) <==> Holds(maddrs, n) || n == m
  {
    hide SolicitedNode, Solicits;
    var maddrs' := maddrs[i := Element(true, m)];
    NewIsDistinct(maddrs, i, m);
    forall n ensures Holds(maddrs', n) <==> Holds(maddrs, n) || n == m {
      assert maddrs'[i] == Element(true, m);
      if Holds(maddrs, n) {
        var j :| 0 <= j < |maddrs| && maddrs[j].isUsed && maddrs[j].ipaddr == n;
        assert maddrs'[j] == maddrs[j];
      }
    }
  }

  /** The slot after `uip_ds6_maddr_rm` of this address. */
  function Without(e: Element, a: Addr): Element {
    if e.isUsed && e.ipaddr == a then e.(isUsed := false) else e
  }

  /**
   * Removing an address together with its solicited-node group keeps the tables valid, and every
   * other address keeps its own group exactly when none of them shared the group removed.
   */
  lemma RemovalKeepsValid(addrs: seq<Element>, maddrs: seq<Element>, i: nat, maddrs': seq<Element>)
    requires TablesValid(addrs, maddrs) && i < |addrs| && addrs[i].isUsed && |maddrs'| == |maddrs|
    requires forall j :: 0 <= j < |maddrs| ==> maddrs'[j] == Without(maddrs[j], SolicitedNode(addrs[i].ipaddr))
    ensures TablesValid(addrs[i := addrs[i].(isUsed := false)], maddrs')
    ensures Covered(addrs, maddrs) ==>
      (Covered(addrs[i := addrs[i].(isUsed := false)], maddrs') <==> !Shares(addrs, i))
  {
    hide SolicitedNode;
    var addrs' := addrs[i := addrs[i].(isUsed := false)];
    forall k | 0 <= k < |maddrs'| && maddrs'[k].isUsed
      ensures maddrs'[k].ipaddr == ALL_NODES || Solicits(addrs', maddrs'[k].ipaddr)
    {
      if maddrs[k].ipaddr != ALL_NODES {
        var j :| 0 <= j < |addrs| && addrs[j].isUsed && SolicitedNode(addrs[j].ipaddr) == maddrs[k].ipaddr;
        assert j != i && addrs'[j] == addrs[j];
      }
    }
    if Covered(addrs, maddrs) {
      forall j | 0 <= j < |addrs| && j != i && addrs[j].isUsed
        ensures Holds(maddrs', SolicitedNode(addrs[j].ipaddr)) <==>
                SolicitedNode(addrs[j].ipaddr) != SolicitedNode(addrs[i].ipaddr)
      {
        var k :| 0 <= k < |maddrs| && maddrs[k].isUsed && maddrs[k].ipaddr == SolicitedNode(addrs[j].ipaddr);
        assert maddrs'[k].ipaddr == maddrs[k].ipaddr;
      }
      assert forall j :: 0 <= j < |addrs'| && addrs'[j].isUsed ==> j != i && addrs'[j] == addrs[j];
    }
  }

  // ---------- The interface ----------

  /** `uip_ds6_dad` on one slot: another solicitation, or the address is preferred. */
  function DadStep(s: AddrSlot, maxDadNs: nat, now: nat, retrans: nat): AddrSlot {
    if s.dadNsCount < maxDadNs then s.(dadNsCount := s.dadNsCount + 1, dadAt := now + retrans)
    else s.(state := Preferred)
  }

  predicate Lapsed(s: AddrSlot, now: nat) {
    s.isUsed && !s.isInfinite && now >= s.validUntil
  }

  predicate DadDue(s: AddrSlot, maxDadNs: nat, now: nat) {
    s.isUsed && !Lapsed(s, now) && s.state == Tentative && s.dadNsCount <= maxDadNs && now >= s.dadAt
  }

  /** What the periodic scan does to a slot it visits once. */
  function Visited(s: AddrSlot, maxDadNs: nat, now: nat, retrans: nat): AddrSlot {
    if Lapsed(s, now) then s.(isUsed := false)
    else if DadDue(s, maxDadNs, now) then DadStep(s, maxDadNs, now, retrans)
    else s
  }

  /** The solicitations of one scan, in the order of the slots. */
  function Solicitations(list: seq<AddrSlot>, maxDadNs: nat, now: nat): seq<Addr> {
    if list == [] then []
    else
      var s := list[|list| - 1];
      Solicitations(list[..|list| - 1], maxDadNs, now) +
      if DadDue(s, maxDadNs, now) && s.dadNsCount < maxDadNs then [s.ipaddr] else []
  }

  class Interface {
    const addrList: array<AddrSlot>
    const maddrList: array<Element>
    const maxDadNs: nat
    const retrans: nat
    /** The file's cursors `locaddr` and `locmaddr`, as slot numbers. */
    var locAddr: nat
    var locMaddr: nat

    ghost predicate Valid()
      reads addrList, maddrList
    {
      TablesValid(Heads(addrList[..]), maddrList[..])
    }

    constructor (addrNb: nat, maddrNb: nat, maxDadNs: nat, retrans: nat)
      requires maddrNb >= 1 + addrNb > 1
      ensures fresh(addrList) && fresh(maddrList) && addrList.Length == addrNb && maddrList.Length == maddrNb
      ensures this.maxDadNs == maxDadNs && this.retrans == retrans
      ensures Valid() && Addresses(Heads(addrList[..])) == {} && Addresses(maddrList[..]) == {}
    {
      addrList := new AddrSlot[addrNb](_ => AddrSlot(false, UNSPECIFIED, Tentative, false, 0, 0, 0));
      maddrList := new Element[maddrNb](_ => Element(false, UNSPECIFIED));
      this.maxDadNs, this.retrans := maxDadNs, retrans;
      locAddr, locMaddr := 0, 0;
    }

    /** `uip_ds6_addr_lookup`, which leaves its result in the shared cursor. */
    method AddrLookup(ipaddr: Addr) returns (found: bool)
      modifies this`locAddr
      ensures found <==> Holds(Heads(addrList[..]), ipaddr)
      ensures found ==> locAddr < addrList.Length && addrList[locAddr].isUsed && addrList[locAddr].ipaddr == ipaddr
    {
      var r;
      r, locAddr := ListLoop(addrList, HeadOf, ipaddr, 128);
      FullPrefix(Heads(addrList[..]), ipaddr, r, locAddr);
      found := r == Found;
    }

    /** `uip_ds6_maddr_add` */
    method MaddrAdd(ipaddr: Addr) returns (ok: bool)
      modifies this`locMaddr, maddrList
      ensures ok ==> exists i :: 0 <= i < maddrList.Length && !old(maddrList[i].isUsed)
                         && maddrList[..] == old(maddrList[..])[i := Element(true, ipaddr)] && !Holds(old(maddrList[..]), ipaddr)
      ensures !ok ==> maddrList[..] == old(maddrList[..])
                      && (Holds(maddrList[..], ipaddr) || forall i :: 0 <= i < maddrList.Length ==> maddrList[i].isUsed)
    {
      var r;
      r, locMaddr := ListLoop(maddrList, Self, ipaddr, 128);
      assert Elements(maddrList[..], Self) == maddrList[..];
      FullPrefix(maddrList[..], ipaddr, r, locMaddr);
      ok := r == FreeSpace;
      if ok {
        maddrList[locMaddr] := Element(true, ipaddr);
      }
    }

    /** `uip_ds6_maddr_lookup` and `uip_ds6_maddr_rm` of what it finds. */
    method MaddrDrop(ipaddr: Addr)
      requires Distinct(maddrList[..])
      modifies this`locMaddr, maddrList
      ensures forall j :: 0 <= j < maddrList.Length ==> maddrList[j] == Without(old(maddrList[j]), ipaddr)
    {
      var r;
      r, locMaddr := ListLoop(maddrList, Self, ipaddr, 128);
      assert Elements(maddrList[..], Self) == maddrList[..];
      FullPrefix(maddrList[..], ipaddr, r, locMaddr);
      if r == Found {
        assert forall j :: 0 <= j < maddrList.Length ==> maddrList[j] == maddrList[..][j];
        maddrList[locMaddr] := maddrList[locMaddr].(isUsed := false);
      }
    }

    /**
     * `uip_ds6_addr_add`: a new address takes a free slot and joins its solicited-node group; the
     * multicast table always has room for that.
     */
    method AddrAdd(ipaddr: Addr, validUntil: Option<nat>, dadAt: nat) returns (ok: bool)
      requires Valid()
      modifies this`locAddr, this`locMaddr, addrList, maddrList
      ensures Valid()
      ensures ok <==> !old(Holds(Heads(addrList[..]), ipaddr)) && exists i :: 0 <= i < addrList.Length && !old(addrList[i].isUsed)
      ensures ok ==> locAddr < addrList.Length && !old(addrList[..])[locAddr].isUsed
      ensures ok ==> addrList[..] == old(addrList[..])[locAddr := NewSlot(ipaddr, validUntil, dadAt)]
      ensures ok ==> forall m :: Holds(maddrList[..], m) <==> old(Holds(maddrList[..], m)) || m == SolicitedNode(ipaddr)
      ensures !ok ==> addrList[..] == old(addrList[..]) && maddrList[..] == old(maddrList[..])
      ensures old(Covered(Heads(addrList[..]), maddrList[..])) ==> Covered(Heads(addrList[..]), maddrList[..])
    {
      hide SolicitedNode, Covered, TablesValid, Holds;
      ghost var addrs := addrList[..];
      ghost var maddrs := maddrList[..];
      var r;
      r, locAddr := ListLoop(addrList, HeadOf, ipaddr, 128);
      FullPrefix(Heads(addrs), ipaddr, r, locAddr);
      ok := r == FreeSpace;
      if ok {
        assert !addrs[locAddr].isUsed;
        RoomForSolicitedNode(Heads(addrs), maddrs, locAddr);
        addrList[locAddr] := AddrSlot(true, ipaddr, Tentative, validUntil.None?,
                                      if validUntil.None? then 0 else validUntil.value, dadAt, 0);
        AddingKeepsValid(Heads(addrs), maddrs, locAddr, ipaddr);
        assert Heads(addrList[..]) == Heads(addrs)[locAddr := Element(true, ipaddr)];
        JoinGroup(ipaddr);
        CoveredGrows(Heads(addrs), maddrs, maddrList[..]);
        AddingKeepsCovered(Heads(addrs), maddrList[..], locAddr, ipaddr);
      } else {
        assert forall i :: 0 <= i < addrList.Length ==> Heads(addrs)[i].isUsed == addrs[i].isUsed;
      }
    }

    /** `uip_ds6_init`: empty tables, the link-local address, its group and all-nodes. */
    method Init(linkLocal: Addr, dadAt: nat)
      requires addrList.Length >= 1 && maddrList.Length >= 1 + addrList.Length
      modifies this`locAddr, this`locMaddr, addrList, maddrList
      ensures Valid() && Covered(Heads(addrList[..]), maddrList[..]) && Holds(maddrList[..], ALL_NODES)
      ensures forall i :: 0 <= i < addrList.Length && addrList[i].isUsed ==> addrList[i] == NewSlot(linkLocal, None, dadAt)
      ensures forall m :: Holds(maddrList[..], m) <==> m == ALL_NODES || m == SolicitedNode(linkLocal)
    {
      hide SolicitedNode;
      forall i | 0 <= i < addrList.Length {
        addrList[i] := addrList[i].(isUsed := false);
      }
      forall i | 0 <= i < maddrList.Length {
        maddrList[i] := maddrList[i].(isUsed := false);
      }
      assert Covered(Heads(addrList[..]), maddrList[..]);
      assert !addrList[0].isUsed;
      var ok := AddrAdd(linkLocal, None, dadAt);
      NotAllNodes(linkLocal);
      OnlyOneUsed(maddrList[..], SolicitedNode(linkLocal));
      JoinAllNodes();
    }

    method JoinAllNodes()
      requires Valid() && !Holds(maddrList[..], ALL_NODES)
      requires exists j :: 0 <= j < maddrList.Length && !maddrList[j].isUsed
      modifies this`locMaddr, maddrList
      ensures Valid() && forall m :: Holds(maddrList[..], m) <==> old(Holds(maddrList[..], m)) || m == ALL_NODES
      ensures old(Covered(Heads(addrList[..]), maddrList[..])) ==> Covered(Heads(addrList[..]), maddrList[..])
    {
      hide SolicitedNode, Solicits, TablesValid, Holds;
      ghost var maddrs := maddrList[..];
      var added := MaddrAdd(ALL_NODES);
      assert added;
      ghost var j :| 0 <= j < |maddrs| && !maddrs[j].isUsed && maddrList[..] == maddrs[j := Element(true, ALL_NODES)];
      JoiningKeepsValid(Heads(addrList[..]), maddrs, j, ALL_NODES);
      CoveredGrows(Heads(addrList[..]), maddrs, maddrList[..]);
    }

    /** The group of an address that is already in the list. */
    method JoinGroup(ipaddr: Addr)
      requires Valid() && Solicits(Heads(addrList[..]), SolicitedNode(ipaddr))
      requires exists j :: 0 <= j < maddrList.Length && !maddrList[..][j].isUsed
      modifies this`locMaddr, maddrList
      ensures Valid()
      ensures forall m :: Holds(maddrList[..], m) <==> old(Holds(maddrList[..], m)) || m == SolicitedNode(ipaddr)
    {
      hide SolicitedNode, Solicits, TablesValid, Holds;
      ghost var maddrs := maddrList[..];
      var added := MaddrAdd(SolicitedNode(ipaddr));
      if added {
        ghost var j :| 0 <= j < |maddrs| && !maddrs[j].isUsed
                       && maddrList[..] == maddrs[j := Element(true, SolicitedNode(ipaddr))];
        JoiningKeepsValid(Heads(addrList[..]), maddrs, j, SolicitedNode(ipaddr));
      }
    }

    /**
     * `uip_ds6_addr_rm`: the address goes, and with it its solicited-node group, even if another
     * address needs that group too.
     */
    method AddrRm(i: nat)
      requires Valid() && i < addrList.Length && addrList[i].isUsed
      modifies this`locMaddr, addrList, maddrList
      ensures Valid()
      ensures addrList[..] == old(addrList[..])[i := old(addrList[i]).(isUsed := false)]
      ensures forall j :: 0 <= j < maddrList.Length ==>
        maddrList[j] == Without(old(maddrList[j]), SolicitedNode(old(addrList[i].ipaddr)))
      ensures old(Covered(Heads(addrList[..]), maddrList[..])) ==>
        (Covered(Heads(addrList[..]), maddrList[..]) <==> !Shares(old(Heads(addrList[..])), i))
      ensures old(Holds(maddrList[..], ALL_NODES)) ==> Holds(maddrList[..], ALL_NODES)
    {
      AllNodesStays(maddrList[..], addrList[i].ipaddr);
      hide SolicitedNode, Covered, Holds, Shares;
      ghost var addrs := addrList[..];
      ghost var maddrs := maddrList[..];
      assert Distinct(maddrs);
      MaddrDrop(SolicitedNode(addrList[i].ipaddr));
      addrList[i] := addrList[i].(isUsed := false);
      hide TablesValid;
      RemovalKeepsValid(Heads(addrs), maddrs, i, maddrList[..]);
      assert Heads(addrList[..]) == Heads(addrs)[i := Heads(addrs)[i].(isUsed := false)];
    }

    /** `uip_ds6_dad_failed`: another node has the address; a link-local one is kept all the same. */
    method DadFailed(i: nat) returns (ok: bool)
      requires Valid() && i < addrList.Length && addrList[i].isUsed
      modifies this`locMaddr, addrList, maddrList
      ensures Valid() && (ok <==> !LinkLocal(old(addrList[i].ipaddr)))
      ensures addrList[..] == if ok then old(addrList[..])[i := old(addrList[i]).(isUsed := false)] else old(addrList[..])
      ensures !ok ==> maddrList[..] == old(maddrList[..])
    {
      if LinkLocal(addrList[i].ipaddr) {
        return false;
      }
      AddrRm(i);
      ok := true;
    }

    /** `uip_nd6_ns_output` as far as the tables go: is the target an address of ours? */
    method NsOutput(tgt: Addr) returns (mine: bool)
      modifies this`locAddr
      ensures mine <==> Holds(Heads(addrList[..]), tgt)
      ensures mine ==> locAddr < addrList.Length && addrList[locAddr].isUsed && addrList[locAddr].ipaddr == tgt
    {
      mine := AddrLookup(tgt);
    }

    /** `uip_ds6_dad`: because addresses are unique, the cursor comes back to the slot it was at. */
    method Dad(i: nat, now: nat) returns (sent: bool)
      requires Valid() && i < addrList.Length && addrList[i].isUsed && locAddr == i
      modifies this`locAddr, addrList
      ensures Valid() && locAddr == i
      ensures addrList[..] == old(addrList[..])[i := DadStep(old(addrList[i]), maxDadNs, now, retrans)]
      ensures sent <==> old(addrList[i].dadNsCount) < maxDadNs
    {
      hide SolicitedNode;
      ghost var addrs := addrList[..];
      sent := addrList[i].dadNsCount < maxDadNs;
      if sent {
        var mine := NsOutput(addrList[i].ipaddr);
        assert Heads(addrs)[i] == Element(true, addrs[i].ipaddr);
        assert Heads(addrs)[locAddr] == Element(true, addrs[i].ipaddr);
        addrList[i] := addrList[i].(dadNsCount := addrList[i].dadNsCount + 1);
        addrList[i] := addrList[i].(dadAt := now + retrans);
      } else {
        addrList[i] := addrList[i].(state := Preferred);
      }
      assert Heads(addrList[..]) == Heads(addrs);
    }

    /** The address part of `uip_ds6_periodic`: every slot is visited exactly once, in order. */
    method Periodic(now: nat) returns (sent: seq<Addr>)
      requires Valid()
      modifies this`locAddr, this`locMaddr, addrList, maddrList
      ensures Valid()
      ensures forall i :: 0 <= i < addrList.Length ==> addrList[i] == Visited(old(addrList[i]), maxDadNs, now, retrans)
      ensures sent == Solicitations(old(addrList[..]), maxDadNs, now)
    {
      hide Solicitations, Valid, Visited, DadStep;
      ghost var addrs := addrList[..];
      sent := [];
      NoSolicitations(addrs, maxDadNs, now);
      locAddr := 0;
      while locAddr < addrList.Length
        invariant Valid() && locAddr <= addrList.Length
        invariant forall i :: 0 <= i < locAddr ==> addrList[i] == Visited(addrs[i], maxDadNs, now, retrans)
        invariant forall i :: locAddr <= i < addrList.Length ==> addrList[i] == addrs[i]
        invariant sent == Solicitations(addrs[..locAddr], maxDadNs, now)
        decreases addrList.Length - locAddr
      {
        ghost var i := locAddr;
        OneMore(addrs, i, maxDadNs, now, retrans);
        if addrList[locAddr].isUsed {
          if !addrList[locAddr].isInfinite && now >= addrList[locAddr].validUntil {
            AddrRm(locAddr);
          } else if addrList[locAddr].state == Tentative && addrList[locAddr].dadNsCount <= maxDadNs
                    && now >= addrList[locAddr].dadAt {
            var tgt := addrList[locAddr].ipaddr;
            var ns := Dad(locAddr, now);
            sent := if ns then sent + [tgt] else sent;
          }
        }
        locAddr := locAddr + 1;
      }
      assert addrs[..locAddr] == addrs;
    }
  }

  lemma OnlyOneUsed(maddrs: seq<Element>, m: Addr)
    requires Distinct(maddrs) && |maddrs| >= 2 && forall n :: Holds(maddrs, n) <==> n == m
    ensures exists j :: 0 <= j < |maddrs| && !maddrs[j].isUsed
  {
    if maddrs[0].isUsed && maddrs[1].isUsed {
      assert Holds(maddrs, maddrs[0].ipaddr) && Holds(maddrs, maddrs[1].ipaddr);
    }
  }

  lemma NotAllNodes(a: Addr)
    ensures SolicitedNode(a) != ALL_NODES
  {
    assert SolicitedNode(a)[12] != ALL_NODES[12];
  }

  /** All-nodes is nobody's solicited-node group, so removing an address never leaves it. */
  lemma AllNodesStays(maddrs: seq<Element>, a: Addr)
    ensures forall maddrs': seq<Element> ::
      |maddrs'| == |maddrs| && (forall j :: 0 <= j < |maddrs| ==> maddrs'[j] == Without(maddrs[j], SolicitedNode(a))) ==>
      (Holds(maddrs, ALL_NODES) <==> Holds(maddrs', ALL_NODES))
  {
    assert SolicitedNode(a)[12] != ALL_NODES[12];
  }

  /** Another used address has the same solicited-node group. */
  predicate Shares(addrs: seq<Element>, i: nat)
    requires i < |addrs|
  {
    exists j :: 0 <= j < |addrs| && j != i && addrs[j].isUsed && SolicitedNode(addrs[j].ipaddr) == SolicitedNode(addrs[i].ipaddr)
  }

  lemma NoSolicitations(list: seq<AddrSlot>, maxDadNs: nat, now: nat)
    ensures Solicitations(list[..0], maxDadNs, now) == []
  {
  }

  lemma OneMore(list: seq<AddrSlot>, i: nat, maxDadNs: nat, now: nat, retrans: nat)
    requires i < |list|
    ensures Solicitations(list[..i + 1], maxDadNs, now) ==
            Solicitations(list[..i], maxDadNs, now) +
            (if DadDue(list[i], maxDadNs, now) && list[i].dadNsCount < maxDadNs then [list[i].ipaddr] else [])
    ensures Visited(list[i], maxDadNs, now, retrans) ==
            if Lapsed(list[i], now) then list[i].(isUsed := false)
            else if DadDue(list[i], maxDadNs, now) then DadStep(list[i], maxDadNs, now, retrans)
            else list[i]
  {
    assert list[..i + 1][..i] == list[..i];
  }

  function NewSlot(ipaddr: Addr, validUntil: Option<nat>, dadAt: nat): AddrSlot {
    AddrSlot(true, ipaddr, Tentative, validUntil.None?, if validUntil.None? then 0 else validUntil.value, dadAt, 0)
  }

  lemma CoveredGrows(addrs: seq<Element>, maddrs: seq<Element>, maddrs': seq<Element>)
    requires forall m :: Holds(maddrs, m) ==> Holds(maddrs', m)
    ensures Covered(addrs, maddrs) ==> Covered(addrs, maddrs')
  {
    hide Holds, SolicitedNode;
  }

  /** With all 128 bits compared, the search looks for the address itself. */
  lemma FullPrefix(list: seq<Element>, a: Addr, r: Search, out: nat)
    requires IsOutcome(list, a, 128, r, out)
    ensures r == Found <==> Holds(list, a)
    ensures r == Found ==> out < |list| && list[out].isUsed && list[out].ipaddr == a
    ensures r == FreeSpace ==> out < |list| && !list[out].isUsed
    ensures r == NoSpace ==> forall i :: 0 <= i < |list| ==> list[i].isUsed
  {
    forall i | 0 <= i < |list| ensures Hit(list[i], a, 128) <==> list[i].isUsed && list[i].ipaddr == a {
      assert list[i].ipaddr[..16] == list[i].ipaddr && a[..16] == a;
    }
  }
}
