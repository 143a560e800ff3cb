/**
 * IPv6 addresses and how well two of them match: the bit loop, the source address selection and the
 * route lookup of src/net/uip-ds6.c.
 */
module Ip6Match {
  import opened Octets

  type Addr = a: seq<bv8> | |a| == 16 witness seq(16, _ => 0)

  const UNSPECIFIED: Addr := seq(16, _ => 0)

  predicate LinkLocal(a: Addr) {
    a[0] == 0xfe && a[1] == 0x80
  }

  predicate Multicast(a: Addr) {
    a[0] == 0xff
  }

  // ---------- Bits ----------

  /** Bit `k` of a byte, the most significant one being bit zero. */
  predicate Bit(b: bv8, k: nat)
    decreases k
  {
    if k == 0 then b & 0x80 != 0 else Bit(b << 1, k - 1)
  }

  predicate SameBit(a: Addr, b: Addr, i: nat)
    requires i < 128
  {
    Bit(a[i / 8], i % 8) == Bit(b[i / 8], i % 8)
  }

  /** The first bit from `i` on in which the addresses differ. */
  function FirstDifference(a: Addr, b: Addr, i: nat): (n: nat)
    requires i <= 128
    ensures i <= n <= 128 && (n < 128 ==> !SameBit(a, b, n))
    ensures forall j :: i <= j < n ==> SameBit(a, b, j)
    decreases 128 - i
  {
    if i == 128 || !SameBit(a, b, i) then i else FirstDifference(a, b, i + 1)
  }

  /** How many leading bits two addresses have in common. */
  function MatchLength(a: Addr, b: Addr): nat {
    FirstDifference(a, b, 0)
  }

  lemma MatchLengthIs(a: Addr, b: Addr, n: nat)
    requires n <= 128 && (n < 128 ==> !SameBit(a, b, n))
    requires forall j :: 0 <= j < n ==> SameBit(a, b, j)
    ensures MatchLength(a, b) == n
  {
  }

  lemma {:induction false} XorBit(x: bv8, y: bv8, k: nat)
    ensures Bit(x ^ y, k) <==> Bit(x, k) != Bit(y, k)
    decreases k
  {
    if k == 0 {
      TopBit(x, y);
    } else {
      assert (x ^ y) << 1 == (x << 1) ^ (y << 1);
      XorBit(x << 1, y << 1, k - 1);
    }
  }

  lemma TopBit(x: bv8, y: bv8)
    ensures (x ^ y) & 0x80 != 0 <==> ((x & 0x80 != 0) != (y & 0x80 != 0))
  {
  }

  /** A byte other than zero has one of its eight bits set. */
  lemma SomeBit(x: bv8) returns (k: nat)
    requires x != 0
    ensures k < 8 && Bit(x, k)
  {
    var x1 := x << 1;
    var x2 := x1 << 1;
    var x3 := x2 << 1;
    var x4 := x3 << 1;
    var x5 := x4 << 1;
    var x6 := x5 << 1;
    var x7 := x6 << 1;
    k := if x & 0x80 != 0 then 0 else if x1 & 0x80 != 0 then 1 else if x2 & 0x80 != 0 then 2
         else if x3 & 0x80 != 0 then 3 else if x4 & 0x80 != 0 then 4 else if x5 & 0x80 != 0 then 5
         else if x6 & 0x80 != 0 then 6 else 7;
    assert x7 & 0x80 != 0 || k < 7;
    assert k < 1 || Bit(x1, k - 1) == Bit(x, k);
    assert k < 2 || Bit(x2, k - 2) == Bit(x, k);
    assert k < 3 || Bit(x3, k - 3) == Bit(x, k);
    assert k < 4 || Bit(x4, k - 4) == Bit(x, k);
    assert k < 5 || Bit(x5, k - 5) == Bit(x, k);
    assert k < 6 || Bit(x6, k - 6) == Bit(x, k);
    assert k < 7 || Bit(x7, k - 7) == Bit(x, k);
  }

  /** Two different bytes differ in one of their eight bits. */
  lemma SomeBitDiffers(x: bv8, y: bv8) returns (k: nat)
    requires x != y
    ensures k < 8 && Bit(x, k) != Bit(y, k)
  {
    assert x ^ y != 0;
    k := SomeBit(x ^ y);
    XorBit(x, y, k);
  }

  /** `get_match_length` */
  method GetMatchLength(src: Addr, dst: Addr) returns (len: nat)
    ensures len == MatchLength(src, dst)
  {
    len := 0;
    var j := 0;
    while j < 16
      invariant 0 <= j <= 16 && len == 8 * j
      invariant forall i :: 0 <= i < 8 * j ==> SameBit(src, dst, i)
    {
      if src[j] == dst[j] {
        len := len + 8;
      } else {
        var xor := src[j] ^ dst[j];
        var k := MatchingBits(xor);
        len := len + k;
        FirstBitOfXor(src, dst, j, k, xor);
        return;
      }
      j := j + 1;
    }
    MatchLengthIs(src, dst, 128);
  }

  /** The inner loop: zero bits at the front of a byte. */
  method MatchingBits(x: bv8) returns (len: nat)
    requires x != 0
    ensures len < 8 && Bit(x, len) && forall j :: 0 <= j < len ==> !Bit(x, j)
  {
    var xor := x;
    len := 0;
    ghost var first := SomeBit(x);
    while len < 8
      invariant 0 <= len <= first
      invariant forall j :: 0 <= j < len ==> !Bit(x, j)
      invariant xor == Shifted(x, len)
    {
      hide Bit;
      BitOfShifted(x, len);
      if xor & 0x80 == 0 {
        len := len + 1;
        xor := xor << 1;
      } else {
        break;
      }
    }
  }

  /** The byte after `k` shifts. */
  function Shifted(x: bv8, k: nat): bv8 {
    if k == 0 then x else Shifted(x, k - 1) << 1
  }

  lemma {:induction false} BitOfShifted(x: bv8, k: nat)
    ensures Bit(x, k) <==> Shifted(x, k) & 0x80 != 0
    decreases k
  {
    if k > 0 {
      ShiftFirst(x, k);
      BitOfShifted(x << 1, k - 1);
    }
  }

  lemma {:induction false} ShiftFirst(x: bv8, k: nat)
    requires k > 0
    ensures Shifted(x, k) == Shifted(x << 1, k - 1)
    decreases k
  {
    if k > 1 {
      ShiftFirst(x, k - 1);
    }
  }

  lemma FirstBitOfXor(a: Addr, b: Addr, j: nat, k: nat, xor: bv8)
    requires j < 16 && xor == a[j] ^ b[j]
    requires k < 8 && Bit(xor, k) && forall i :: 0 <= i < k ==> !Bit(xor, i)
    requires forall i :: 0 <= i < 8 * j ==> SameBit(a, b, i)
    ensures MatchLength(a, b) == 8 * j + k
  {
    hide Bit;
    forall i | 8 * j <= i < 8 * j + k ensures SameBit(a, b, i) {
      assert i / 8 == j && i % 8 == i - 8 * j;
      XorBit(a[j], b[j], i - 8 * j);
    }
    assert (8 * j + k) / 8 == j && (8 * j + k) % 8 == k;
    XorBit(a[j], b[j], k);
    MatchLengthIs(a, b, 8 * j + k);
  }

  // ---------- What a match length is good for ----------

  lemma MatchIsSymmetric(a: Addr, b: Addr)
    ensures MatchLength(a, b) == MatchLength(b, a)
  {
    assert forall i :: 0 <= i < 128 ==> (SameBit(a, b, i) <==> SameBit(b, a, i));
    MatchLengthIs(b, a, MatchLength(a, b));
  }

  /** The match length is an ultrametric: it never drops below the smaller of two links of a chain. */
  lemma MatchIsUltrametric(a: Addr, b: Addr, c: Addr)
    ensures MatchLength(a, c) >= if MatchLength(a, b) <= MatchLength(b, c) then MatchLength(a, b) else MatchLength(b, c)
    ensures MatchLength(a, b) != MatchLength(b, c) ==>
      MatchLength(a, c) == if MatchLength(a, b) <= MatchLength(b, c) then MatchLength(a, b) else MatchLength(b, c)
  {
    var n := if MatchLength(a, b) <= MatchLength(b, c) then MatchLength(a, b) else MatchLength(b, c);
    var m := MatchLength(a, c);
    forall i | 0 <= i < n ensures SameBit(a, c, i) {
      assert SameBit(a, b, i) && SameBit(b, c, i);
    }
    assert m >= n;
    if MatchLength(a, b) < MatchLength(b, c) {
      assert !SameBit(a, b, n) && SameBit(b, c, n);
      assert !SameBit(a, c, n);
    } else if MatchLength(b, c) < MatchLength(a, b) {
      assert !SameBit(b, c, n) && SameBit(a, b, n);
      assert !SameBit(a, c, n);
    }
  }

  /** All bits of the first `n` bytes agree exactly when the bytes do. */
  lemma BytesMatch(a: Addr, b: Addr, n: nat)
    requires n <= 16
    ensures MatchLength(a, b) >= 8 * n <==> a[..n] == b[..n]
  {
    if a[..n] == b[..n] {
      forall i | 0 <= i < 8 * n ensures SameBit(a, b, i) {
        assert a[i / 8] == a[..n][i / 8] && b[i / 8] == b[..n][i / 8];
      }
    } else {
      var j :| 0 <= j < n && a[j] != b[j];
      var k := SomeBitDiffers(a[j], b[j]);
      assert !SameBit(a, b, 8 * j + k);
    }
  }

  lemma FullMatchIsEquality(a: Addr, b: Addr)
    ensures MatchLength(a, b) == 128 <==> a == b
  {
    BytesMatch(a, b, 16);
    assert a == a[..16] && b == b[..16];
  }

  // ---------- Prefixes ----------

  /** The prefix comparison, which looks at whole bytes only. */
  predicate PrefixCmp(a: Addr, b: Addr, length: nat)
    requires length <= 128
  {
    a[..length / 8] == b[..length / 8]
  }

  /** It is exactly a comparison of the prefix without its last, incomplete byte. */
  lemma PrefixCmpIs(a: Addr, b: Addr, length: nat)
    requires length <= 128
    ensures PrefixCmp(a, b, length) <==> MatchLength(a, b) >= 8 * (length / 8)
  {
    BytesMatch(a, b, length / 8);
  }

  /** Hence it compares prefixes of this length for all addresses exactly when they end with a byte. */
  lemma PrefixCmpIsExact(length: nat)
    requires length <= 128
    ensures (forall a: Addr, b: Addr :: PrefixCmp(a, b, length) <==> MatchLength(a, b) >= length) <==> length % 8 == 0
  {
    if length % 8 == 0 {
      forall a: Addr, b: Addr ensures PrefixCmp(a, b, length) <==> MatchLength(a, b) >= length {
        PrefixCmpIs(a, b, length);
      }
    } else {
      var a: Addr := UNSPECIFIED;
      var b: Addr := UNSPECIFIED[length / 8 := 0x80];
      assert PrefixCmp(a, b, length);
      assert !SameBit(a, b, 8 * (length / 8));
    }
  }

  // ---------- Source address selection ----------

  datatype AddrState = Tentative | Preferred | Deprecated

  /** A slot of the interface's unicast list; a timer is the time at which it expires. */
  datatype AddrSlot = AddrSlot(isUsed: bool, ipaddr: Addr, state: AddrState, isInfinite: bool, validUntil: nat,
                               dadAt: nat, dadNsCount: nat)

  predicate PreferredGlobal(s: AddrSlot) {
    s.isUsed && s.state == Preferred && !LinkLocal(s.ipaddr)
  }

  predicate PreferredLinkLocal(s: AddrSlot) {
    s.isUsed && s.state == Preferred && LinkLocal(s.ipaddr)
  }

  /** `uip_ds6_get_link_local(ADDR_PREFERRED)`: the first one. */
  method GetLinkLocal(list: array<AddrSlot>) returns (i: nat)
    ensures i <= list.Length && (i < list.Length ==> PreferredLinkLocal(list[i]))
    ensures forall j :: 0 <= j < i ==> !PreferredLinkLocal(list[j])
  {
    i := 0;
    while i < list.Length
      invariant 0 <= i <= list.Length
      invariant forall j :: 0 <= j < i ==> !PreferredLinkLocal(list[j])
    {
      if list[i].isUsed && list[i].state == Preferred && LinkLocal(list[i].ipaddr) {
        return;
      }
      i := i + 1;
    }
  }

  /** The last of the best matching preferred global addresses among these slots. */
  predicate IsBest(list: seq<AddrSlot>, dst: Addr, chosen: Option<nat>) {
    if chosen.None? then forall j :: 0 <= j < |list| ==> !PreferredGlobal(list[j])
    else
      && chosen.value < |list| && PreferredGlobal(list[chosen.value])
      && forall j :: 0 <= j < |list| && PreferredGlobal(list[j]) ==>
           && MatchLength(dst, list[j].ipaddr) <= MatchLength(dst, list[chosen.value].ipaddr)
           && (chosen.value < j ==> MatchLength(dst, list[j].ipaddr) < MatchLength(dst, list[chosen.value].ipaddr))
  }

  /** The first preferred link-local address. */
  predicate IsFirstLinkLocal(list: seq<AddrSlot>, chosen: Option<nat>) {
    if chosen.None? then forall j :: 0 <= j < |list| ==> !PreferredLinkLocal(list[j])
    else
      && chosen.value < |list| && PreferredLinkLocal(list[chosen.value])
      && forall j :: 0 <= j < chosen.value ==> !PreferredLinkLocal(list[j])
  }

  /** The longest-match loop, at a global unicast destination. */
  method SelectGlobal(list: array<AddrSlot>, dst: Addr) returns (chosen: Option<nat>)
    ensures IsBest(list[..], dst, chosen)
  {
    hide MatchLength, LinkLocal;
    chosen := None;
    var best, i := 0, 0;
    while i < list.Length
      invariant 0 <= i <= list.Length && IsBest(list[..i], dst, chosen)
      invariant best == if chosen.None? then 0 else MatchLength(dst, list[chosen.value].ipaddr)
    {
      assert list[..i + 1] == list[..i] + [list[i]];
      if list[i].isUsed && list[i].state == Preferred && !LinkLocal(list[i].ipaddr) {
        var n := GetMatchLength(dst, list[i].ipaddr);
        if n >= best {
          best, chosen := n, Some(i);
        }
      }
      i := i + 1;
    }
    assert list[..i] == list[..];
  }

  /** `uip_ds6_select_src`, the unspecified address standing for no match. */
  method SelectSrc(list: array<AddrSlot>, dst: Addr) returns (src: Addr, chosen: Option<nat>)
    ensures if LinkLocal(dst) || Multicast(dst) then IsFirstLinkLocal(list[..], chosen) else IsBest(list[..], dst, chosen)
    ensures src == if chosen.None? then UNSPECIFIED else list[chosen.value].ipaddr
  {
    if !LinkLocal(dst) && !Multicast(dst) {
      chosen := SelectGlobal(list, dst);
    } else {
      var i := GetLinkLocal(list);
      chosen := if i < list.Length then Some(i) else None;
    }
    src := if chosen.Some? then list[chosen.value].ipaddr else UNSPECIFIED;
  }

  // ---------- Route lookup ----------

  datatype Route = Route(isUsed: bool, ipaddr: Addr, length: nat, nextHop: Addr)

  predicate WellFormed(table: seq<Route>) {
    forall i :: 0 <= i < |table| ==> table[i].length <= 128
  }

  predicate Matches(r: Route, dest: Addr)
    requires r.length <= 128
  {
    r.isUsed && PrefixCmp(dest, r.ipaddr, r.length)
  }

  /** The longest of the matching routes, the last one on ties. */
  predicate IsLongest(table: seq<Route>, dest: Addr, i: nat)
    requires WellFormed(table) && i < |table|
  {
    && Matches(table[i], dest)
    && forall j :: 0 <= j < |table| && Matches(table[j], dest) ==>
         table[j].length <= table[i].length && (i < j ==> table[j].length < table[i].length)
  }

  /** `uip_ds6_route_lookup` */
  method RouteLookup(table: array<Route>, dest: Addr) returns (found: Option<nat>)
    requires WellFormed(table[..])
    ensures found.None? <==> forall j :: 0 <= j < table.Length ==> !Matches(table[j], dest)
    ensures found.Some? ==> found.value < table.Length && IsLongest(table[..], dest, found.value)
  {
    found := None;
    var longest, i := 0, 0;
    assert forall j :: 0 <= j < table.Length ==> table[j] == table[..][j];
    while i < table.Length
      invariant 0 <= i <= table.Length
      invariant found.None? ==> longest == 0 && forall j :: 0 <= j < i ==> !Matches(table[j], dest)
      invariant found.Some? ==>
        && found.value < i && Matches(table[found.value], dest) && longest == table[found.value].length
        && forall j :: 0 <= j < i && Matches(table[j], dest) ==>
             table[j].length <= longest && (found.value < j ==> table[j].length < longest)
    {
      if table[i].isUsed && table[i].length >= longest && PrefixCmp(dest, table[i].ipaddr, table[i].length) {
        longest, found := table[i].length, Some(i);
      }
      i := i + 1;
    }
  }

  /**
   * The route found really has the destination under its prefix, and the longest such prefix, when
   * every route's prefix ends with a byte.
   */
  lemma LookupIsLongestPrefixMatch(table: seq<Route>, dest: Addr, i: nat)
    requires WellFormed(table) && i < |table|
    requires forall j :: 0 <= j < |table| && table[j].isUsed ==> table[j].length % 8 == 0
    ensures IsLongest(table, dest, i) <==>
      && table[i].isUsed && MatchLength(dest, table[i].ipaddr) >= table[i].length
      && forall j :: 0 <= j < |table| && table[j].isUsed && MatchLength(dest, table[j].ipaddr) >= table[j].length ==>
           table[j].length <= table[i].length && (i < j ==> table[j].length < table[i].length)
  {
    forall j | 0 <= j < |table| && table[j].isUsed
      ensures Matches(table[j], dest) <==> MatchLength(dest, table[j].ipaddr) >= table[j].length
    {
      PrefixCmpIs(dest, table[j].ipaddr, table[j].length);
    }
  }

  /** A route whose prefix ends inside a byte also catches destinations outside its prefix. */
  lemma OtherRoutesCatchTooMuch(r: Route)
    requires r.isUsed && r.length <= 128 && r.length % 8 != 0
    ensures exists dest: Addr :: Matches(r, dest) && MatchLength(dest, r.ipaddr) < r.length
  {
    var n := r.length / 8;
    var dest: Addr := r.ipaddr[n := r.ipaddr[n] ^ 0x80];
    assert dest[..n] == r.ipaddr[..n];
    XorBit(r.ipaddr[n], 0x80, 0);
    assert !SameBit(dest, r.ipaddr, 8 * n);
    assert Matches(r, dest);
  }
}
