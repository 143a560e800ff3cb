/**
 * Internet checksums: the accumulation loop of src/sal/arm/sal_chksum.c, the header and segment
 * checksums of src/net/uip_arch.c, and their use when src/net/uip.c sends, receives and echoes.
 */
module Checksum {
  import opened Octets

  // ---------- What a checksum is (section 4.1 of RFC 1071) ----------

  /** `(hi << 8) + lo` */
  function Join(hi: Byte, lo: Byte): U16 {
    hi * 0x100 + lo
  }

  /** The sum of the big-endian 16-bit words, an odd last byte padded with zero, without any wrap-around. */
  function Total(s: seq<Byte>): nat {
    if s == [] then 0
    else if |s| == 1 then Join(s[0], 0)
    else Join(s[0], s[1]) + Total(s[2..])
  }

  /** The 16-bit one's-complement number of a sum: zero only for zero, 0xffff for every other multiple of 0xffff. */
  function Fold(n: nat): (r: U16)
    ensures r % 0xffff == n % 0xffff && (r == 0 <==> n == 0)
  {
    if n == 0 then 0 else 1 + (n - 1) % 0xffff
  }

  lemma FoldIs(n: nat, r: U16, q: int)
    requires n == r + 0xffff * q && (r == 0 <==> n == 0)
    ensures Fold(n) == r
  {
    if n > 0 {
      assert n - 1 == (r - 1) + 0xffff * q;
    }
  }

  lemma FoldFold(m: nat, n: nat)
    ensures Fold(Fold(m) + n) == Fold(m + n)
  {
    if m > 0 {
      var q := (m - 1) / 0xffff;
      assert m == Fold(m) + 0xffff * q;
      var k := (m + n - 1) / 0xffff;
      FoldIs(Fold(m) + n, Fold(m + n), k - q);
    }
  }

  /** A nonzero sum and the complement of its fold together fold to 0xffff. */
  lemma FoldComplement(n: nat)
    requires n > 0
    ensures Fold(n + (0xffff - Fold(n))) == 0xffff
    ensures Fold(n + 0xffff) == Fold(n)
  {
    var q := (n - 1) / 0xffff;
    assert n == Fold(n) + 0xffff * q;
    FoldIs(n + (0xffff - Fold(n)), 0xffff, q);
    FoldIs(n + 0xffff, Fold(n), q + 1);
  }

  /** Words of a prefix of even length are summed independently of the rest. */
  lemma {:induction false} TotalAppends(a: seq<Byte>, b: seq<Byte>)
    requires |a| % 2 == 0
    ensures Total(a + b) == Total(a) + Total(b)
  {
    if a == [] {
      assert a + b == b;
    } else {
      assert (a + b)[2..] == a[2..] + b;
      TotalAppends(a[2..], b);
    }
  }

  function Word(s: seq<Byte>, i: nat): U16
    requires i + 1 < |s|
  {
    Join(s[i], s[i + 1])
  }

  lemma TotalOfWord(s: seq<Byte>)
    requires |s| == 2
    ensures Total(s) == Word(s, 0)
  {
    assert s[2..] == [];
  }

  /** Splitting off the word at an even offset. */
  lemma TotalAt(s: seq<Byte>, i: nat)
    requires i % 2 == 0 && i + 1 < |s|
    ensures Total(s) == Total(s[..i]) + Word(s, i) + Total(s[i + 2..])
  {
    assert s == s[..i] + s[i..];
    TotalAppends(s[..i], s[i..]);
    assert s[i..][2..] == s[i + 2..];
  }

  /** What rewriting one word does to the sum. */
  lemma TotalAfterStore(s: seq<Byte>, t: seq<Byte>, i: nat)
    requires |s| == |t| && i % 2 == 0 && i + 1 < |s|
    requires forall j :: 0 <= j < |s| && j != i && j != i + 1 ==> s[j] == t[j]
    ensures Total(t) == Total(s) - Word(s, i) + Word(t, i)
  {
    TotalAt(s, i);
    TotalAt(t, i);
    assert s[..i] == t[..i] && s[i + 2..] == t[i + 2..];
  }

  lemma {:induction false} TotalIsPositive(s: seq<Byte>, i: nat)
    requires i < |s| && s[i] != 0
    ensures Total(s) > 0
  {
    if i >= 2 {
      TotalIsPositive(s[2..], i - 2);
    }
  }

  lemma {:induction false} TotalOfZeroes(s: seq<Byte>)
    requires forall i :: 0 <= i < |s| ==> s[i] == 0
    ensures Total(s) == 0
  {
    if |s| >= 2 {
      TotalOfZeroes(s[2..]);
    }
  }

  /** An odd number of bytes is padded with a zero byte at the end (section 4.1 of RFC 1071). */
  lemma {:induction false} OddIsPadded(s: seq<Byte>)
    requires |s| % 2 == 1
    ensures Total(s) == Total(s + [0])
    decreases |s|
  {
    if |s| == 1 {
      assert (s + [0])[2..] == [];
    } else {
      assert (s + [0])[2..] == s[2..] + [0];
      OddIsPadded(s[2..]);
    }
  }

  // ---------- The loop ----------

  /** 16-bit addition with end-around carry: `sum += t; if(sum < t) sum++`. */
  method AddWord(sum: U16, t: U16) returns (r: U16)
    ensures r == Fold(sum + t)
  {
    r := (sum + t) % 0x1_0000;
    if r < t {
      FoldIs(sum + t, r + 1, 1);
      r := r + 1;
    } else {
      FoldIs(sum + t, r, 0);
    }
  }

  /** `sal_checksum` over `len` bytes of the buffer. */
  method SalChecksum(sum: U16, data: array<Byte>, from: nat, len: nat) returns (r: U16)
    requires from + len <= data.Length
    ensures r == Fold(sum + Total(data[from..from + len]))
  {
    hide *;
    r := sum;
    ghost var s := data[from..from + len];
    StartOf(sum, s);
    var p, lastByte := from, from + len - 1;
    ghost var words: nat := 0;
    while p < lastByte
      invariant p == from + 2 * words && 2 * words <= len
      invariant r == Fold(sum + Total(s[..2 * words]))
    {
      Accumulated(sum, s, 2 * words);
      assert data[p] == s[2 * words] && data[p + 1] == s[2 * words + 1];
      r := AddWord(r, Join(data[p], data[p + 1]));
      words, p := words + 1, p + 2;
    }
    if p == lastByte {
      LastByteAccumulated(sum, s, 2 * words);
      r := AddWord(r, Join(data[p], 0));
    } else {
      assert s[..2 * words] == s;
    }
  }

  lemma StartOf(sum: U16, s: seq<Byte>)
    ensures Fold(sum + Total(s[..0])) == sum
  {
    FoldIs(sum, sum, 0);
  }

  lemma Accumulated(sum: U16, s: seq<Byte>, k: nat)
    requires k % 2 == 0 && k + 1 < |s|
    ensures Fold(Fold(sum + Total(s[..k])) + Join(s[k], s[k + 1])) == Fold(sum + Total(s[..k + 2]))
  {
    hide Fold, Total;
    assert s[..k + 2] == s[..k] + s[k..k + 2];
    TotalAppends(s[..k], s[k..k + 2]);
    TotalOfWord(s[k..k + 2]);
    FoldFold(sum + Total(s[..k]), Join(s[k], s[k + 1]));
  }

  lemma LastByteAccumulated(sum: U16, s: seq<Byte>, k: nat)
    requires k % 2 == 0 && k + 1 == |s|
    ensures Fold(Fold(sum + Total(s[..k])) + Join(s[k], 0)) == Fold(sum + Total(s))
  {
    hide Fold, Total;
    assert s == s[..k] + [s[k]];
    TotalOfByte(s[k]);
    TotalAppends(s[..k], [s[k]]);
    FoldFold(sum + Total(s[..k]), Join(s[k], 0));
  }

  lemma TotalOfByte(b: Byte)
    ensures Total([b]) == Join(b, 0)
  {
  }

  // ---------- Received packets ----------

  const IPH_LEN := 20
  const PROTO_TCP: Byte := 6
  const PROTO_UDP: Byte := 17

  /** The total length field of the IPv4 header. */
  function LenField(p: seq<Byte>): U16
    requires |p| >= IPH_LEN
  {
    Word(p, 2)
  }

  /** The packet fills the buffer as far as its length field says, and the field covers the header. */
  predicate WellSized(p: seq<Byte>) {
    |p| >= IPH_LEN && IPH_LEN <= LenField(p) <= |p|
  }

  /** What the sender of an IPv4 header promises. */
  predicate HeaderPasses(p: seq<Byte>)
    requires |p| >= IPH_LEN
  {
    Fold(Total(p[..IPH_LEN])) == 0xffff
  }

  /** The sum that covers protocol, length, both addresses and the upper layer's bytes. */
  function SegmentTotal(p: seq<Byte>, proto: Byte): nat
    requires WellSized(p)
  {
    LenField(p) - IPH_LEN + proto + Total(p[12..20]) + Total(p[IPH_LEN..LenField(p)])
  }

  /**
   * The pseudo header of section 3.1 of RFC 793: both addresses, a zero byte, the protocol, and the
   * length of the segment.
   */
  function PseudoHeader(p: seq<Byte>, proto: Byte): (h: seq<Byte>)
    requires WellSized(p)
    ensures |h| == 12
  {
    var len := LenField(p) - IPH_LEN;
    [p[12], p[13], p[14], p[15], p[16], p[17], p[18], p[19], 0, proto, len / 0x100, len % 0x100]
  }

  /** The sum that is checked is that of the pseudo header and the segment, byte after byte. */
  lemma SegmentTotalIs(p: seq<Byte>, proto: Byte)
    requires WellSized(p)
    ensures SegmentTotal(p, proto) == Total(PseudoHeader(p, proto) + p[IPH_LEN..LenField(p)])
  {
    var h, len := PseudoHeader(p, proto), LenField(p) - IPH_LEN;
    TotalAppends(h, p[IPH_LEN..LenField(p)]);
    assert h == p[12..20] + ([0, proto] + [len / 0x100, len % 0x100]);
    TotalAppends(p[12..20], [0, proto] + [len / 0x100, len % 0x100]);
    TotalAppends([0, proto], [len / 0x100, len % 0x100]);
    TotalOfWord([0, proto]);
    TotalOfWord([len / 0x100, len % 0x100]);
  }

  /** What the sender of a TCP or UDP segment promises. */
  predicate SegmentPasses(p: seq<Byte>, proto: Byte)
    requires WellSized(p)
  {
    Fold(SegmentTotal(p, proto)) == 0xffff
  }

  /** Conversion of a 16-bit value between host and network order. */
  function Swap(little: bool, x: U16): U16 {
    if little then Htons(x) else x
  }

  lemma SwapTwice(little: bool, x: U16)
    ensures Swap(little, Swap(little, x)) == x
    ensures Swap(little, 0xffff - x) == 0xffff - Swap(little, x)
  {
  }

  lemma SwapZero(little: bool)
    ensures Swap(little, 0) == 0
    ensures forall x: U16 :: Swap(little, x) == 0 <==> x == 0
    ensures Swap(little, 0xffff) == 0xffff
  {
  }

  /** `uip_buf` from the IPv4 header on; `little` is the byte order of the host. */
  class PacketBuffer {
    const buf: array<Byte>
    const little: bool
    var ipid: U16

    constructor (buf: array<Byte>, little: bool)
      ensures this.buf == buf && this.little == little
    {
      this.buf, this.little, ipid := buf, little, 0;
    }

    /** A 16-bit store through a structure field. */
    method Store(off: nat, v: U16)
      requires off + 1 < buf.Length
      modifies buf
      ensures Word(buf[..], off) == Swap(little, v)
      ensures forall i :: 0 <= i < buf.Length && i != off && i != off + 1 ==> buf[i] == old(buf[i])
    {
      var w := Swap(little, v);
      buf[off], buf[off + 1] := w / 0x100, w % 0x100;
    }

    /** The load that goes with it. */
    method Load(off: nat) returns (v: U16)
      requires off + 1 < buf.Length
      ensures Swap(little, v) == Word(buf[..], off)
    {
      v := Swap(little, Join(buf[off], buf[off + 1]));
      SwapTwice(little, Word(buf[..], off));
    }

    /** `uip_ipchksum`, already complemented. */
    method IpChksum() returns (r: U16)
      requires buf.Length >= IPH_LEN
      ensures Swap(little, r) == 0xffff - Fold(Total(buf[..IPH_LEN]))
    {
      var sum := SalChecksum(0, buf, 0, IPH_LEN);
      sum := 0xffff - sum;
      r := Swap(little, sum);
      SwapTwice(little, sum);
    }

    /** `upper_layer_chksum` */
    method UpperLayerChksum(proto: Byte) returns (r: U16)
      requires WellSized(buf[..]) && proto <= PROTO_UDP
      ensures Swap(little, r) == Fold(SegmentTotal(buf[..], proto))
    {
      var len := Join(buf[2], buf[3]) - IPH_LEN;
      var sum := len + proto;
      sum := SalChecksum(sum, buf, 12, 8);
      FoldFold(len + proto + Total(buf[12..20]), Total(buf[IPH_LEN..IPH_LEN + len]));
      sum := SalChecksum(sum, buf, IPH_LEN, len);
      assert buf[..][12..20] == buf[12..20] && buf[..][IPH_LEN..IPH_LEN + len] == buf[IPH_LEN..IPH_LEN + len];
      r := Swap(little, sum);
      SwapTwice(little, sum);
    }

    /** The check before an IPv4 packet is looked at. */
    method AcceptsHeader() returns (ok: bool)
      requires buf.Length >= IPH_LEN
      ensures ok <==> HeaderPasses(buf[..])
    {
      var c := IpChksum();
      assert buf[..][..IPH_LEN] == buf[..IPH_LEN];
      ok := c == 0;
    }

    /** The check at `tcp_input`. */
    method AcceptsTcp() returns (ok: bool)
      requires WellSized(buf[..])
      ensures ok <==> SegmentPasses(buf[..], PROTO_TCP)
    {
      var c := UpperLayerChksum(PROTO_TCP);
      ok := c == 0xffff;
    }

    /** The check at `udp_input`: a zero field means that the sender did not compute a checksum. */
    method AcceptsUdp() returns (ok: bool)
      requires WellSized(buf[..]) && buf.Length >= 28
      ensures ok <==> Word(buf[..], 26) == 0 || SegmentPasses(buf[..], PROTO_UDP)
    {
      var field := Load(26);
      var c := UpperLayerChksum(PROTO_UDP);
      ok := field == 0 || c == 0xffff;
    }
  
    // ---------- Sent packets ----------

    /** The checksum of a TCP segment is written into its header. */
    method StampTcp()
      requires WellSized(buf[..]) && LenField(buf[..]) >= 40
      modifies buf
      ensures forall i :: 0 <= i < buf.Length && i != 36 && i != 37 ==> buf[i] == old(buf[i])
      ensures SegmentPasses(buf[..], PROTO_TCP)
    {
      hide Fold, SegmentTotal, SegmentPasses, Swap;
      Store(36, 0);
      SwapZero(little);
      ghost var before := buf[..];
      var c := UpperLayerChksum(PROTO_TCP);
      Store(36, 0xffff - c);
      SwapTwice(little, c);
      SegmentCompleted(before, buf[..], PROTO_TCP, 36);
    }

    /** The same for UDP, where zero is sent as 0xffff. */
    method StampUdp()
      requires WellSized(buf[..]) && LenField(buf[..]) >= 28
      modifies buf
      ensures forall i :: 0 <= i < buf.Length && i != 26 && i != 27 ==> buf[i] == old(buf[i])
      ensures SegmentPasses(buf[..], PROTO_UDP) && Word(buf[..], 26) != 0
    {
      hide Fold, SegmentTotal, SegmentPasses, Swap;
      Store(26, 0);
      SwapZero(little);
      ghost var before := buf[..];
      var c := UpperLayerChksum(PROTO_UDP);
      SwapTwice(little, c);
      Store(26, 0xffff - c);
      ghost var completed := buf[..];
      SegmentCompleted(before, completed, PROTO_UDP, 26);
      var field := Load(26);
      SwapTwice(little, field);
      if field == 0 {
        Store(26, 0xffff);
        ZeroIsAllOnes(completed, buf[..], PROTO_UDP, 26);
      }
    }

    /** From `tcp_send_noconn`: the segment of `len` bytes is completed, then the header. */
    method SendTcp(len: U16, ttl: Byte)
      requires 40 <= len <= buf.Length
      modifies this, buf
      ensures LenField(buf[..]) == len && buf[8] == ttl
      ensures HeaderPasses(buf[..]) && SegmentPasses(buf[..], PROTO_TCP)
      ensures forall i :: 9 <= i < buf.Length && i !in {10, 11, 36, 37, 38, 39} ==> buf[i] == old(buf[i])
    {
      hide SegmentPasses, HeaderPasses;
      buf[8] := ttl;
      buf[2], buf[3] := len / 0x100, len % 0x100;
      buf[38], buf[39] := 0, 0;
      StampTcp();
      ghost var stamped := buf[..];
      SendIp();
      SegmentUntouched(stamped, buf[..], PROTO_TCP);
    }

    /** From `udp_send`: the headers of a datagram from `hostAddr`; `lport` and `rport` are in network order. */
    method SendUdp(len: U16, ttl: Byte, lport: U16, rport: U16, hostAddr: seq<Byte>, rip: seq<Byte>)
      requires 28 <= len <= buf.Length && |hostAddr| == 4 && |rip| == 4
      modifies this, buf
      ensures LenField(buf[..]) == len && buf[8] == ttl && buf[9] == 17 && Word(buf[..], 24) == len - IPH_LEN
      ensures Word(buf[..], 20) == lport && Word(buf[..], 22) == rport && buf[12..16] == hostAddr && buf[16..20] == rip
      ensures HeaderPasses(buf[..]) && SegmentPasses(buf[..], PROTO_UDP) && Word(buf[..], 26) != 0
      ensures forall i :: 28 <= i < buf.Length ==> buf[i] == old(buf[i])
    {
      hide SegmentPasses, HeaderPasses;
      FillUdp(len, ttl, lport, rport);
      PutAddresses(hostAddr, rip);
      StampUdp();
      ghost var stamped := buf[..];
      SendIp();
      SegmentUntouched(stamped, buf[..], PROTO_UDP);
    }

    method PutAddresses(src: seq<Byte>, dst: seq<Byte>)
      requires buf.Length >= IPH_LEN && |src| == 4 && |dst| == 4
      modifies buf
      ensures buf[12..16] == src && buf[16..20] == dst
      ensures forall i :: 0 <= i < buf.Length && !(12 <= i < 20) ==> buf[i] == old(buf[i])
    {
      buf[12], buf[13], buf[14], buf[15] := src[0], src[1], src[2], src[3];
      buf[16], buf[17], buf[18], buf[19] := dst[0], dst[1], dst[2], dst[3];
    }

    /** The fields of a datagram's headers besides addresses and checksums. */
    method FillUdp(len: U16, ttl: Byte, lport: U16, rport: U16)
      requires 28 <= len <= buf.Length
      modifies buf
      ensures LenField(buf[..]) == len && buf[8] == ttl && buf[9] == 17 && Word(buf[..], 24) == len - IPH_LEN
      ensures Word(buf[..], 20) == lport && Word(buf[..], 22) == rport
      ensures forall i :: 28 <= i < buf.Length ==> buf[i] == old(buf[i])
    {
      hide Swap;
      buf[2], buf[3] := len / 0x100, len % 0x100;
      buf[8], buf[9] := ttl, PROTO_UDP;
      Store(24, Swap(little, len - IPH_LEN));
      SwapTwice(little, len - IPH_LEN);
      Store(20, Swap(little, lport));
      SwapTwice(little, lport);
      Store(22, Swap(little, rport));
      SwapTwice(little, rport);
    }

    /** From `ip_send_nolen`: the fields in front of the header checksum, then the checksum. */
    method SendIp()
      requires buf.Length >= IPH_LEN
      modifies this, buf
      ensures ipid == (old(ipid) + 1) % 0x1_0000 && Word(buf[..], 4) == ipid
      ensures buf[0] == 0x45 && buf[1] == 0 && buf[6] == 0 && buf[7] == 0
      ensures HeaderPasses(buf[..])
      ensures forall i :: 0 <= i < buf.Length && i !in {0, 1, 4, 5, 6, 7, 10, 11} ==> buf[i] == old(buf[i])
    {
      buf[0], buf[1] := 0x45, 0;
      buf[6], buf[7] := 0, 0;
      ipid := (ipid + 1) % 0x1_0000;
      buf[4], buf[5] := ipid / 0x100, ipid % 0x100;
      Store(10, 0);
      ghost var before := buf[..];
      var c := IpChksum();
      Store(10, c);
      HeaderCompleted(before, buf[..]);
    }

    // ---------- Echo ----------

    /** An ICMP echo request to `hostAddr` is turned into the reply without summing the message again. */
    method EchoReply(hostAddr: seq<Byte>)
      requires WellSized(buf[..]) && LenField(buf[..]) >= 24 && buf[20] == ICMP_ECHO
      requires |hostAddr| == 4 && buf[16..20] == hostAddr && HeaderPasses(buf[..])
      modifies buf
      ensures buf[12..16] == hostAddr && buf[16..20] == old(buf[12..16])
      ensures forall i :: 0 <= i < buf.Length && !(12 <= i < 20) && i !in {20, 22, 23} ==> buf[i] == old(buf[i])
      ensures HeaderPasses(buf[..])
      ensures LenField(buf[..]) == LenField(old(buf[..]))
      ensures IsReply(old(buf[..])[20..LenField(old(buf[..]))], buf[..][20..LenField(buf[..])], little)
    {
      hide HeaderPasses, EchoChecksum;
      buf[20] := ICMP_ECHO_REPLY;
      UpdateEchoChecksum();
      PutAddresses(hostAddr, buf[12..16]);
      AddressesSwapped(old(buf[..]), buf[..]);
    }

    method UpdateEchoChecksum()
      requires buf.Length >= 24
      modifies buf
      ensures forall i :: 0 <= i < buf.Length && i !in {22, 23} ==> buf[i] == old(buf[i])
      ensures Word(buf[..], 22) == EchoChecksum(little, Word(old(buf[..]), 22))
    {
      var field := Load(22);
      ghost var before := Word(buf[..], 22);
      SwapTwice(little, field);
      assert field == Swap(little, before);
      if field >= Swap(little, 0xffff - 0x800) {
        Store(22, (field + Swap(little, 0x800) + 1) % 0x1_0000);
      } else {
        Store(22, (field + Swap(little, 0x800)) % 0x1_0000);
      }
    }
  }

  /** What the complement of the sum does when it replaces a zero word of the segment. */
  lemma SegmentCompleted(p: seq<Byte>, q: seq<Byte>, proto: Byte, off: nat)
    requires |p| == |q| && WellSized(p) && IPH_LEN <= off && off % 2 == 0 && off + 2 <= LenField(p) && proto > 0
    requires forall j :: 0 <= j < |p| && j != off && j != off + 1 ==> p[j] == q[j]
    ensures WellSized(q)
    ensures Word(p, off) == 0 && Word(q, off) == 0xffff - Fold(SegmentTotal(p, proto)) ==> SegmentPasses(q, proto)
  {
    SegmentAfterStore(p, q, proto, off);
    FoldComplement(SegmentTotal(p, proto));
  }

  lemma SegmentAfterStore(p: seq<Byte>, q: seq<Byte>, proto: Byte, off: nat)
    requires |p| == |q| && WellSized(p) && IPH_LEN <= off && off % 2 == 0 && off + 2 <= LenField(p)
    requires forall j :: 0 <= j < |p| && j != off && j != off + 1 ==> p[j] == q[j]
    ensures WellSized(q) && SegmentTotal(q, proto) == SegmentTotal(p, proto) - Word(p, off) + Word(q, off)
  {
    var n := LenField(p);
    assert LenField(q) == n && p[12..20] == q[12..20];
    TotalAfterStore(p[IPH_LEN..n], q[IPH_LEN..n], off - IPH_LEN);
  }

  /** 0xffff stands for zero in one's-complement arithmetic. */
  lemma ZeroIsAllOnes(p: seq<Byte>, q: seq<Byte>, proto: Byte, off: nat)
    requires |p| == |q| && WellSized(p) && IPH_LEN <= off && off % 2 == 0 && off + 2 <= LenField(p)
    requires forall j :: 0 <= j < |p| && j != off && j != off + 1 ==> p[j] == q[j]
    requires Word(p, off) == 0 && Word(q, off) == 0xffff && SegmentPasses(p, proto)
    ensures WellSized(q) && SegmentPasses(q, proto)
  {
    SegmentAfterStore(p, q, proto, off);
    FoldComplement(SegmentTotal(p, proto));
  }

  lemma SegmentUntouched(p: seq<Byte>, q: seq<Byte>, proto: Byte)
    requires |p| == |q| && WellSized(p) && Word(q, 2) == Word(p, 2)
    requires forall j :: 12 <= j < |p| ==> p[j] == q[j]
    ensures WellSized(q) && SegmentPasses(q, proto) == SegmentPasses(p, proto)
  {
    assert p[12..20] == q[12..20] && p[IPH_LEN..LenField(p)] == q[IPH_LEN..LenField(q)];
  }

  lemma HeaderCompleted(p: seq<Byte>, q: seq<Byte>)
    requires |p| == |q| && |p| >= IPH_LEN && p[0] != 0
    requires forall j :: 0 <= j < |p| && j != 10 && j != 11 ==> p[j] == q[j]
    requires Word(p, 10) == 0 && Word(q, 10) == 0xffff - Fold(Total(p[..IPH_LEN]))
    ensures HeaderPasses(q)
  {
    hide Fold, Total;
    var before, after := p[..IPH_LEN], q[..IPH_LEN];
    assert Word(before, 10) == 0 && Word(after, 10) == Word(q, 10);
    TotalAfterStore(before, after, 10);
    TotalIsPositive(before, 0);
    FoldComplement(Total(before));
  }

  /** Exchanging the two addresses keeps the header's sum. */
  lemma AddressesSwapped(p: seq<Byte>, q: seq<Byte>)
    requires |p| == |q| && |p| >= IPH_LEN && HeaderPasses(p)
    requires q[..12] == p[..12] && q[12..16] == p[16..20] && q[16..20] == p[12..16]
    ensures HeaderPasses(q)
  {
    HeaderParts(p);
    HeaderParts(q);
  }

  lemma HeaderParts(p: seq<Byte>)
    requires |p| >= IPH_LEN
    ensures Total(p[..IPH_LEN]) == Total(p[..12]) + Total(p[12..16]) + Total(p[16..20])
  {
    assert p[..IPH_LEN] == p[..16] + p[16..20];
    assert p[..16] == p[..12] + p[12..16];
    TotalAppends(p[..16], p[16..20]);
    TotalAppends(p[..12], p[12..16]);
  }

  const ICMP_ECHO: Byte := 8
  const ICMP_ECHO_REPLY: Byte := 0

  /** The update of the field as the host reads it. */
  function EchoUpdate(little: bool, v: U16): U16 {
    if v >= Swap(little, 0xffff - 0x800) then (v + Swap(little, 0x800) + 1) % 0x1_0000
    else (v + Swap(little, 0x800)) % 0x1_0000
  }

  /** The same for the field in network order. */
  function EchoChecksum(little: bool, field: U16): U16 {
    Swap(little, EchoUpdate(little, Swap(little, field)))
  }

  /** On either byte order the field moves by 0x0800 modulo 0xffff. */
  lemma EchoChecksumIs(little: bool, field: U16)
    ensures EchoChecksum(little, field) % 0xffff == (field + 0x800) % 0xffff
  {
    var v := Swap(little, field);
    var s := EchoUpdateIs(little, v);
    if little {
      HtonsInvolution(field);
      var q := SwapIsRotation(v);
      var r := SwapIsRotation(EchoUpdate(true, v));
      hide Htons, EchoUpdate;
      SameModulo(field + 0x800, Htons(EchoUpdate(true, v)), 0x100 * s - r + q);
    } else {
      SameModulo(field + 0x800, EchoUpdate(false, field), s);
    }
  }

  lemma EchoUpdateIs(little: bool, v: U16) returns (s: int)
    ensures EchoUpdate(little, v) == v + Swap(little, 0x800) + 0xffff * s
  {
    s := if v >= Swap(little, 0xf7ff) then -1 else 0;
  }

  /** Exchanging the bytes of a word is multiplying it by 256 modulo 0xffff. */
  lemma SwapIsRotation(x: U16) returns (q: int)
    ensures 0x100 * x - Htons(x) == 0xffff * q
  {
    q := x / 0x100;
  }

  lemma SameModulo(a: int, b: int, q: int)
    requires b == a + 0xffff * q
    ensures b % 0xffff == a % 0xffff
  {
  }

  predicate IsReply(request: seq<Byte>, reply: seq<Byte>, little: bool) {
    && |request| == |reply| && 4 <= |request| && request[0] == ICMP_ECHO && reply[0] == ICMP_ECHO_REPLY
    && Word(reply, 2) == EchoChecksum(little, Word(request, 2))
    && forall i :: 0 <= i < |request| && i !in {0, 2, 3} ==> reply[i] == request[i]
  }

  /** The message's sum is kept modulo 0xffff (section 3 of RFC 1624). */
  lemma EchoKeepsSum(request: seq<Byte>, reply: seq<Byte>, little: bool)
    requires IsReply(request, reply, little)
    ensures Total(reply) % 0xffff == Total(request) % 0xffff
  {
    var typed := request[0 := ICMP_ECHO_REPLY];
    TotalAfterStore(request, typed, 0);
    TotalAfterStore(typed, reply, 2);
    EchoChecksumIs(little, Word(request, 2));
    SameResidue(Total(request), Word(request, 2), Word(reply, 2));
  }

  lemma EchoOfZeroes(little: bool)
    ensures EchoChecksum(little, 0xf7ff) == 0
  {
  }

  lemma SameResidue(total: nat, before: nat, after: nat)
    requires after % 0xffff == (before + 0x800) % 0xffff
    ensures (total - 0x800 - before + after) % 0xffff == total % 0xffff
  {
    var q := after / 0xffff - (before + 0x800) / 0xffff;
    assert after - before - 0x800 == 0xffff * q;
  }

  /**
   * The reply to a request whose own checksum was right passes the receiver's check, except when
   * the request carries nothing but zeroes: then the update leaves zero where 0xffff is needed.
   */
  lemma EchoReplyPasses(request: seq<Byte>, reply: seq<Byte>, little: bool)
    requires IsReply(request, reply, little) && Fold(Total(request)) == 0xffff
    ensures Fold(Total(reply)) == 0xffff <==> exists i :: 0 <= i < |request| && i !in {0, 2, 3} && request[i] != 0
  {
    hide Fold, Total, EchoChecksum;
    EchoKeepsSum(request, reply, little);
    if i :| 0 <= i < |request| && i !in {0, 2, 3} && request[i] != 0 {
      TotalIsPositive(reply, i);
    } else {
      TotalAt(request, 2);
      TotalOfZeroes(request[4..]);
      TotalOfWord(request[..2]);
      assert Total(request) == 0x800 + Word(request, 2);
      assert Word(request, 2) == 0xf7ff;
      EchoOfZeroes(little);
      forall i | 0 <= i < |reply| ensures reply[i] == 0 {
      }
      TotalOfZeroes(reply);
    }
  }
}
