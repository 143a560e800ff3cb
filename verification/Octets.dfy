/** Machine integers of the C sources, optional values, and the four-byte sequence numbers of the TCP engine. */
module Octets {

  type Byte = x: int | 0 <= x < 0x100
  type U16 = x: int | 0 <= x < 0x1_0000
  type U32 = x: int | 0 <= x < 0x1_0000_0000

  datatype Option<T> = None | Some(value: T)

  const TWO32 := 0x1_0000_0000

  /** A sequence number as the engine stores it: four bytes, most significant first. */
  datatype Quad = Quad(b0: Byte, b1: Byte, b2: Byte, b3: Byte) {
    function Val(): U32 {
      b0 * 0x100_0000 + b1 * 0x1_0000 + b2 * 0x100 + b3
    }
  }

  /** Comparing the four bytes is comparing the numbers. */
  lemma QuadValInjective(p: Quad, q: Quad)
    ensures p == q <==> p.Val() == q.Val()
  {
    if p.b0 != q.b0 {
      assert p.Val() != q.Val();
    } else if p.b1 != q.b1 {
      assert p.Val() != q.Val();
    } else if p.b2 != q.b2 {
      assert p.Val() != q.Val();
    }
  }

  /** 32-bit modular addition, what the four-byte additions are meant to compute. */
  function Add(x: int, n: int): U32 {
    (x + n) % TWO32
  }

  lemma AddZero(x: U32)
    ensures Add(x, 0) == x
  {
  }

  lemma AddAssociates(x: int, m: int, n: int)
    ensures Add(Add(x, m), n) == Add(x, m + n)
  {
  }

  /** Two offsets below 2^32 that reach the same sequence number are the same offset. */
  lemma AddInjective(x: int, m: nat, n: nat)
    requires m < TWO32 && n < TWO32
    requires Add(x, m) == Add(x, n)
    ensures m == n
  {
    var q := (x + m) / TWO32 - (x + n) / TWO32;
    assert m - n == TWO32 * q;
  }

  /** The conversion between host and network order on a little-endian host. */
  function Htons(x: U16): (r: U16)
    ensures r / 0x100 == x % 0x100 && r % 0x100 == x / 0x100
  {
    (x % 0x100) * 0x100 + x / 0x100
  }

  lemma HtonsInvolution(x: U16)
    ensures Htons(Htons(x)) == x
  {
  }

  /** Addition in an 8-bit register. */
  function Add8(b: Byte, n: Byte): (r: Byte)
    ensures r == if b + n < 0x100 then b + n else b + n - 0x100
  {
    (b + n) % 0x100
  }

  lemma AddWraps(x: U32, n: nat)
    requires n <= TWO32
    ensures Add(x, n) == if x + n < TWO32 then x + n else x + n - TWO32
  {
  }

  /** The carry ripple `if(++b2 == 0) if(++b1 == 0) ++b0` into the three upper bytes. */
  method Carry(b0: Byte, b1: Byte, b2: Byte) returns (c0: Byte, c1: Byte, c2: Byte)
    ensures Quad(c0, c1, c2, 0).Val() == Add(Quad(b0, b1, b2, 0).Val(), 0x100)
  {
    AddWraps(Quad(b0, b1, b2, 0).Val(), 0x100);
    c0, c1, c2 := b0, b1, Add8(b2, 1);
    if c2 == 0 {
      c1 := Add8(b1, 1);
      if c1 == 0 {
        c0 := Add8(b0, 1);
      }
    }
  }

  /** A four-byte counter bumped by one, carries rippling upwards. */
  method Increment(q: Quad) returns (r: Quad)
    ensures r.Val() == Add(q.Val(), 1)
  {
    AddWraps(q.Val(), 1);
    r := q.(b3 := Add8(q.b3, 1));
    if r.b3 == 0 {
      var c0, c1, c2 := Carry(r.b0, r.b1, r.b2);
      AddWraps(Quad(r.b0, r.b1, r.b2, 0).Val(), 0x100);
      r := Quad(c0, c1, c2, 0);
    }
  }

  /** `uip_add32`: a 16-bit number is added byte by byte, each carry detected by wrap-around. */
  method Add32(op32: Quad, op16: U16) returns (acc32: Quad)
    ensures acc32.Val() == Add(op32.Val(), op16)
  {
    var lo: Byte, hi: Byte := op16 % 0x100, op16 / 0x100;
    assert op16 == 0x100 * hi + lo;
    acc32 := Quad(op32.b0, op32.b1, Add8(op32.b2, hi), Add8(op32.b3, lo));
    if acc32.b2 < hi {
      acc32 := acc32.(b1 := Add8(acc32.b1, 1));
      if acc32.b1 == 0 {
        acc32 := acc32.(b0 := Add8(acc32.b0, 1));
      }
    }
    ghost var upper := Quad(acc32.b0, acc32.b1, acc32.b2, 0).Val();
    AddWraps(Quad(op32.b0, op32.b1, op32.b2, 0).Val(), 0x100 * hi);
    assert upper == Add(Quad(op32.b0, op32.b1, op32.b2, 0).Val(), 0x100 * hi);
    AddWraps(upper, 0x100);
    AddWraps(op32.Val(), op16);
    if acc32.b3 < lo {
      var c0, c1, c2 := Carry(acc32.b0, acc32.b1, acc32.b2);
      acc32 := Quad(c0, c1, c2, acc32.b3);
      assert acc32.Val() - acc32.b3 == Add(upper, 0x100);
    }
  }
}
