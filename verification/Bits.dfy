/** Networks by the bits of their addresses, the most significant bit first (section 3.1 of RFC 4632). */
module Bits {
  import opened Encodings
  import opened Net

  function Pow2(n: nat): (p: nat)
    ensures p >= 1
  {
    if n == 0 then 1 else 2 * Pow2(n - 1)
  }

  /** A bit of a byte, counted from the top. */
  function Bit(b: byte, j: nat): (bit: int)
    requires j < 8
    ensures 0 <= bit < 2
  {
    b / Pow2(7 - j) % 2
  }

  /** A bit of an address, counted from the top of its first byte. */
  function AddrBit(a: Addr, i: nat): (bit: int)
    requires i < 8 * |a|
    ensures 0 <= bit < 2
  {
    Bit(a[i / 8], i % 8)
  }

  /** The first bits of two addresses of one family agree. */
  predicate SameStart(a: Addr, b: Addr, bits: nat)
    requires |a| == |b| && bits <= 8 * |a|
  {
    forall i :: 0 <= i < bits ==> AddrBit(a, i) == AddrBit(b, i)
  }

  /** The address is in the network: it starts with the bits that the prefix gives. */
  predicate InNetwork(p: Prefix, a: Addr) {
    |a| == |p.addr| && SameStart(p.addr, a, p.bits)
  }

  lemma SmallPowers()
    ensures Pow2(0) == 1 && Pow2(1) == 2 && Pow2(2) == 4 && Pow2(3) == 8
    ensures Pow2(4) == 16 && Pow2(5) == 32 && Pow2(6) == 64 && Pow2(7) == 128
    ensures Pow2(8) == 256
  {
    assert Pow2(3) == 8;
    assert Pow2(6) == 64;
  }

  /** The bits from below, by halving. */
  function LowBit(n: nat, i: nat): int {
    if i == 0 then n % 2 else LowBit(n / 2, i - 1)
  }

  /** The number with its lowest bits cleared, by halving. */
  function Cut(n: nat, clear: nat): nat {
    if clear == 0 then n else 2 * Cut(n / 2, clear - 1)
  }

  lemma {:induction false} CutBits(n: nat, clear: nat, i: nat)
    ensures LowBit(Cut(n, clear), i) == if i < clear then 0 else LowBit(n, i)
  {
    if clear > 0 {
      assert Cut(n, clear) / 2 == Cut(n / 2, clear - 1);
      if i > 0 {
        CutBits(n / 2, clear - 1, i - 1);
      }
    }
  }

  lemma DivideTwice(n: nat)
    ensures n / 2 / 1 == n / 2 && n / 2 / 2 == n / 4 && n / 2 / 4 == n / 8 && n / 2 / 8 == n / 16
    ensures n / 2 / 16 == n / 32 && n / 2 / 32 == n / 64 && n / 2 / 64 == n / 128 && n / 2 / 128 == n / 256
  {
  }

  /** Halving repeatedly is dividing by a power of two. */
  lemma {:induction false} LowBitDivides(n: nat, i: nat)
    requires i <= 7
    ensures LowBit(n, i) == n / Pow2(i) % 2
  {
    SmallPowers();
    if i > 0 {
      LowBitDivides(n / 2, i - 1);
      DivideTwice(n);
      hide Pow2;
    }
  }

  lemma {:induction false} CutForms(n: nat, clear: nat)
    ensures clear == 0 ==> Cut(n, clear) == n
    ensures clear == 1 ==> Cut(n, clear) == n / 2 * 2
    ensures clear == 2 ==> Cut(n, clear) == n / 4 * 4
    ensures clear == 3 ==> Cut(n, clear) == n / 8 * 8
    ensures clear == 4 ==> Cut(n, clear) == n / 16 * 16
    ensures clear == 5 ==> Cut(n, clear) == n / 32 * 32
    ensures clear == 6 ==> Cut(n, clear) == n / 64 * 64
    ensures clear == 7 ==> Cut(n, clear) == n / 128 * 128
    ensures clear == 8 ==> Cut(n, clear) == n / 256 * 256
  {
    if clear > 0 {
      CutForms(n / 2, clear - 1);
      DivideTwice(n);
    }
  }

  lemma BitFromBelow(b: byte, j: nat)
    requires j < 8
    ensures Bit(b, j) == LowBit(b, 7 - j)
  {
    LowBitDivides(b, 7 - j);
  }

  /** Masking a byte clears its lowest bits. */
  lemma MaskByteCuts(b: byte, keep: int)
    requires 0 <= keep <= 8
    ensures MaskByte(b, keep) == Cut(b, 8 - keep)
  {
    hide Cut;
    CutForms(b, 8 - keep);
  }

  /** Masking a byte keeps its first bits and clears the others. */
  lemma MaskByteBits(b: byte, keep: int, j: nat)
    requires j < 8
    ensures Bit(MaskByte(b, keep), j) == if j < keep then Bit(b, j) else 0
  {
    hide Bit, MaskByte, LowBit, Cut;
    var k := if keep < 0 then 0 else if keep > 8 then 8 else keep;
    MaskByteEnds(b, keep);
    MaskByteCuts(b, k);
    CutBits(b, 8 - k, 7 - j);
    BitFromBelow(b, j);
    BitFromBelow(MaskByte(b, keep), j);
  }

  lemma MaskByteEnds(b: byte, keep: int)
    ensures MaskByte(b, keep) == MaskByte(b, if keep < 0 then 0 else if keep > 8 then 8 else keep)
  {
  }

  lemma {:induction false} SameLowBits(m: nat, n: nat, k: nat)
    requires m < Pow2(k) && n < Pow2(k) && forall i :: 0 <= i < k ==> LowBit(m, i) == LowBit(n, i)
    ensures m == n
  {
    if k > 0 {
      assert LowBit(m, 0) == LowBit(n, 0);
      forall i | 0 <= i < k - 1
        ensures LowBit(m / 2, i) == LowBit(n / 2, i)
      {
        assert LowBit(m, i + 1) == LowBit(n, i + 1);
      }
      SameLowBits(m / 2, n / 2, k - 1);
    }
  }

  lemma SameBits(a: byte, b: byte)
    requires forall j :: 0 <= j < 8 ==> Bit(a, j) == Bit(b, j)
    ensures a == b
  {
    hide Bit, LowBit;
    SmallPowers();
    forall i | 0 <= i < 8
      ensures LowBit(a, i) == LowBit(b, i)
    {
      BitFromBelow(a, 7 - i);
      BitFromBelow(b, 7 - i);
    }
    SameLowBits(a, b, 8);
  }

  /** Masking an address keeps its first bits and clears the others. */
  lemma MaskAddrBits(a: Addr, bits: nat, i: nat)
    requires i < 8 * |a|
    ensures AddrBit(MaskAddr(a, bits), i) == if i < bits then AddrBit(a, i) else 0
  {
    hide Bit, MaskByte;
    MaskByteBits(a[i / 8], bits - 8 * (i / 8), i % 8);
  }

  lemma SameAddr(a: Addr, b: Addr)
    requires |a| == |b| && SameStart(a, b, 8 * |a|)
    ensures a == b
  {
    hide Bit;
    forall n | 0 <= n < |a|
      ensures a[n] == b[n]
    {
      forall j | 0 <= j < 8
        ensures Bit(a[n], j) == Bit(b[n], j)
      {
        assert AddrBit(a, 8 * n + j) == AddrBit(b, 8 * n + j);
      }
      SameBits(a[n], b[n]);
    }
  }

  /** The network of a prefix: the only one of its length with the same first bits and no others. */
  lemma MaskedBits(p: Prefix, q: Prefix)
    ensures q == Masked(p) <==>
            q.bits == p.bits && |q.addr| == |p.addr|
            && forall i :: 0 <= i < 8 * |q.addr| ==> AddrBit(q.addr, i) == if i < p.bits then AddrBit(p.addr, i) else 0
  {
    hide AddrBit, MaskAddr;
    forall i | 0 <= i < 8 * |p.addr|
      ensures AddrBit(MaskAddr(p.addr, p.bits), i) == if i < p.bits then AddrBit(p.addr, i) else 0
    {
      MaskAddrBits(p.addr, p.bits, i);
    }
    if q.bits == p.bits && |q.addr| == |p.addr| && SameStart(q.addr, Masked(p).addr, 8 * |q.addr|) {
      SameAddr(q.addr, Masked(p).addr);
    }
  }

  /** An address whose first bits are those of a masked prefix masks to its address. */
  lemma MaskedStart(p: Prefix, a: Addr)
    requires Masked(p) == p && |a| == |p.addr|
    ensures MaskAddr(a, p.bits) == p.addr <==> SameStart(p.addr, a, p.bits)
  {
    hide AddrBit, MaskAddr;
    forall i | 0 <= i < 8 * |a|
      ensures AddrBit(MaskAddr(a, p.bits), i) == if i < p.bits then AddrBit(a, i) else 0
      ensures AddrBit(p.addr, i) == if i < p.bits then AddrBit(p.addr, i) else 0
    {
      MaskAddrBits(a, p.bits, i);
      MaskAddrBits(p.addr, p.bits, i);
    }
    if SameStart(p.addr, a, p.bits) {
      SameAddr(MaskAddr(a, p.bits), p.addr);
    }
  }
}
