/** Bits by division, and what exclusive or does to them. */
module Bits {
  import opened Bytes
  import opened Pages

  lemma {:induction false} Pow2Positive(n: nat)
    ensures Pow2(n) > 0
  {
    if n > 0 {
      Pow2Positive(n - 1);
    }
  }

  /** Bit `i` of `x`, counted from the lowest. */
  function Bit(x: nat, i: nat): nat {
    Pow2Positive(i);
    x / Pow2(i) % 2
  }

  /** Each bit of `r` is the parity of the same bits of `x` and `y`. */
  predicate Parity(r: byte, x: byte, y: byte) {
    forall i :: 0 <= i < 8 ==> Bit(r, i) == (Bit(x, i) + Bit(y, i)) % 2
  }

  lemma DoubledProduct(q: nat, p: nat)
    ensures q * (2 * p) == 2 * (q * p)
  {
  }

  lemma HalveThenDivide(x: nat, p: nat)
    requires p > 0
    ensures x / (2 * p) == x / 2 / p
  {
    DivMod(x / 2, p);
    var (q, r) := (x / 2 / p, x / 2 % p);
    DoubledProduct(q, p);
    DivModUnique(x, 2 * p, q, 2 * r + x % 2);
  }

  lemma NextPower(i: nat)
    ensures Pow2(i + 1) == 2 * Pow2(i) > 0
  {
    Pow2Positive(i);
  }

  lemma LowestBit(x: nat)
    ensures Bit(x, 0) == x % 2
  {
  }

  lemma NextBit(x: nat, i: nat)
    ensures Bit(x, i + 1) == Bit(x / 2, i)
  {
    hide Pow2;
    NextPower(i);
    HalveThenDivide(x, Pow2(i));
  }

  lemma {:induction false} XorBitsBit(x: nat, y: nat, bits: nat, i: nat)
    requires i < bits
    ensures Bit(XorBits(x, y, bits), i) == (Bit(x, i) + Bit(y, i)) % 2
  {
    hide Bit, XorBits;
    var r := XorBits(x, y, bits);
    XorBitsParts(x, y, bits);
    if i == 0 {
      LowestBit(x);
      LowestBit(y);
      LowestBit(r);
      ParityOfSum(x, y);
    } else {
      NextBit(x, i - 1);
      NextBit(y, i - 1);
      NextBit(r, i - 1);
      XorBitsBit(x / 2, y / 2, bits - 1, i - 1);
    }
  }

  lemma ParityOfSum(x: nat, y: nat)
    ensures (x + y) % 2 == (x % 2 + y % 2) % 2
  {
  }

  lemma {:induction false} BitsDetermine(x: nat, y: nat, bits: nat)
    requires x < Pow2(bits) && y < Pow2(bits)
    requires forall i :: 0 <= i < bits ==> Bit(x, i) == Bit(y, i)
    ensures x == y
  {
    hide Bit, Pow2;
    HalfBelow(x, bits);
    HalfBelow(y, bits);
    if bits > 0 {
      assert Bit(x, 0) == Bit(y, 0);
      LowestBit(x);
      LowestBit(y);
      forall i | 0 <= i < bits - 1 ensures Bit(x / 2, i) == Bit(y / 2, i) {
        NextBit(x, i);
        NextBit(y, i);
        assert Bit(x, i + 1) == Bit(y, i + 1);
      }
      BitsDetermine(x / 2, y / 2, bits - 1);
      HalfAndParity(x, y);
    }
  }

  lemma BytesWithEqualBits(x: byte, y: byte)
    requires forall i :: 0 <= i < 8 ==> Bit(x, i) == Bit(y, i)
    ensures x == y
  {
    hide Bit;
    assert Pow2(8) == 0x100;
    BitsDetermine(x, y, 8);
  }

  /** Exclusive or is the one byte whose bits are the parities. */
  lemma XorExactly(r: byte, x: byte, y: byte)
    ensures Parity(r, x, y) <==> r == Xor(x, y)
  {
    hide Bit, XorBits;
    forall i | 0 <= i < 8 ensures Bit(Xor(x, y), i) == (Bit(x, i) + Bit(y, i)) % 2 {
      XorBitsBit(x, y, 8, i);
    }
    if Parity(r, x, y) {
      BytesWithEqualBits(r, Xor(x, y));
    }
  }

  lemma XorBytesExactly(r: seq<byte>, a: seq<byte>, b: seq<byte>)
    requires |r| == |a| == |b|
    ensures r == XorBytes(a, b) <==> forall k :: 0 <= k < |a| ==> Parity(r[k], a[k], b[k])
  {
    hide Parity, Xor;
    forall k | 0 <= k < |a| ensures Parity(r[k], a[k], b[k]) <==> r[k] == XorBytes(a, b)[k] {
      XorExactly(r[k], a[k], b[k]);
    }
  }

  /** With one byte fixed, a change of the other changes the result. */
  lemma XorTellsApart(x: byte, y: byte, y': byte)
    requires y != y'
    ensures Xor(x, y) != Xor(x, y')
  {
    hide Bit, Xor;
    if Xor(x, y) == Xor(x, y') {
      XorExactly(Xor(x, y), x, y);
      XorExactly(Xor(x, y'), x, y');
      forall i | 0 <= i < 8 ensures Bit(y, i) == Bit(y', i) {
        SameParity(x, y, y', i);
      }
      BytesWithEqualBits(y, y');
    }
  }

  lemma SameParity(x: nat, y: nat, y': nat, i: nat)
    requires (Bit(x, i) + Bit(y, i)) % 2 == (Bit(x, i) + Bit(y', i)) % 2
    ensures Bit(y, i) == Bit(y', i)
  {
  }
}
