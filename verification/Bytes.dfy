/** Fixed-width integers, byte strings, and the buffer operations the other modules share. */
module Bytes {
  import opened Outcomes

  const U32_MAX: int := 0xFFFF_FFFF
  const U64_MAX: int := 0xFFFF_FFFF_FFFF_FFFF

  type byte = x: int | 0 <= x < 0x100
  type u32 = x: int | 0 <= x <= U32_MAX
  type u64 = x: int | 0 <= x <= U64_MAX

  // ----- checked and saturating arithmetic

  function CheckedAdd(x: nat, y: nat): Option<u64> {
    if x + y <= U64_MAX then Some(x + y) else None
  }

  function CheckedMul(x: nat, y: nat): Option<u64> {
    if x * y <= U64_MAX then Some(x * y) else None
  }

  function TryFromU32(x: nat): Option<u32> {
    if x <= U32_MAX then Some(x) else None
  }

  function SaturatingSub(x: nat, y: nat): nat {
    if x < y then 0 else x - y
  }

  function SaturatingAdd32(x: u32, y: u32): u32 {
    if x + y <= U32_MAX then x + y else U32_MAX
  }

  function Min(x: nat, y: nat): nat {
    if x <= y then x else y
  }

  // ----- exclusive or, bit by bit

  function Pow2(n: nat): nat {
    if n == 0 then 1 else 2 * Pow2(n - 1)
  }

  function XorBits(x: nat, y: nat, bits: nat): (r: nat)
    ensures r < Pow2(bits)
  {
    if bits == 0 then 0 else 2 * XorBits(x / 2, y / 2, bits - 1) + (x + y) % 2
  }

  function Xor(x: byte, y: byte): byte {
    assert Pow2(8) == 0x100;
    XorBits(x, y, 8)
  }

  lemma HalfBelow(x: nat, bits: nat)
    requires x < Pow2(bits)
    ensures if bits == 0 then x == 0 else x / 2 < Pow2(bits - 1)
  {
  }

  lemma HalveSum(q: nat, r: nat)
    requires r < 2
    ensures (2 * q + r) / 2 == q && (2 * q + r) % 2 == r
  {
  }

  /** Upper bits and lowest bit are combined separately. */
  lemma XorBitsParts(x: nat, y: nat, bits: nat)
    requires bits > 0
    ensures var r := XorBits(x, y, bits); r / 2 == XorBits(x / 2, y / 2, bits - 1) && r % 2 == (x + y) % 2
  {
    HalveSum(XorBits(x / 2, y / 2, bits - 1), (x + y) % 2);
  }

  lemma ParityCancels(x: nat, y: nat, r: nat)
    requires r % 2 == (x + y) % 2
    ensures (r + y) % 2 == x % 2
    ensures r % 2 == x % 2 ==> y % 2 == 0
  {
  }

  lemma HalfAndParity(x: nat, y: nat)
    requires x / 2 == y / 2 && x % 2 == y % 2
    ensures x == y
  {
  }

  lemma {:induction false} XorBitsCancels(x: nat, y: nat, bits: nat)
    requires x < Pow2(bits)
    ensures XorBits(XorBits(x, y, bits), y, bits) == x
  {
    hide Pow2;
    HalfBelow(x, bits);
    if bits > 0 {
      hide XorBits;
      var r := XorBits(x, y, bits);
      XorBitsParts(x, y, bits);
      XorBitsParts(r, y, bits);
      XorBitsCancels(x / 2, y / 2, bits - 1);
      ParityCancels(x, y, r);
      HalfAndParity(XorBits(r, y, bits), x);
    }
  }

  lemma XorCancels(x: byte, y: byte)
    ensures Xor(Xor(x, y), y) == x
  {
    assert Pow2(8) == 0x100;
    XorBitsCancels(x, y, 8);
  }

  lemma {:induction false} XorBitsChanges(x: nat, y: nat, bits: nat)
    requires x < Pow2(bits) && y < Pow2(bits) && XorBits(x, y, bits) == x
    ensures y == 0
  {
    hide Pow2, XorBits;
    HalfBelow(x, bits);
    HalfBelow(y, bits);
    if bits > 0 {
      XorBitsParts(x, y, bits);
      XorBitsChanges(x / 2, y / 2, bits - 1);
      ParityCancels(x, y, x);
      HalfAndParity(y, 0);
    }
  }

  lemma XorChanges(x: byte, y: byte)
    requires y != 0
    ensures Xor(x, y) != x
  {
    assert Pow2(8) == 0x100;
    if Xor(x, y) == x {
      XorBitsChanges(x, y, 8);
    }
  }

  function XorBytes(a: seq<byte>, b: seq<byte>): (r: seq<byte>)
    requires |a| == |b|
    ensures |r| == |a|
  {
    seq(|a|, i requires 0 <= i < |a| => Xor(a[i], b[i]))
  }

  lemma XorBytesCancels(a: seq<byte>, b: seq<byte>)
    requires |a| == |b|
    ensures XorBytes(XorBytes(a, b), b) == a
  {
    forall i | 0 <= i < |a| ensures Xor(Xor(a[i], b[i]), b[i]) == a[i] {
      XorCancels(a[i], b[i]);
    }
  }

  // ----- four-byte words

  function ToBe32(x: u32): (r: seq<byte>)
    ensures |r| == 4
  {
    var high := x / 0x100;
    var higher := high / 0x100;
    [higher / 0x100, higher % 0x100, high % 0x100, x % 0x100]
  }

  function ToLe32(x: u32): (r: seq<byte>)
    ensures |r| == 4
  {
    var be := ToBe32(x);
    [be[3], be[2], be[1], be[0]]
  }

  function FromBe32(s: seq<byte>): u32
    requires |s| == 4
  {
    ((s[0] as int * 0x100 + s[1]) * 0x100 + s[2]) * 0x100 + s[3]
  }

  function FromLe32(s: seq<byte>): u32
    requires |s| == 4
  {
    FromBe32([s[3], s[2], s[1], s[0]])
  }

  lemma Be32RoundTrip(x: u32)
    ensures FromBe32(ToBe32(x)) == x
  {
  }

  lemma Le32RoundTrip(x: u32)
    ensures FromLe32(ToLe32(x)) == x
  {
    var be := ToBe32(x);
    assert [be[0], be[1], be[2], be[3]] == be;
    Be32RoundTrip(x);
  }

  lemma LowByte(q: int, r: byte)
    ensures (q * 0x100 + r) / 0x100 == q && (q * 0x100 + r) % 0x100 == r
  {
  }

  lemma Be32Inverse(s: seq<byte>)
    requires |s| == 4
    ensures ToBe32(FromBe32(s)) == s
  {
    var upper := s[0] as int * 0x100 + s[1];
    LowByte(upper * 0x100 + s[2], s[3]);
    LowByte(upper, s[2]);
    LowByte(s[0], s[1]);
  }

  lemma Le32Inverse(s: seq<byte>)
    requires |s| == 4
    ensures ToLe32(FromLe32(s)) == s
  {
    hide FromBe32, ToBe32;
    Be32Inverse([s[3], s[2], s[1], s[0]]);
  }

  // ----- buffers

  function Zeros(n: nat): (r: seq<byte>)
    ensures |r| == n && forall i :: 0 <= i < n ==> r[i] == 0
  {
    seq(n, _ => 0)
  }

  /** `s` with `t` written over it from position `at`. */
  function Splice<T>(s: seq<T>, at: nat, t: seq<T>): (r: seq<T>)
    requires at + |t| <= |s|
    ensures |r| == |s|
  {
    s[..at] + t + s[at + |t|..]
  }

  lemma SpliceGrows(original: seq<byte>, lo: nat, done: seq<byte>, block: seq<byte>)
    requires lo + |done| + |block| <= |original|
    ensures Splice(Splice(original, lo, done), lo + |done|, block) == Splice(original, lo, done + block)
  {
  }

  lemma SpliceParts<T>(s: seq<T>, at: nat, t: seq<T>, from: nat, to: nat)
    requires at + |t| <= |s| && from <= to <= |s|
    ensures to <= at || at + |t| <= from ==> Splice(s, at, t)[from..to] == s[from..to]
    ensures Splice(s, at, t)[at..at + |t|] == t
  {
  }

  /** The first `done` bytes of the output are those of `source` from `offset` on. */
  ghost predicate Holds(output: seq<byte>, done: nat, source: seq<byte>, offset: nat) {
    done <= |output| && offset + done <= |source| && output[..done] == source[offset..offset + done]
  }

  lemma NothingHeld(output: seq<byte>, source: seq<byte>, offset: nat)
    requires offset <= |source|
    ensures Holds(output, 0, source, offset)
  {
  }

  lemma AllHeld(output: seq<byte>, source: seq<byte>, offset: nat)
    requires Holds(output, |output|, source, offset)
    ensures offset + |output| <= |source| && output == source[offset..offset + |output|]
  {
  }

  lemma PieceAppended(output: seq<byte>, done: nat, source: seq<byte>, offset: nat, piece: seq<byte>)
    requires Holds(output, done, source, offset)
    requires done + |piece| <= |output| && offset + done + |piece| <= |source|
    requires piece == source[offset + done..offset + done + |piece|]
    ensures Holds(Splice(output, done, piece), done + |piece|, source, offset)
  {
  }

  method CopyInto(dst: array<byte>, at: nat, src: seq<byte>)
    requires at + |src| <= dst.Length
    modifies dst
    ensures dst[..] == Splice(old(dst[..]), at, src)
  {
    forall i | 0 <= i < |src| {
      dst[at + i] := src[i];
    }
  }

  method ZeroizeFrom(dst: array<byte>, from: nat)
    requires from <= dst.Length
    modifies dst
    ensures dst[..] == old(dst[..from]) + Zeros(dst.Length - from)
  {
    forall i | from <= i < dst.Length {
      dst[i] := 0;
    }
  }

  method Zeroize(dst: array<byte>)
    modifies dst
    ensures dst[..] == Zeros(dst.Length)
  {
    ZeroizeFrom(dst, 0);
  }
}
