/** The closed form of the WAL checksums (SQLite Database File Format, section 4.2): sums with Fibonacci weights. */
module WalFibonacci {
  import opened Bytes
  import opened Pages
  import opened WalLayout
  import opened Wal
  import opened WalChecksums

  const MODULUS := 0x1_0000_0000

  /** The Fibonacci numbers 0, 1, 1, 2, ... and the one before them. */
  function Fib(n: int): nat
    requires n >= -1
  {
    if n == -1 then 1 else if n == 0 then 0 else Fib(n - 1) + Fib(n - 2)
  }

  function BigEndian(s: seq<byte>, at: nat): nat
    requires at + 4 <= |s|
  {
    0x100_0000 * s[at] as int + 0x1_0000 * s[at + 1] as int + 0x100 * s[at + 2] as int + s[at + 3]
  }

  function LittleEndian(s: seq<byte>, at: nat): nat
    requires at + 4 <= |s|
  {
    s[at] as int + 0x100 * s[at + 1] as int + 0x1_0000 * s[at + 2] as int + 0x100_0000 * s[at + 3] as int
  }

  /** The 32-bit words of the complete eight-byte chunks. */
  function Words(little: bool, body: seq<byte>): (words: seq<nat>)
    ensures |words| == 2 * (|body| / 8)
  {
    seq(2 * (|body| / 8), i requires 0 <= i < 2 * (|body| / 8) =>
      if little then LittleEndian(body, 4 * i) else BigEndian(body, 4 * i))
  }

  /** The sum of the words with Fibonacci weights that fall to Fib(last) on the last word. */
  function Weighted(words: seq<nat>, last: nat): nat {
    if words == [] then 0 else words[0] * Fib(last + |words| - 1) + Weighted(words[1..], last)
  }

  /** The weighted words and seeds; the first sum omits the last word. */
  function Series(words: seq<nat>, last: nat, a: nat, b: nat): nat {
    Weighted(words, last) + Fib(|words| + last) * b + Fib(|words| + last - 1) * a
  }

  // ----- one body

  lemma WordIs(little: bool, body: seq<byte>, at: nat)
    requires at + 4 <= |body|
    ensures Word(little, body[at..at + 4]) == if little then LittleEndian(body, at) else BigEndian(body, at)
  {
    assert body[at..at + 4] == [body[at], body[at + 1], body[at + 2], body[at + 3]];
  }

  lemma FirstWords(little: bool, body: seq<byte>)
    requires |body| >= 8
    ensures Words(little, body)
         == [Word(little, body[..8][..4]), Word(little, body[..8][4..])] + Words(little, body[8..])
  {
    hide Word, LittleEndian, BigEndian;
    var (words, rest) := (Words(little, body), Words(little, body[8..]));
    WordIs(little, body, 0);
    WordIs(little, body, 4);
    assert body[..8][..4] == body[0..4] && body[..8][4..] == body[4..8];
    forall i | 0 <= i < |rest| ensures words[i + 2] == rest[i] {
      WordIs(little, body, 4 * i + 8);
      WordIs(little, body[8..], 4 * i);
      assert body[8..][4 * i..4 * i + 4] == body[4 * i + 8..4 * i + 12];
    }
  }

  lemma SameRemainder(x: int, y: int, q: int)
    requires x == y + MODULUS * q
    ensures x % MODULUS == y % MODULUS
  {
  }

  lemma Wrapped(x: u32, y: u32) returns (q: int)
    ensures WrappingAdd(x, y) == x as int + y + MODULUS * q
  {
    q := if x as int + y < MODULUS then 0 else -1;
  }

  /** Up to multiples of the modulus, the new sums are the plain ones. */
  lemma AbsorbIsPlain(s: Sums, x: u32, y: u32) returns (p: int, q: int)
    ensures Absorb(s, x, y).a == s.a as int + x + s.b + MODULUS * p
    ensures Absorb(s, x, y).b == s.a as int + x + 2 * s.b as int + y + MODULUS * q
  {
    hide WrappingAdd;
    var p1 := Wrapped(s.a, x);
    var p2 := Wrapped(WrappingAdd(s.a, x), s.b);
    var q1 := Wrapped(s.b, y);
    var q2 := Wrapped(WrappingAdd(s.b, y), Absorb(s, x, y).a);
    p, q := p1 + p2, p1 + p2 + q1 + q2;
  }

  /** One chunk: the sum over the rest from the plain new sums is the sum over all from the old ones. */
  lemma SeriesStep(x: nat, y: nat, rest: seq<nat>, last: nat, a: nat, b: nat)
    ensures Series([x, y] + rest, last, a, b) == Series(rest, last, a + x + b, a + x + 2 * b + y)
  {
    var words := [x, y] + rest;
    var (f, g) := (Fib(|rest| + last), Fib(|rest| + last - 1));
    assert words[1..] == [y] + rest && words[1..][1..] == rest;
    assert Fib(|rest| + last + 1) == f + g && Fib(|rest| + last + 2) == 2 * f + g;
    assert Weighted(words, last) == x * (f + g) + (y * f + Weighted(rest, last));
    Regroup(x, y, a, b, f, g);
  }

  lemma Regroup(x: nat, y: nat, a: nat, b: nat, f: nat, g: nat)
    ensures x * (f + g) + y * f + (2 * f + g) * b + (f + g) * a == f * (a + x + 2 * b + y) + g * (a + x + b)
  {
  }

  lemma SeriesModulus(words: seq<nat>, last: nat, a: nat, b: nat, a': nat, b': nat, p: int, q: int)
    requires a' == a + MODULUS * p && b' == b + MODULUS * q
    ensures Series(words, last, a', b') % MODULUS == Series(words, last, a, b) % MODULUS
  {
    var (f, g) := (Fib(|words| + last), Fib(|words| + last - 1));
    assert f * b' == f * b + MODULUS * (f * q) && g * a' == g * a + MODULUS * (g * p);
    SameRemainder(Series(words, last, a', b'), Series(words, last, a, b), f * q + g * p);
  }

  /** The checksum of a body is the sum of its words and the seeds with Fibonacci weights, modulo 2^32. */
  lemma {:induction false} RunIsFibonacci(little: bool, s: Sums, body: seq<byte>)
    ensures var (r, words) := (Run(little, s, body), Words(little, body));
            && r.a == Series(words, 0, s.a, s.b) % MODULUS
            && r.b == Series(words, 1, s.a, s.b) % MODULUS
    decreases |body|
  {
    hide Word, Words, Absorb, Series;
    if |body| < 8 {
      NoWords(little, s, body);
    } else {
      var (x, y, rest) := (Word(little, body[..8][..4]), Word(little, body[..8][4..]), Words(little, body[8..]));
      var t := Absorb(s, x, y);
      RunIsFibonacci(little, t, body[8..]);
      FirstWords(little, body);
      var p, q := AbsorbIsPlain(s, x, y);
      SeriesStep(x, y, rest, 0, s.a, s.b);
      SeriesStep(x, y, rest, 1, s.a, s.b);
      SeriesModulus(rest, 0, s.a as int + x + s.b, s.a as int + x + 2 * s.b as int + y, t.a, t.b, p, q);
      SeriesModulus(rest, 1, s.a as int + x + s.b, s.a as int + x + 2 * s.b as int + y, t.a, t.b, p, q);
    }
  }

  lemma NoWords(little: bool, s: Sums, body: seq<byte>)
    requires |body| < 8
    ensures Series(Words(little, body), 0, s.a, s.b) % MODULUS == s.a
    ensures Series(Words(little, body), 1, s.a, s.b) % MODULUS == s.b
  {
  }

  // ----- whole files

  /** The sums stored in the frame at `at` follow from those stored at `from` and from the frame's own words. */
  predicate FollowsFrom(wal: seq<byte>, pageSize: nat, at: nat, from: nat)
    requires from + 8 <= |wal| && at + 24 + pageSize <= |wal|
  {
    var words := Words(BigEndian(wal, 0) == 0x377f0682, wal[at..at + 8] + wal[at + 24..at + 24 + pageSize]);
    var (a, b) := (BigEndian(wal, from), BigEndian(wal, from + 4));
    && BigEndian(wal, at + 16) == Series(words, 0, a, b) % MODULUS
    && BigEndian(wal, at + 20) == Series(words, 1, a, b) % MODULUS
  }

  /** Frame `k` follows from the frame before it, or the first one from the seeds in the file header. */
  predicate SumsFollow(wal: seq<byte>, pageSize: nat, k: nat) {
    var at := 32 + k * (pageSize + 24);
    && at + 24 + pageSize <= |wal|
    && FollowsFrom(wal, pageSize, at, if k == 0 then 24 else at - pageSize - 24 + 16)
  }

  function SumsAt(wal: seq<byte>, at: nat): Sums
    requires at + 8 <= |wal|
  {
    Sums(BigEndian(wal, at), BigEndian(wal, at + 4))
  }

  lemma BigEndianIs(s: seq<byte>, at: nat)
    requires at + 4 <= |s|
    ensures FromBe32(s[at..at + 4]) == BigEndian(s, at)
  {
  }

  lemma HeaderNumbers(wal: seq<byte>, pageSize: nat, n: nat)
    requires IsWal(wal, pageSize, n)
    ensures |wal| >= 32
    ensures Little(wal) <==> BigEndian(wal, 0) == 0x377f0682
    ensures Chain(wal, pageSize, n, 0) == SumsAt(wal, 24)
  {
    hide FromBe32, BigEndian;
    WalExtent(wal, pageSize, n);
    BigEndianIs(wal, 0);
    BigEndianIs(wal, 24);
    BigEndianIs(wal, 28);
    assert wal[..4] == wal[0..4];
  }

  lemma FrameNumbers(wal: seq<byte>, pageSize: nat, n: nat, k: nat)
    requires IsWal(wal, pageSize, n) && k < n
    ensures var at := FrameStart(pageSize, k);
            && at + 24 + pageSize <= |wal|
            && StoredSums(Frame(wal, pageSize, n, k)) == SumsAt(wal, at + 16)
            && Body(pageSize, Frame(wal, pageSize, n, k)) == wal[at..at + 8] + wal[at + 24..at + 24 + pageSize]
  {
    hide Frame, FrameStart, FromBe32, BigEndian;
    var (at, size) := (FrameStart(pageSize, k), FrameSize(pageSize));
    FrameOf(wal, pageSize, n, k);
    SliceOfSlice(wal, at, size, 0, 8);
    SliceOfSlice(wal, at, size, 16, 4);
    SliceOfSlice(wal, at, size, 20, 4);
    SliceOfSlice(wal, at, size, 24, pageSize);
    BigEndianIs(wal, at + 16);
    BigEndianIs(wal, at + 20);
  }

  lemma RunFollows(wal: seq<byte>, pageSize: nat, at: nat, from: nat)
    requires from + 8 <= |wal| && at + 24 + pageSize <= |wal|
    ensures FollowsFrom(wal, pageSize, at, from) <==>
            SumsAt(wal, at + 16) == Run(BigEndian(wal, 0) == 0x377f0682, SumsAt(wal, from),
                                        wal[at..at + 8] + wal[at + 24..at + 24 + pageSize])
  {
    hide Run, Series, Words, BigEndian;
    var little := BigEndian(wal, 0) == 0x377f0682;
    RunIsFibonacci(little, SumsAt(wal, from), wal[at..at + 8] + wal[at + 24..at + 24 + pageSize]);
  }

  lemma PreviousStart(pageSize: nat, k: nat)
    requires k > 0
    ensures FrameStart(pageSize, k) - pageSize - 24 == FrameStart(pageSize, k - 1)
  {
  }

  lemma LinkFollows(wal: seq<byte>, pageSize: nat, n: nat, k: nat)
    requires IsWal(wal, pageSize, n) && k < n
    requires k > 0 ==> StoredSums(Frame(wal, pageSize, n, k - 1)) == Chain(wal, pageSize, n, k)
    ensures StoredSums(Frame(wal, pageSize, n, k)) == Chain(wal, pageSize, n, k + 1) <==> SumsFollow(wal, pageSize, k)
  {
    hide Frame, FollowsFrom, Run, StoredSums, Body, BigEndian, SumsAt;
    HeaderNumbers(wal, pageSize, n);
    FrameNumbers(wal, pageSize, n, k);
    var at := FrameStart(pageSize, k);
    if k > 0 {
      PreviousStart(pageSize, k);
      FrameNumbers(wal, pageSize, n, k - 1);
    }
    RunFollows(wal, pageSize, at, if k == 0 then 24 else at - pageSize - 24 + 16);
  }

  lemma {:induction false} LinksFollow(wal: seq<byte>, pageSize: nat, n: nat, k: nat)
    requires IsWal(wal, pageSize, n) && k <= n
    ensures (forall i :: 0 <= i < k ==> StoredSums(Frame(wal, pageSize, n, i)) == Chain(wal, pageSize, n, i + 1)) <==>
            forall i :: 0 <= i < k ==> SumsFollow(wal, pageSize, i)
  {
    hide Frame, Chain, StoredSums, SumsFollow;
    if k > 0 {
      LinksFollow(wal, pageSize, n, k - 1);
      if forall i :: 0 <= i < k - 1 ==> StoredSums(Frame(wal, pageSize, n, i)) == Chain(wal, pageSize, n, i + 1) {
        LinkFollows(wal, pageSize, n, k - 1);
      }
    }
  }

  /**
   * A WAL is consistent exactly when the two numbers stored in each frame are the Fibonacci-weighted sums, modulo 2^32,
   * of the frame's words and of the two numbers stored before.
   */
  lemma ConsistentExactly(wal: seq<byte>, pageSize: nat, n: nat)
    requires IsWal(wal, pageSize, n)
    ensures Consistent(wal, pageSize, n) <==> forall k :: 0 <= k < n ==> SumsFollow(wal, pageSize, k)
  {
    hide SumsFollow;
    LinksFollow(wal, pageSize, n, n);
  }

  /** Repair stores these numbers in every frame. */
  lemma RepairStoresFibonacci(wal: seq<byte>, pageSize: nat, n: nat, k: nat)
    requires IsWal(wal, pageSize, n) && k < n
    ensures SumsFollow(Repaired(wal, pageSize, n, n), pageSize, k)
  {
    hide Repaired, Consistent, SumsFollow;
    RepairMakesConsistent(wal, pageSize, n);
    ConsistentExactly(Repaired(wal, pageSize, n, n), pageSize, n);
  }
}
