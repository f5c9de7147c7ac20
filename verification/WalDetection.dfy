/** Which damage the checksum chain shows: the exact condition, and files that meet it. */
module WalDetection {
  import opened Bytes
  import opened WalLayout
  import opened Wal
  import opened WalChecksums

  // ----- one chunk

  lemma AddCancels(x: u32, y: u32, z: u32)
    ensures WrappingAdd(x, z) == WrappingAdd(y, z) <==> x == y
    ensures WrappingAdd(z, x) == WrappingAdd(z, y) <==> x == y
  {
  }

  /** One step loses nothing: with equal words it keeps different sums apart. */
  lemma AbsorbKeepsApart(s: Sums, t: Sums, x: u32, y: u32)
    ensures Absorb(s, x, y) == Absorb(t, x, y) <==> s == t
  {
    hide WrappingAdd;
    var (s', t') := (Absorb(s, x, y), Absorb(t, x, y));
    if s' == t' {
      AddCancels(WrappingAdd(s.b, y), WrappingAdd(t.b, y), s'.a);
      AddCancels(s.b, t.b, y);
      AddCancels(WrappingAdd(s.a, x), WrappingAdd(t.a, x), s.b);
      AddCancels(s.a, t.a, x);
    }
  }

  /** ... and from equal sums it tells different words apart. */
  lemma AbsorbTellsApart(s: Sums, x: u32, y: u32, x': u32, y': u32)
    ensures Absorb(s, x, y) == Absorb(s, x', y') <==> x == x' && y == y'
  {
    hide WrappingAdd;
    var (t, t') := (Absorb(s, x, y), Absorb(s, x', y'));
    if t == t' {
      AddCancels(WrappingAdd(s.a, x), WrappingAdd(s.a, x'), s.b);
      AddCancels(x, x', s.a);
      AddCancels(WrappingAdd(s.b, y), WrappingAdd(s.b, y'), t.a);
      AddCancels(y, y', s.b);
    }
  }

  lemma AddSolves(base: u32, target: u32) returns (x: u32)
    ensures WrappingAdd(base, x) == target
  {
    x := if base <= target then target - base else 0x1_0000_0000 + target - base;
  }

  lemma AbsorbReaches(s: Sums, t: Sums) returns (x: u32, y: u32)
    ensures Absorb(s, x, y) == t
  {
    hide WrappingAdd;
    var viaB := AddSolves(s.b, t.a);
    AddCommutes(viaB, s.b);
    x := AddSolves(s.a, viaB);
    var viaA := AddSolves(t.a, t.b);
    AddCommutes(viaA, t.a);
    y := AddSolves(s.b, viaA);
  }

  lemma AddCommutes(x: u32, y: u32)
    ensures WrappingAdd(x, y) == WrappingAdd(y, x)
  {
  }

  lemma WordTellsApart(little: bool, bytes: seq<byte>, other: seq<byte>)
    requires |bytes| == 4 && |other| == 4
    ensures Word(little, bytes) == Word(little, other) <==> bytes == other
  {
    if little {
      Le32Inverse(bytes);
      Le32Inverse(other);
    } else {
      Be32Inverse(bytes);
      Be32Inverse(other);
    }
  }

  lemma ChunkTellsApart(little: bool, s: Sums, chunk: seq<byte>, other: seq<byte>)
    requires |chunk| == 8 && |other| == 8 && chunk != other
    ensures AbsorbChunk(little, s, chunk) != AbsorbChunk(little, s, other)
  {
    hide Word, Absorb;
    assert chunk == chunk[..4] + chunk[4..] && other == other[..4] + other[4..];
    WordTellsApart(little, chunk[..4], other[..4]);
    WordTellsApart(little, chunk[4..], other[4..]);
    AbsorbTellsApart(s, Word(little, chunk[..4]), Word(little, chunk[4..]), Word(little, other[..4]),
                     Word(little, other[4..]));
  }

  lemma {:induction false} RunKeepsApart(little: bool, s: Sums, t: Sums, body: seq<byte>)
    ensures Run(little, s, body) == Run(little, t, body) <==> s == t
    decreases |body|
  {
    hide Word, Absorb;
    if |body| >= 8 {
      AbsorbKeepsApart(s, t, Word(little, body[..8][..4]), Word(little, body[..8][4..]));
      RunKeepsApart(little, AbsorbChunk(little, s, body[..8]), AbsorbChunk(little, t, body[..8]), body[8..]);
    }
  }

  /** The bodies differ in chunk `i` and nowhere else. */
  predicate DifferInChunk(body: seq<byte>, other: seq<byte>, i: nat) {
    && |body| == |other| && 8 * i + 8 <= |body|
    && body[..8 * i] == other[..8 * i] && body[8 * i + 8..] == other[8 * i + 8..]
    && body[8 * i..8 * i + 8] != other[8 * i..8 * i + 8]
  }

  lemma {:induction false} RunDetects(little: bool, s: Sums, body: seq<byte>, other: seq<byte>, i: nat)
    requires DifferInChunk(body, other, i)
    ensures Run(little, s, body) != Run(little, s, other)
    decreases i
  {
    hide AbsorbChunk;
    if i == 0 {
      ChunkTellsApart(little, s, body[..8], other[..8]);
      RunKeepsApart(little, AbsorbChunk(little, s, body[..8]), AbsorbChunk(little, s, other[..8]), body[8..]);
    } else {
      ChunkShift(body, other, i);
      RunDetects(little, AbsorbChunk(little, s, body[..8]), body[8..], other[8..], i - 1);
    }
  }

  lemma ChunkShift(body: seq<byte>, other: seq<byte>, i: nat)
    requires i > 0 && DifferInChunk(body, other, i)
    ensures body[..8] == other[..8] && DifferInChunk(body[8..], other[8..], i - 1)
  {
    var j := 8 * (i - 1);
    assert body[..8] == body[..8 * i][..8] == other[..8 * i][..8] == other[..8];
    assert body[8..][..j] == body[..8 * i][8..] == other[..8 * i][8..] == other[8..][..j];
    assert body[8..][j + 8..] == body[8 * i + 8..] && other[8..][j + 8..] == other[8 * i + 8..];
    assert body[8..][j..j + 8] == body[8 * i..8 * i + 8] && other[8..][j..j + 8] == other[8 * i..8 * i + 8];
  }

  // ----- the exact condition: word differences, absorbed on their own

  const ZERO: Sums := Sums(0, 0)

  function WrappingSub(x: u32, y: u32): u32 {
    (x as int - y) % 0x1_0000_0000
  }

  function Minus(s: Sums, t: Sums): Sums {
    Sums(WrappingSub(s.a, t.a), WrappingSub(s.b, t.b))
  }

  /** Absorbs the differences of the words of two bodies. */
  function DiffRun(little: bool, d: Sums, body: seq<byte>, other: seq<byte>): Sums
    requires |body| == |other|
    decreases |body|
  {
    if |body| < 8 then d else
    DiffRun(little, AbsorbDifference(little, d, body[..8], other[..8]), body[8..], other[8..])
  }

  function AbsorbDifference(little: bool, d: Sums, chunk: seq<byte>, other: seq<byte>): Sums
    requires |chunk| == |other| == 8
  {
    Absorb(d, WrappingSub(Word(little, chunk[..4]), Word(little, other[..4])),
           WrappingSub(Word(little, chunk[4..]), Word(little, other[4..])))
  }

  lemma AddByCases(x: u32, y: u32)
    ensures WrappingAdd(x, y) == if x as int + y < 0x1_0000_0000 then x as int + y else x as int + y - 0x1_0000_0000
  {
  }

  lemma SubByCases(x: u32, y: u32)
    ensures WrappingSub(x, y) == if y <= x then x as int - y else x as int - y + 0x1_0000_0000
  {
  }

  lemma SubOfSums(x: u32, y: u32, x': u32, y': u32)
    ensures WrappingSub(WrappingAdd(x, y), WrappingAdd(x', y')) == WrappingAdd(WrappingSub(x, x'), WrappingSub(y, y'))
  {
    hide WrappingAdd, WrappingSub;
    AddByCases(x, y);
    AddByCases(x', y');
    SubByCases(x, x');
    SubByCases(y, y');
    SubByCases(WrappingAdd(x, y), WrappingAdd(x', y'));
    AddByCases(WrappingSub(x, x'), WrappingSub(y, y'));
  }

  lemma MinusIsZero(s: Sums, t: Sums)
    ensures Minus(s, t) == ZERO <==> s == t
  {
  }

  /** The step is linear: sums that differ stay apart by what the word differences make of their distance. */
  lemma AbsorbIsLinear(s: Sums, t: Sums, x: u32, y: u32, x': u32, y': u32)
    ensures Minus(Absorb(s, x, y), Absorb(t, x', y')) == Absorb(Minus(s, t), WrappingSub(x, x'), WrappingSub(y, y'))
  {
    hide WrappingAdd, WrappingSub;
    var (a, a') := (Absorb(s, x, y).a, Absorb(t, x', y').a);
    SubOfSums(s.a, x, t.a, x');
    SubOfSums(WrappingAdd(s.a, x), s.b, WrappingAdd(t.a, x'), t.b);
    SubOfSums(s.b, y, t.b, y');
    SubOfSums(WrappingAdd(s.b, y), a, WrappingAdd(t.b, y'), a');
  }

  lemma {:induction false} RunIsLinear(little: bool, s: Sums, t: Sums, body: seq<byte>, other: seq<byte>)
    requires |body| == |other|
    ensures Minus(Run(little, s, body), Run(little, t, other)) == DiffRun(little, Minus(s, t), body, other)
    decreases |body|
  {
    hide Absorb, Minus, Word, WrappingSub;
    if |body| >= 8 {
      AbsorbIsLinear(s, t, Word(little, body[..8][..4]), Word(little, body[..8][4..]),
                     Word(little, other[..8][..4]), Word(little, other[..8][4..]));
      RunIsLinear(little, AbsorbChunk(little, s, body[..8]), AbsorbChunk(little, t, other[..8]), body[8..], other[8..]);
    }
  }

  /** Whatever came before, two bodies give the same checksum exactly when their differences absorb to zero. */
  lemma HiddenExactly(little: bool, s: Sums, body: seq<byte>, other: seq<byte>)
    requires |body| == |other|
    ensures Run(little, s, body) == Run(little, s, other) <==> DiffRun(little, ZERO, body, other) == ZERO
  {
    hide Run, DiffRun, Minus;
    MinusIsZero(s, s);
    MinusIsZero(Run(little, s, body), Run(little, s, other));
    RunIsLinear(little, s, s, body, other);
  }

  /** Damage to a single chunk never meets the condition. */
  lemma OneChunkIsNeverHidden(little: bool, body: seq<byte>, other: seq<byte>, i: nat)
    requires DifferInChunk(body, other, i)
    ensures DiffRun(little, ZERO, body, other) != ZERO
  {
    hide Run, DiffRun;
    HiddenExactly(little, ZERO, body, other);
    RunDetects(little, ZERO, body, other, i);
  }

  // ----- whole files

  /** The distance of the two chains after `k` frames, computed from the word differences alone. */
  function DiffChain(wal: seq<byte>, other: seq<byte>, pageSize: nat, n: nat, k: nat): Sums
    requires IsWal(wal, pageSize, n) && IsWal(other, pageSize, n) && k <= n
  {
    if k == 0 then ZERO else
    DiffRun(Little(wal), DiffChain(wal, other, pageSize, n, k - 1),
            Body(pageSize, Frame(wal, pageSize, n, k - 1)), Body(pageSize, Frame(other, pageSize, n, k - 1)))
  }

  lemma {:induction false} ChainIsLinear(wal: seq<byte>, other: seq<byte>, pageSize: nat, n: nat, k: nat)
    requires IsWal(wal, pageSize, n) && IsWal(other, pageSize, n) && k <= n
    requires wal[..HEADER_SIZE] == other[..HEADER_SIZE]
    ensures Minus(Chain(wal, pageSize, n, k), Chain(other, pageSize, n, k)) == DiffChain(wal, other, pageSize, n, k)
  {
    hide Frame, Run, DiffRun, Body, Minus;
    HeaderFields(wal, other);
    if k == 0 {
      MinusIsZero(Chain(wal, pageSize, n, 0), Chain(other, pageSize, n, 0));
    } else {
      ChainIsLinear(wal, other, pageSize, n, k - 1);
      RunIsLinear(Little(wal), Chain(wal, pageSize, n, k - 1), Chain(other, pageSize, n, k - 1),
                  Body(pageSize, Frame(wal, pageSize, n, k - 1)), Body(pageSize, Frame(other, pageSize, n, k - 1)));
    }
  }

  /** Under one header, two files agree in a cumulative checksum exactly when the differences so far absorb to zero. */
  lemma ChainsAgreeExactly(wal: seq<byte>, other: seq<byte>, pageSize: nat, n: nat, k: nat)
    requires IsWal(wal, pageSize, n) && IsWal(other, pageSize, n) && k <= n
    requires wal[..HEADER_SIZE] == other[..HEADER_SIZE]
    ensures Chain(wal, pageSize, n, k) == Chain(other, pageSize, n, k) <==>
            DiffChain(wal, other, pageSize, n, k) == ZERO
  {
    hide Chain, DiffChain, Minus;
    ChainIsLinear(wal, other, pageSize, n, k);
    MinusIsZero(Chain(wal, pageSize, n, k), Chain(other, pageSize, n, k));
  }

  /** The files have the same header, and the same checksummed bytes except in frame `damaged`. */
  predicate DamagedFrame(wal: seq<byte>, other: seq<byte>, pageSize: nat, n: nat, damaged: nat)
    requires IsWal(wal, pageSize, n) && IsWal(other, pageSize, n) && damaged < n
  {
    && wal[..HEADER_SIZE] == other[..HEADER_SIZE]
    && forall k {:trigger Frame(wal, pageSize, n, k)} {:trigger Frame(other, pageSize, n, k)} ::
         0 <= k < n && k != damaged ==>
           Body(pageSize, Frame(wal, pageSize, n, k)) == Body(pageSize, Frame(other, pageSize, n, k))
  }

  /** The word differences within the damaged frame, absorbed from zero. */
  function FrameDifference(wal: seq<byte>, other: seq<byte>, pageSize: nat, n: nat, damaged: nat): Sums
    requires IsWal(wal, pageSize, n) && IsWal(other, pageSize, n) && damaged < n
  {
    DiffRun(Little(wal), ZERO, Body(pageSize, Frame(wal, pageSize, n, damaged)),
            Body(pageSize, Frame(other, pageSize, n, damaged)))
  }

  /**
   * Damage to one frame leaves every earlier checksum as it was, and changes that frame's and every later one, unless
   * its word differences absorb from zero to zero: then it changes none.
   */
  lemma {:induction false} FrameDamageExactly(wal: seq<byte>, other: seq<byte>, pageSize: nat, n: nat, damaged: nat,
                                              k: nat)
    requires IsWal(wal, pageSize, n) && IsWal(other, pageSize, n) && damaged < n && k <= n
    requires DamagedFrame(wal, other, pageSize, n, damaged)
    ensures Chain(wal, pageSize, n, k) == Chain(other, pageSize, n, k) <==>
            k <= damaged || FrameDifference(wal, other, pageSize, n, damaged) == ZERO
    decreases k
  {
    hide Frame, Run, DiffRun, Body;
    HeaderFields(wal, other);
    if k > 0 {
      FrameDamageExactly(wal, other, pageSize, n, damaged, k - 1);
      var (s, t) := (Chain(wal, pageSize, n, k - 1), Chain(other, pageSize, n, k - 1));
      var (frame, frame') := (Frame(wal, pageSize, n, k - 1), Frame(other, pageSize, n, k - 1));
      if k - 1 == damaged {
        HiddenExactly(Little(wal), s, Body(pageSize, frame), Body(pageSize, frame'));
      } else {
        RunKeepsApart(Little(wal), s, t, Body(pageSize, frame));
      }
    }
  }

  predicate ChainsAgree(wal: seq<byte>, other: seq<byte>, pageSize: nat, n: nat, k: nat)
    requires IsWal(wal, pageSize, n) && IsWal(other, pageSize, n) && k <= n
  {
    forall i :: 0 <= i <= k ==> Chain(wal, pageSize, n, i) == Chain(other, pageSize, n, i)
  }

  predicate EachFrameHides(wal: seq<byte>, other: seq<byte>, pageSize: nat, n: nat, k: nat)
    requires IsWal(wal, pageSize, n) && IsWal(other, pageSize, n) && k <= n
  {
    forall j :: 0 <= j < k ==> FrameDifference(wal, other, pageSize, n, j) == ZERO
  }

  /** Under one header, damage to any frames shows in no checksum exactly when it is hidden in each frame by itself. */
  lemma {:induction false} HiddenEverywhereExactly(wal: seq<byte>, other: seq<byte>, pageSize: nat, n: nat, k: nat)
    requires IsWal(wal, pageSize, n) && IsWal(other, pageSize, n) && k <= n
    requires wal[..HEADER_SIZE] == other[..HEADER_SIZE]
    ensures ChainsAgree(wal, other, pageSize, n, k) <==> EachFrameHides(wal, other, pageSize, n, k)
  {
    hide Frame, Run, DiffRun, Body;
    HeaderFields(wal, other);
    if k > 0 {
      HiddenEverywhereExactly(wal, other, pageSize, n, k - 1);
      var s := Chain(wal, pageSize, n, k - 1);
      HiddenExactly(Little(wal), s, Body(pageSize, Frame(wal, pageSize, n, k - 1)),
                    Body(pageSize, Frame(other, pageSize, n, k - 1)));
      assert ChainsAgree(wal, other, pageSize, n, k - 1) ==>
          (Chain(wal, pageSize, n, k) == Chain(other, pageSize, n, k) <==>
           FrameDifference(wal, other, pageSize, n, k - 1) == ZERO);
    }
  }

  /** The damage to frame `damaged` is confined to chunk `i` of its checksummed bytes. */
  predicate DamagedOnce(wal: seq<byte>, other: seq<byte>, pageSize: nat, n: nat, damaged: nat, i: nat)
    requires IsWal(wal, pageSize, n) && IsWal(other, pageSize, n) && damaged < n
  {
    && DamagedFrame(wal, other, pageSize, n, damaged)
    && DifferInChunk(Body(pageSize, Frame(wal, pageSize, n, damaged)),
                     Body(pageSize, Frame(other, pageSize, n, damaged)), i)
  }

  /** A change confined to one eight-byte chunk alters the cumulative checksum of its frame and of every later frame. */
  lemma DamageIsDetected(wal: seq<byte>, other: seq<byte>, pageSize: nat, n: nat, damaged: nat, i: nat, k: nat)
    requires IsWal(wal, pageSize, n) && IsWal(other, pageSize, n) && damaged < n && k <= n
    requires DamagedOnce(wal, other, pageSize, n, damaged, i)
    ensures Chain(wal, pageSize, n, k) == Chain(other, pageSize, n, k) <==> k <= damaged
  {
    hide Frame, Chain, DiffRun, Body, DifferInChunk, DamagedFrame;
    OneChunkIsNeverHidden(Little(wal), Body(pageSize, Frame(wal, pageSize, n, damaged)),
                          Body(pageSize, Frame(other, pageSize, n, damaged)), i);
    FrameDamageExactly(wal, other, pageSize, n, damaged, k);
  }

  // ----- damage that stays hidden

  lemma {:induction false} RunInParts(little: bool, s: Sums, front: seq<byte>, back: seq<byte>)
    requires |front| % 8 == 0
    ensures Run(little, s, front + back) == Run(little, Run(little, s, front), back)
    decreases |front|
  {
    hide AbsorbChunk;
    if front == [] {
      assert front + back == back;
    } else {
      assert (front + back)[..8] == front[..8] && (front + back)[8..] == front[8..] + back;
      RunInParts(little, AbsorbChunk(little, s, front[..8]), front[8..], back);
    }
  }

  /** For any other first chunk there is another second chunk after which the sums are the same again. */
  lemma Compensate(little: bool, s: Sums, chunk: seq<byte>, next: seq<byte>, chunk': seq<byte>)
    returns (next': seq<byte>)
    requires |chunk| == |next| == |chunk'| == 8 && chunk != chunk'
    ensures |next'| == 8 && next' != next
    ensures AbsorbChunk(little, AbsorbChunk(little, s, chunk), next)
            == AbsorbChunk(little, AbsorbChunk(little, s, chunk'), next')
  {
    hide Absorb, Word;
    var (t, t') := (AbsorbChunk(little, s, chunk), AbsorbChunk(little, s, chunk'));
    var x, y := AbsorbReaches(t', AbsorbChunk(little, t, next));
    var first := WordExists(little, x);
    var second := WordExists(little, y);
    next' := first + second;
    assert next'[..4] == first && next'[4..] == second;
    ChunkTellsApart(little, s, chunk, chunk');
    AbsorbKeepsApart(t, t', Word(little, next[..4]), Word(little, next[4..]));
  }

  lemma WordExists(little: bool, x: u32) returns (bytes: seq<byte>)
    ensures |bytes| == 4 && Word(little, bytes) == x
  {
    Be32RoundTrip(x);
    var be := ToBe32(x);
    bytes := if little then [be[3], be[2], be[1], be[0]] else be;
    assert [be[0], be[1], be[2], be[3]] == be;
  }

  lemma TwoChunks(little: bool, s: Sums, first: seq<byte>, second: seq<byte>)
    requires |first| == |second| == 8
    ensures Run(little, s, first + second) == AbsorbChunk(little, AbsorbChunk(little, s, first), second)
  {
    hide AbsorbChunk;
    RunInParts(little, s, first, second);
    assert first[8..] == [] && second[8..] == [] && first[..8] == first && second[..8] == second;
    assert Run(little, s, first) == Run(little, AbsorbChunk(little, s, first), []);
  }

  lemma HiddenInBody(little: bool, s: Sums, body: seq<byte>, at: nat, pair: seq<byte>)
    requires at % 8 == 0 && at + 16 <= |body| && |pair| == 16
    requires var before := Run(little, s, body[..at]);
             Run(little, before, body[at..at + 16]) == Run(little, before, pair)
    ensures Run(little, s, Splice(body, at, pair)) == Run(little, s, body)
  {
    hide Run;
    var (front, back) := (body[..at], body[at + 16..]);
    assert body == front + (body[at..at + 16] + back) && Splice(body, at, pair) == front + (pair + back);
    RunInParts(little, s, front, body[at..at + 16] + back);
    RunInParts(little, s, front, pair + back);
    RunInParts(little, Run(little, s, front), body[at..at + 16], back);
    RunInParts(little, Run(little, s, front), pair, back);
  }

  /** The new contents of the two chunks at `at` that change the first to `chunk'` and keep the checksum. */
  lemma HidingPair(little: bool, s: Sums, body: seq<byte>, at: nat, chunk': seq<byte>) returns (pair: seq<byte>)
    requires at % 8 == 0 && at + 16 <= |body| && |chunk'| == 8 && chunk' != body[at..at + 8]
    ensures |pair| == 16 && pair[..8] == chunk' && pair[8..] != body[at + 8..at + 16]
    ensures Run(little, s, Splice(body, at, pair)) == Run(little, s, body)
  {
    hide Run, AbsorbChunk, Splice;
    var before := Run(little, s, body[..at]);
    var (chunk, next) := (body[at..at + 8], body[at + 8..at + 16]);
    var next' := Compensate(little, before, chunk, next, chunk');
    pair := chunk' + next';
    assert body[at..at + 16] == chunk + next;
    TwoChunks(little, before, chunk, next);
    TwoChunks(little, before, chunk', next');
    HiddenInBody(little, s, body, at, pair);
  }

  /**
   * Any payload chunk that has another behind it in its frame can be changed to anything, with a change to that next
   * chunk, so that no checksum of the chain changes: of a consistent file this makes another consistent file.
   */
  lemma TwoChunksCanHide(wal: seq<byte>, pageSize: nat, n: nat, j: nat, at: nat, chunk': seq<byte>)
    returns (pair: seq<byte>, other: seq<byte>)
    requires IsWal(wal, pageSize, n) && j < n && at % 8 == 0 && at + 16 <= pageSize
    requires |chunk'| == 8 && chunk' != Payload(Frame(wal, pageSize, n, j))[at..at + 8]
    ensures |pair| == 16 && pair[..8] == chunk' && pair[8..] != Payload(Frame(wal, pageSize, n, j))[at + 8..at + 16]
    ensures other == PatchPayload(wal, pageSize, n, j, at, pair)
    ensures DamagedFrame(wal, other, pageSize, n, j)
    ensures forall k :: 0 <= k <= n ==> Chain(other, pageSize, n, k) == Chain(wal, pageSize, n, k)
    ensures Consistent(wal, pageSize, n) ==> Consistent(other, pageSize, n)
  {
    hide Frame, Chain, Run, PatchPayload, Splice, DiffRun, Body;
    var frame := Frame(wal, pageSize, n, j);
    var body := Body(pageSize, frame);
    BodyPayload(pageSize, frame, at);
    pair := HidingPair(Little(wal), Chain(wal, pageSize, n, j), body, 8 + at, chunk');
    other := PatchPayload(wal, pageSize, n, j, at, pair);
    PatchedHeader(wal, pageSize, n, j, at, pair);
    forall k | 0 <= k < n
      ensures Frame(other, pageSize, n, k)
           == if k == j then Splice(frame, FRAME_HEADER_SIZE + at, pair) else Frame(wal, pageSize, n, k)
    {
      PatchedFrame(wal, pageSize, n, j, at, pair, k);
    }
    PatchedBody(pageSize, frame, at, pair);
    HiddenExactly(Little(wal), Chain(wal, pageSize, n, j), body, Body(pageSize, Frame(other, pageSize, n, j)));
    forall k | 0 <= k <= n ensures Chain(other, pageSize, n, k) == Chain(wal, pageSize, n, k) {
      FrameDamageExactly(wal, other, pageSize, n, j, k);
    }
    PatchKeepsSums(frame, at, pair);
  }

  lemma BodyPayload(pageSize: nat, frame: seq<byte>, at: nat)
    requires |frame| == FrameSize(pageSize) && at + 16 <= pageSize
    ensures Body(pageSize, frame)[8 + at..8 + at + 8] == Payload(frame)[at..at + 8]
    ensures Body(pageSize, frame)[8 + at + 8..8 + at + 16] == Payload(frame)[at + 8..at + 16]
  {
  }

  lemma PatchKeepsSums(frame: seq<byte>, at: nat, t: seq<byte>)
    requires FRAME_HEADER_SIZE + at + |t| <= |frame|
    ensures StoredSums(Splice(frame, FRAME_HEADER_SIZE + at, t)) == StoredSums(frame)
  {
    SpliceParts(frame, FRAME_HEADER_SIZE + at, t, 16, 20);
    SpliceParts(frame, FRAME_HEADER_SIZE + at, t, 20, 24);
  }

  /** A smallest example: one all-zero frame with a 16-byte page, and the damage that no checksum shows. */
  const HIDDEN_DAMAGE: seq<byte> := [0, 0, 0, 1, 0, 0, 0, 0, 0xFF, 0xFF, 0xFF, 0xFE, 0xFF, 0xFF, 0xFF, 0xFF]

  lemma HiddenDamageExample()
    ensures var wal := Zeros(72);
            && IsWal(wal, 16, 1) && Consistent(wal, 16, 1)
            && var other := PatchPayload(wal, 16, 1, 0, 0, HIDDEN_DAMAGE);
               other != wal && Consistent(other, 16, 1)
  {
    hide Run, Absorb, DiffRun, Frame, PatchPayload, Splice, Body, StoredSums;
    var (wal, frame) := (Zeros(72), Zeros(40));
    var other := PatchPayload(wal, 16, 1, 0, 0, HIDDEN_DAMAGE);
    var frame' := Splice(frame, 24, HIDDEN_DAMAGE);
    FrameOf(wal, 16, 1, 0);
    assert Frame(wal, 16, 1, 0) == frame;
    PatchedFrame(wal, 16, 1, 0, 0, HIDDEN_DAMAGE, 0);
    assert Frame(other, 16, 1, 0) == frame';
    PatchedHeader(wal, 16, 1, 0, 0, HIDDEN_DAMAGE);
    HeaderFields(wal, other);
    ZeroWords(wal);
    assert Chain(wal, 16, 1, 0) == Chain(other, 16, 1, 0) == ZERO && !Little(wal) && !Little(other);
    ZeroBody();
    PatchedBody(16, frame, 0, HIDDEN_DAMAGE);
    HiddenExampleBody();
    HiddenExactly(false, ZERO, Body(16, frame), Body(16, frame'));
    assert Chain(wal, 16, 1, 1) == Chain(other, 16, 1, 1) == ZERO;
    ZeroSums();
    PatchKeepsSums(frame, 0, HIDDEN_DAMAGE);
    SpliceParts(frame, 24, HIDDEN_DAMAGE, 0, 0);
    assert frame'[24..40][3] == 1 && frame[24..40][3] == 0;
  }

  lemma ZeroWords(wal: seq<byte>)
    requires wal == Zeros(72)
    ensures FromBe32(wal[..4]) == FromBe32(wal[24..28]) == FromBe32(wal[28..32]) == 0
  {
  }

  lemma ZeroSums()
    ensures StoredSums(Zeros(40)) == ZERO
  {
  }

  lemma ZeroBody()
    ensures Body(16, Zeros(40)) == Zeros(24) && Run(false, ZERO, Zeros(24)) == ZERO
  {
    hide AbsorbChunk;
    var body: seq<byte> := Zeros(24);
    assert Body(16, Zeros(40)) == body;
    assert body[..8] == Zeros(8) && body[8..][..8] == Zeros(8) && body[16..][..8] == Zeros(8);
    assert body[8..][8..] == body[16..] && body[16..][8..] == [];
    ZeroChunk();
  }

  lemma ZeroChunk()
    ensures AbsorbChunk(false, ZERO, Zeros(8)) == ZERO && AbsorbDifference(false, ZERO, Zeros(8), Zeros(8)) == ZERO
  {
    hide FromBe32;
    var word := Zeros(4);
    assert Zeros(8)[..4] == word && Zeros(8)[4..] == word;
    ZeroWord();
  }

  lemma ZeroWord()
    ensures FromBe32(Zeros(4)) == 0
  {
  }

  lemma ExampleWords()
    ensures FromBe32([0, 0, 0, 1]) == 1
    ensures FromBe32([0xFF, 0xFF, 0xFF, 0xFE]) == 0xFFFF_FFFE && FromBe32([0xFF, 0xFF, 0xFF, 0xFF]) == 0xFFFF_FFFF
  {
  }

  /** The differences -1 and 0 lead from zero to -1, -1 ... */
  lemma FirstExampleChunk()
    ensures AbsorbDifference(false, ZERO, Zeros(8), HIDDEN_DAMAGE[..8]) == Sums(0xFFFF_FFFF, 0xFFFF_FFFF)
  {
    hide FromBe32;
    assert Zeros(8)[..4] == Zeros(4) && Zeros(8)[4..] == Zeros(4);
    assert HIDDEN_DAMAGE[..8][..4] == [0, 0, 0, 1] && HIDDEN_DAMAGE[..8][4..] == Zeros(4);
    ZeroWord();
    ExampleWords();
  }

  /** ... and the differences 2 and 1 lead back to zero. */
  lemma SecondExampleChunk()
    ensures AbsorbDifference(false, Sums(0xFFFF_FFFF, 0xFFFF_FFFF), Zeros(8), HIDDEN_DAMAGE[8..]) == ZERO
  {
    hide FromBe32, Absorb, WrappingSub;
    assert Zeros(8)[..4] == Zeros(4) && Zeros(8)[4..] == Zeros(4);
    assert HIDDEN_DAMAGE[8..][..4] == [0xFF, 0xFF, 0xFF, 0xFE] && HIDDEN_DAMAGE[8..][4..] == [0xFF, 0xFF, 0xFF, 0xFF];
    ZeroWord();
    ExampleWords();
    SecondExampleSums();
  }

  lemma SecondExampleSums()
    ensures WrappingSub(0, 0xFFFF_FFFE) == 2 && WrappingSub(0, 0xFFFF_FFFF) == 1
    ensures Absorb(Sums(0xFFFF_FFFF, 0xFFFF_FFFF), 2, 1) == ZERO
  {
  }

  lemma HiddenExampleBody()
    ensures DiffRun(false, ZERO, Zeros(24), Splice(Zeros(24), 8, HIDDEN_DAMAGE)) == ZERO
  {
    hide AbsorbDifference;
    var (body, body') := (Zeros(24), Splice(Zeros(24), 8, HIDDEN_DAMAGE));
    assert body[8..][8..] == body[16..] && body'[8..][8..] == body'[16..];
    assert body[16..][8..] == [] && body'[16..][8..] == [];
    assert body[..8] == body[8..][..8] == body[16..][..8] == Zeros(8);
    assert body'[..8] == Zeros(8) && body'[8..][..8] == HIDDEN_DAMAGE[..8] && body'[16..][..8] == HIDDEN_DAMAGE[8..];
    ZeroChunk();
    FirstExampleChunk();
    SecondExampleChunk();
  }
}
