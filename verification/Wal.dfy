/** The cumulative WAL checksum chain (SQLite Database File Format, section 4.2) and its repair in place. */
module Wal {
  import opened Bytes
  import opened Pages
  import opened WalLayout

  const LITTLE_ENDIAN_MAGIC := 0x377f0682

  // ----- one checksum step and one frame body

  datatype Sums = Sums(a: u32, b: u32)

  function WrappingAdd(x: u32, y: u32): u32 {
    (x as int + y) % 0x1_0000_0000
  }

  function Absorb(s: Sums, x: u32, y: u32): Sums {
    var a := WrappingAdd(WrappingAdd(s.a, x), s.b);
    Sums(a, WrappingAdd(WrappingAdd(s.b, y), a))
  }

  function Word(little: bool, bytes: seq<byte>): u32
    requires |bytes| == 4
  {
    if little then FromLe32(bytes) else FromBe32(bytes)
  }

  function AbsorbChunk(little: bool, s: Sums, chunk: seq<byte>): Sums
    requires |chunk| == 8
  {
    Absorb(s, Word(little, chunk[..4]), Word(little, chunk[4..]))
  }

  /** Absorbs the body in chunks of eight bytes; an incomplete last chunk is ignored. */
  function Run(little: bool, s: Sums, body: seq<byte>): Sums
    decreases |body|
  {
    if |body| < 8 then s else Run(little, AbsorbChunk(little, s, body[..8]), body[8..])
  }

  // ----- layout

  /** A header followed by `n` complete frames. */
  predicate IsWal(wal: seq<byte>, pageSize: nat, n: nat) {
    |wal| == HEADER_SIZE + n * FrameSize(pageSize)
  }

  lemma WalExtent(wal: seq<byte>, pageSize: nat, n: nat)
    requires IsWal(wal, pageSize, n)
    ensures FrameStart(pageSize, 0) == HEADER_SIZE && FrameStart(pageSize, n) == |wal| >= HEADER_SIZE
  {
  }

  function Frame(wal: seq<byte>, pageSize: nat, n: nat, k: nat): (frame: seq<byte>)
    requires IsWal(wal, pageSize, n) && k < n
    ensures |frame| == FrameSize(pageSize)
  {
    MulMonotone(k + 1, n, FrameSize(pageSize));
    PageAt(wal[HEADER_SIZE..], FrameSize(pageSize), k)
  }

  /** The checksummed bytes: the first eight of the frame header, and the page. */
  function Body(pageSize: nat, frame: seq<byte>): (body: seq<byte>)
    requires |frame| == FrameSize(pageSize)
    ensures |body| == pageSize + 8
  {
    frame[..8] + frame[24..]
  }

  /** The stored page. */
  function Payload(frame: seq<byte>): seq<byte>
    requires |frame| >= FRAME_HEADER_SIZE
  {
    frame[FRAME_HEADER_SIZE..]
  }

  function StoredSums(frame: seq<byte>): Sums
    requires |frame| >= FRAME_HEADER_SIZE
  {
    Sums(FromBe32(frame[16..20]), FromBe32(frame[20..24]))
  }

  function Little(wal: seq<byte>): bool
    requires |wal| >= HEADER_SIZE
  {
    FromBe32(wal[..4]) == LITTLE_ENDIAN_MAGIC
  }

  /** The cumulative checksum of the header's seed and the first `k` frames. */
  function Chain(wal: seq<byte>, pageSize: nat, n: nat, k: nat): Sums
    requires IsWal(wal, pageSize, n) && k <= n
  {
    if k == 0 then Sums(FromBe32(wal[24..28]), FromBe32(wal[28..32]))
    else Run(Little(wal), Chain(wal, pageSize, n, k - 1), Body(pageSize, Frame(wal, pageSize, n, k - 1)))
  }

  predicate Consistent(wal: seq<byte>, pageSize: nat, n: nat)
    requires IsWal(wal, pageSize, n)
  {
    forall k :: 0 <= k < n ==> StoredSums(Frame(wal, pageSize, n, k)) == Chain(wal, pageSize, n, k + 1)
  }

  // ----- repair

  function SumBytes(s: Sums): (bytes: seq<byte>)
    ensures |bytes| == 8
  {
    ToBe32(s.a) + ToBe32(s.b)
  }

  /** The file after the first `k` frames have been given the checksums of the chain. */
  function Repaired(wal: seq<byte>, pageSize: nat, n: nat, k: nat): (r: seq<byte>)
    requires IsWal(wal, pageSize, n) && k <= n
    ensures IsWal(r, pageSize, n) && |r| == |wal| >= HEADER_SIZE
  {
    hide FrameStart, Chain;
    WalExtent(wal, pageSize, n);
    if k == 0 then wal else
    FrameFits(pageSize, n, k - 1);
    Splice(Repaired(wal, pageSize, n, k - 1), FrameStart(pageSize, k - 1) + 16, SumBytes(Chain(wal, pageSize, n, k)))
  }

  method RepairChecksums(wal: array<byte>, pageSize: nat, ghost n: nat)
    requires IsWal(wal[..], pageSize, n)
    modifies wal
    ensures wal[..] == Repaired(old(wal[..]), pageSize, n, n)
  {
    hide Run, Splice, FrameStart, Frame, Body, IsWal, Chain, Repaired, ToBe32, FromBe32;
    ghost var original := wal[..];
    WalExtent(original, pageSize, n);
    RepairStarts(original, pageSize, n);
    var little := FromBe32(wal[..4]) == LITTLE_ENDIAN_MAGIC;
    assert original[..4] == wal[..4] && original[24..28] == wal[24..28] && original[28..32] == wal[28..32];
    var a, b := FromBe32(wal[24..28]), FromBe32(wal[28..32]);
    var offset := HEADER_SIZE;
    ghost var k := 0;
    while offset < wal.Length
      invariant 0 <= k <= n && offset == FrameStart(pageSize, k)
      invariant wal[..] == Repaired(original, pageSize, n, k)
      invariant Sums(a, b) == Chain(original, pageSize, n, k)
      decreases wal.Length - offset
    {
      FrameLeft(pageSize, n, k);
      FrameFits(pageSize, n, k);
      var body := wal[offset..offset + 8] + wal[offset + 24..offset + 24 + pageSize];
      UntouchedBody(original, pageSize, n, k, wal[..]);
      RepairStep(original, pageSize, n, k);
      a, b := AbsorbBody(little, a, b, body);
      ghost var before := wal[..];
      CopyInto(wal, offset + 16, ToBe32(a));
      CopyInto(wal, offset + 20, ToBe32(b));
      SpliceGrows(before, offset + 16, ToBe32(a), ToBe32(b));
      offset := offset + FrameSize(pageSize);
      k := k + 1;
    }
    FramesDone(pageSize, n, k);
  }

  lemma RepairStarts(wal: seq<byte>, pageSize: nat, n: nat)
    requires IsWal(wal, pageSize, n)
    ensures |wal| >= HEADER_SIZE && Repaired(wal, pageSize, n, 0) == wal
    ensures Chain(wal, pageSize, n, 0) == Sums(FromBe32(wal[24..28]), FromBe32(wal[28..32]))
  {
    hide FromBe32;
    WalExtent(wal, pageSize, n);
  }

  /** One more frame: its body goes into the chain, and the new sums into its header. */
  lemma RepairStep(wal: seq<byte>, pageSize: nat, n: nat, k: nat)
    requires IsWal(wal, pageSize, n) && k < n
    ensures |wal| >= HEADER_SIZE && FrameStart(pageSize, k) + FRAME_HEADER_SIZE <= |wal|
    ensures var sums := Chain(wal, pageSize, n, k + 1);
            && sums == Run(Little(wal), Chain(wal, pageSize, n, k), Body(pageSize, Frame(wal, pageSize, n, k)))
            && Repaired(wal, pageSize, n, k + 1)
               == Splice(Repaired(wal, pageSize, n, k), FrameStart(pageSize, k) + 16, SumBytes(sums))
  {
    hide FrameStart, Frame, Run, Splice, Little, SumBytes, IsWal;
    WalExtent(wal, pageSize, n);
    FrameOf(wal, pageSize, n, k);
  }

  method AbsorbBody(little: bool, a0: u32, b0: u32, body: seq<byte>) returns (a: u32, b: u32)
    ensures Sums(a, b) == Run(little, Sums(a0, b0), body)
  {
    a, b := a0, b0;
    var at := 0;
    while at + 8 <= |body|
      invariant 0 <= at <= |body|
      invariant Run(little, Sums(a, b), body[at..]) == Run(little, Sums(a0, b0), body)
    {
      var pair := body[at..at + 8];
      assert body[at..][..8] == pair && body[at..][8..] == body[at + 8..];
      a := WrappingAdd(WrappingAdd(a, Word(little, pair[..4])), b);
      b := WrappingAdd(WrappingAdd(b, Word(little, pair[4..])), a);
      at := at + 8;
    }
  }

  // ----- what repair changes

  /** The frame with its stored checksum replaced. */
  function WithSums(frame: seq<byte>, s: Sums): (r: seq<byte>)
    requires |frame| >= FRAME_HEADER_SIZE
    ensures |r| == |frame|
  {
    Splice(frame, 16, SumBytes(s))
  }

  lemma FrameOf(wal: seq<byte>, pageSize: nat, n: nat, k: nat)
    requires IsWal(wal, pageSize, n) && k < n
    ensures FrameStart(pageSize, k) + FrameSize(pageSize) <= |wal|
    ensures Frame(wal, pageSize, n, k) == wal[FrameStart(pageSize, k)..FrameStart(pageSize, k) + FrameSize(pageSize)]
  {
    hide FrameSize;
    var size := FrameSize(pageSize);
    MulMonotone(k + 1, n, size);
    assert (k + 1) * size == k * size + size;
    SliceOfSlice(wal, HEADER_SIZE, |wal| - HEADER_SIZE, k * size, size);
  }

  lemma SpliceInFrame(wal: seq<byte>, pageSize: nat, n: nat, k: nat, i: nat, s: Sums)
    requires IsWal(wal, pageSize, n) && k < n && i < n
    ensures FrameStart(pageSize, k) + 24 <= |wal|
    ensures var wal' := Splice(wal, FrameStart(pageSize, k) + 16, SumBytes(s));
            && IsWal(wal', pageSize, n) && wal'[..HEADER_SIZE] == wal[..HEADER_SIZE]
            && Frame(wal', pageSize, n, i)
               == if i == k then WithSums(Frame(wal, pageSize, n, k), s) else Frame(wal, pageSize, n, i)
  {
    hide Frame, FrameStart, SumBytes;
    FrameOf(wal, pageSize, n, k);
    HeaderFirst(pageSize, k);
    var wal' := Splice(wal, FrameStart(pageSize, k) + 16, SumBytes(s));
    FrameOf(wal, pageSize, n, i);
    FrameOf(wal', pageSize, n, i);
    if i != k {
      FramesApart(pageSize, i, k);
    }
  }

  /** Repair leaves the header alone, and of each frame it replaces only the stored checksum. */
  lemma {:induction false} RepairedFrame(wal: seq<byte>, pageSize: nat, n: nat, k: nat, i: nat)
    requires IsWal(wal, pageSize, n) && k <= n && i < n
    ensures var r := Repaired(wal, pageSize, n, k);
            && r[..HEADER_SIZE] == wal[..HEADER_SIZE]
            && Frame(r, pageSize, n, i)
               == if i < k then WithSums(Frame(wal, pageSize, n, i), Chain(wal, pageSize, n, i + 1))
                  else Frame(wal, pageSize, n, i)
  {
    hide Frame, FrameStart, SumBytes, WithSums, Chain, Splice;
    if k > 0 {
      RepairedFrame(wal, pageSize, n, k - 1, i);
      SpliceInFrame(Repaired(wal, pageSize, n, k - 1), pageSize, n, k - 1, i, Chain(wal, pageSize, n, k));
    }
  }

  lemma UntouchedBody(original: seq<byte>, pageSize: nat, n: nat, k: nat, wal: seq<byte>)
    requires IsWal(original, pageSize, n) && k < n && wal == Repaired(original, pageSize, n, k)
    ensures FrameStart(pageSize, k) + FrameSize(pageSize) <= |wal|
    ensures var offset := FrameStart(pageSize, k);
            wal[offset..offset + 8] + wal[offset + 24..offset + 24 + pageSize]
            == Body(pageSize, Frame(original, pageSize, n, k))
  {
    hide Frame, FrameStart, Repaired, WithSums, Chain;
    RepairedFrame(original, pageSize, n, k, k);
    FrameOf(wal, pageSize, n, k);
    SliceOfSlice(wal, FrameStart(pageSize, k), FrameSize(pageSize), 0, 8);
    SliceOfSlice(wal, FrameStart(pageSize, k), FrameSize(pageSize), FRAME_HEADER_SIZE, pageSize);
  }

  // ----- changing part of a payload

  /** The file with `t` written into the page of frame `j` from byte `at` on. */
  function PatchPayload(wal: seq<byte>, pageSize: nat, n: nat, j: nat, at: nat, t: seq<byte>): (r: seq<byte>)
    requires IsWal(wal, pageSize, n) && j < n && at + |t| <= pageSize
    ensures IsWal(r, pageSize, n) && |r| == |wal| >= HEADER_SIZE
  {
    FrameFits(pageSize, n, j);
    Splice(wal, FrameStart(pageSize, j) + FRAME_HEADER_SIZE + at, t)
  }

  lemma PatchedFrame(wal: seq<byte>, pageSize: nat, n: nat, j: nat, at: nat, t: seq<byte>, k: nat)
    requires IsWal(wal, pageSize, n) && j < n && k < n && at + |t| <= pageSize
    ensures var frame := Frame(wal, pageSize, n, k);
            Frame(PatchPayload(wal, pageSize, n, j, at, t), pageSize, n, k)
            == if k == j then Splice(frame, FRAME_HEADER_SIZE + at, t) else frame
  {
    hide Frame, FrameStart, Splice, IsWal;
    FrameOf(wal, pageSize, n, j);
    FrameOf(wal, pageSize, n, k);
    FrameOf(PatchPayload(wal, pageSize, n, j, at, t), pageSize, n, k);
    var (start, size) := (FrameStart(pageSize, j), FrameSize(pageSize));
    if k == j {
      SpliceWithin(wal, start, size, FRAME_HEADER_SIZE + at, t);
    } else {
      FramesApart(pageSize, j, k);
      SpliceParts(wal, start + FRAME_HEADER_SIZE + at, t, FrameStart(pageSize, k), FrameStart(pageSize, k) + size);
    }
  }

  lemma PatchedHeader(wal: seq<byte>, pageSize: nat, n: nat, j: nat, at: nat, t: seq<byte>)
    requires IsWal(wal, pageSize, n) && j < n && at + |t| <= pageSize
    ensures PatchPayload(wal, pageSize, n, j, at, t)[..HEADER_SIZE] == wal[..HEADER_SIZE]
  {
    hide FrameStart, Splice;
    FrameOf(wal, pageSize, n, j);
    HeaderFirst(pageSize, j);
    SpliceParts(wal, FrameStart(pageSize, j) + FRAME_HEADER_SIZE + at, t, 0, HEADER_SIZE);
  }

  lemma SpliceWithin(s: seq<byte>, start: nat, size: nat, at: nat, t: seq<byte>)
    requires start + size <= |s| && at + |t| <= size
    ensures Splice(s, start + at, t)[start..start + size] == Splice(s[start..start + size], at, t)
  {
  }

  lemma PatchedBody(pageSize: nat, frame: seq<byte>, at: nat, t: seq<byte>)
    requires |frame| == FrameSize(pageSize) && at + |t| <= pageSize
    ensures Body(pageSize, Splice(frame, FRAME_HEADER_SIZE + at, t)) == Splice(Body(pageSize, frame), 8 + at, t)
  {
  }
}
