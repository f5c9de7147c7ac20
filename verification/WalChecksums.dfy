/** Repair of the checksum chain is exact: it produces the one consistent file with the given header and data. */
module WalChecksums {
  import opened Bytes
  import opened Pages
  import opened WalLayout
  import opened Wal

  // ----- repair

  /** The files agree everywhere except in the stored checksums. */
  predicate SameData(wal: seq<byte>, other: seq<byte>, pageSize: nat, n: nat)
    requires IsWal(wal, pageSize, n) && IsWal(other, pageSize, n)
  {
    && wal[..HEADER_SIZE] == other[..HEADER_SIZE]
    && forall k {:trigger Frame(wal, pageSize, n, k)} {:trigger Frame(other, pageSize, n, k)} :: 0 <= k < n ==>
         && Frame(wal, pageSize, n, k)[..16] == Frame(other, pageSize, n, k)[..16]
         && Frame(wal, pageSize, n, k)[24..] == Frame(other, pageSize, n, k)[24..]
  }

  lemma HeaderFields(wal: seq<byte>, other: seq<byte>)
    requires |wal| >= HEADER_SIZE && |other| >= HEADER_SIZE && wal[..HEADER_SIZE] == other[..HEADER_SIZE]
    ensures wal[..4] == other[..4] && wal[24..28] == other[24..28] && wal[28..32] == other[28..32]
  {
    assert wal[..4] == wal[..HEADER_SIZE][..4] && wal[24..28] == wal[..HEADER_SIZE][24..28]
           && wal[28..32] == wal[..HEADER_SIZE][28..32];
  }

  lemma {:induction false} SameDataSameChain(wal: seq<byte>, other: seq<byte>, pageSize: nat, n: nat, k: nat)
    requires IsWal(wal, pageSize, n) && IsWal(other, pageSize, n) && k <= n && SameData(wal, other, pageSize, n)
    ensures Chain(wal, pageSize, n, k) == Chain(other, pageSize, n, k)
  {
    hide Frame, Run;
    HeaderFields(wal, other);
    if k > 0 {
      SameDataSameChain(wal, other, pageSize, n, k - 1);
      var (frame, frame') := (Frame(wal, pageSize, n, k - 1), Frame(other, pageSize, n, k - 1));
      assert frame[..8] == frame[..16][..8] == frame'[..16][..8] == frame'[..8];
    }
  }

  /** Repair replaces nothing but the stored checksums. */
  lemma RepairKeepsData(wal: seq<byte>, pageSize: nat, n: nat)
    requires IsWal(wal, pageSize, n)
    ensures SameData(wal, Repaired(wal, pageSize, n, n), pageSize, n)
  {
    hide Frame, Chain, Repaired, SumBytes;
    var repaired := Repaired(wal, pageSize, n, n);
    RepairedHeader(wal, pageSize, n);
    forall k | 0 <= k < n
      ensures Frame(wal, pageSize, n, k)[..16] == Frame(repaired, pageSize, n, k)[..16]
      ensures Frame(wal, pageSize, n, k)[24..] == Frame(repaired, pageSize, n, k)[24..]
    {
      RepairedFrame(wal, pageSize, n, n, k);
    }
  }

  lemma RepairedHeader(wal: seq<byte>, pageSize: nat, n: nat)
    requires IsWal(wal, pageSize, n)
    ensures Repaired(wal, pageSize, n, n)[..HEADER_SIZE] == wal[..HEADER_SIZE]
  {
    hide Chain;
    if n > 0 {
      RepairedFrame(wal, pageSize, n, n, 0);
    }
  }

  lemma SumsReadBack(frame: seq<byte>, s: Sums)
    requires |frame| >= FRAME_HEADER_SIZE
    ensures StoredSums(WithSums(frame, s)) == s
  {
    var r := WithSums(frame, s);
    assert r[16..20] == ToBe32(s.a) && r[20..24] == ToBe32(s.b);
    Be32RoundTrip(s.a);
    Be32RoundTrip(s.b);
  }

  /** After repair every stored checksum is the cumulative one, computed from the repaired file itself. */
  lemma RepairMakesConsistent(wal: seq<byte>, pageSize: nat, n: nat)
    requires IsWal(wal, pageSize, n)
    ensures Consistent(Repaired(wal, pageSize, n, n), pageSize, n)
  {
    hide Frame, Chain, Repaired, WithSums, StoredSums, SameData;
    var repaired := Repaired(wal, pageSize, n, n);
    RepairKeepsData(wal, pageSize, n);
    forall k | 0 <= k < n ensures StoredSums(Frame(repaired, pageSize, n, k)) == Chain(repaired, pageSize, n, k + 1) {
      RepairedFrame(wal, pageSize, n, n, k);
      SumsReadBack(Frame(wal, pageSize, n, k), Chain(wal, pageSize, n, k + 1));
      SameDataSameChain(wal, repaired, pageSize, n, k + 1);
    }
  }

  lemma FrameFromParts(frame: seq<byte>, other: seq<byte>)
    requires |frame| == |other| >= FRAME_HEADER_SIZE
    requires frame[..16] == other[..16] && frame[24..] == other[24..] && StoredSums(frame) == StoredSums(other)
    ensures frame == other
  {
    Be32Inverse(frame[16..20]);
    Be32Inverse(frame[20..24]);
    Be32Inverse(other[16..20]);
    Be32Inverse(other[20..24]);
    assert frame == frame[..16] + frame[16..20] + frame[20..24] + frame[24..];
    assert other == other[..16] + other[16..20] + other[20..24] + other[24..];
  }

  function Frames(wal: seq<byte>, pageSize: nat, n: nat): (frames: seq<seq<byte>>)
    requires IsWal(wal, pageSize, n)
    ensures |frames| == n
  {
    seq(n, k requires 0 <= k < n => Frame(wal, pageSize, n, k))
  }

  lemma WalFromFrames(wal: seq<byte>, pageSize: nat, n: nat)
    requires IsWal(wal, pageSize, n)
    ensures wal == wal[..HEADER_SIZE] + Join(Frames(wal, pageSize, n))
  {
    forall k | 0 <= k < n
      ensures HasPageAt(wal[HEADER_SIZE..], FrameSize(pageSize), k)
      ensures PageAt(wal[HEADER_SIZE..], FrameSize(pageSize), k) == Frames(wal, pageSize, n)[k]
    {
      MulMonotone(k + 1, n, FrameSize(pageSize));
    }
    JoinOfPages(wal[HEADER_SIZE..], FrameSize(pageSize), Frames(wal, pageSize, n));
  }

  /** Header and data determine the only consistent file. */
  lemma ConsistentIsUnique(wal: seq<byte>, other: seq<byte>, pageSize: nat, n: nat)
    requires IsWal(wal, pageSize, n) && IsWal(other, pageSize, n) && SameData(wal, other, pageSize, n)
    requires Consistent(wal, pageSize, n) && Consistent(other, pageSize, n)
    ensures wal == other
  {
    hide Frame, Chain, StoredSums;
    forall k | 0 <= k < n ensures Frame(wal, pageSize, n, k) == Frame(other, pageSize, n, k) {
      SameDataSameChain(wal, other, pageSize, n, k + 1);
      FrameFromParts(Frame(wal, pageSize, n, k), Frame(other, pageSize, n, k));
    }
    assert Frames(wal, pageSize, n) == Frames(other, pageSize, n);
    WalFromFrames(wal, pageSize, n);
    WalFromFrames(other, pageSize, n);
  }

  /** Repair leaves a file unchanged exactly when its chain already holds, and repairing twice is repairing once. */
  lemma RepairIsIdempotent(wal: seq<byte>, pageSize: nat, n: nat)
    requires IsWal(wal, pageSize, n)
    ensures Repaired(wal, pageSize, n, n) == wal <==> Consistent(wal, pageSize, n)
    ensures Repaired(Repaired(wal, pageSize, n, n), pageSize, n, n) == Repaired(wal, pageSize, n, n)
  {
    hide Frame, Chain, Repaired, Consistent, SameData;
    var repaired := Repaired(wal, pageSize, n, n);
    RepairMakesConsistent(wal, pageSize, n);
    RepairKeepsData(wal, pageSize, n);
    if Consistent(wal, pageSize, n) {
      ConsistentIsUnique(wal, repaired, pageSize, n);
    }
    RepairMakesConsistent(repaired, pageSize, n);
    RepairKeepsData(repaired, pageSize, n);
    ConsistentIsUnique(repaired, Repaired(repaired, pageSize, n, n), pageSize, n);
  }

  // ----- commit frames

  /** End offsets of the commit frames among the first `k`: those whose database-size field is not zero. */
  function CommitEnds(wal: seq<byte>, pageSize: nat, n: nat, k: nat): seq<nat>
    requires IsWal(wal, pageSize, n) && k <= n
  {
    if k == 0 then [] else
    CommitEnds(wal, pageSize, n, k - 1)
    + if FromBe32(Frame(wal, pageSize, n, k - 1)[4..8]) != 0 then [FrameStart(pageSize, k)] else []
  }

  lemma {:induction false} SameDataSameCommits(wal: seq<byte>, other: seq<byte>, pageSize: nat, n: nat, k: nat)
    requires IsWal(wal, pageSize, n) && IsWal(other, pageSize, n) && k <= n && SameData(wal, other, pageSize, n)
    ensures CommitEnds(wal, pageSize, n, k) == CommitEnds(other, pageSize, n, k)
  {
    hide Frame;
    if k > 0 {
      SameDataSameCommits(wal, other, pageSize, n, k - 1);
      var (frame, frame') := (Frame(wal, pageSize, n, k - 1), Frame(other, pageSize, n, k - 1));
      assert frame[4..8] == frame[..16][4..8] == frame'[..16][4..8] == frame'[4..8];
    }
  }

  lemma RepairKeepsCommits(wal: seq<byte>, pageSize: nat, n: nat)
    requires IsWal(wal, pageSize, n)
    ensures CommitEnds(Repaired(wal, pageSize, n, n), pageSize, n, n) == CommitEnds(wal, pageSize, n, n)
  {
    hide Repaired, SameData, CommitEnds;
    RepairKeepsData(wal, pageSize, n);
    SameDataSameCommits(wal, Repaired(wal, pageSize, n, n), pageSize, n, n);
  }
}
