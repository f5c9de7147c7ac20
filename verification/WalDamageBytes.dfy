/** Commits, page numbers and the damaged file in plain offsets and bytes. */
module WalDamageBytes {
  import opened Bytes
  import opened WalLayout
  import opened Wal
  import opened WalChecksums
  import opened WalFibonacci
  import opened WalDamage

  // ----- frame headers

  lemma FrameHeaderNumbers(wal: seq<byte>, pageSize: nat, n: nat, k: nat)
    requires IsWal(wal, pageSize, n) && k < n
    ensures var at := 32 + k * (pageSize + 24);
            && at + pageSize + 24 <= |wal|
            && PageNumberOf(wal, pageSize, n, k) == BigEndian(wal, at)
            && (IsCommit(wal, pageSize, n, k) <==> BigEndian(wal, at + 4) != 0)
  {
    hide Frame, FromBe32, BigEndian;
    FrameOf(wal, pageSize, n, k);
    FrameHead(wal, pageSize, n, k);
    BigEndianIs(wal, FrameStart(pageSize, k));
    BigEndianIs(wal, FrameStart(pageSize, k) + 4);
  }

  /** Frame `k` has a nonzero size field at its byte 4 and ends at `end`. */
  predicate EndsCommit(wal: seq<byte>, pageSize: nat, k: nat, end: nat) {
    var at := 32 + k * (pageSize + 24);
    at + 8 <= |wal| && BigEndian(wal, at + 4) != 0 && end == at + pageSize + 24
  }

  lemma CommitEndIs(wal: seq<byte>, pageSize: nat, n: nat, k: nat, end: nat)
    requires IsWal(wal, pageSize, n) && k < n
    ensures EndsCommit(wal, pageSize, k, end) <==>
            IsCommit(wal, pageSize, n, k) && end == FrameStart(pageSize, k + 1)
  {
    hide IsCommit, BigEndian;
    FrameHeaderNumbers(wal, pageSize, n, k);
    FrameFits(pageSize, n, k);
  }

  ghost predicate EndsSomeCommit(wal: seq<byte>, pageSize: nat, k: nat, end: nat) {
    exists i: nat :: i < k && EndsCommit(wal, pageSize, i, end)
  }

  /** The commit offsets are the ends of the frames with a nonzero size field. */
  lemma {:induction false} CommitEndsExactly(wal: seq<byte>, pageSize: nat, n: nat, k: nat, end: nat)
    requires IsWal(wal, pageSize, n) && k <= n
    ensures end in CommitEnds(wal, pageSize, n, k) <==> EndsSomeCommit(wal, pageSize, k, end)
  {
    hide EndsCommit, EndsSomeCommit, Frame, FrameStart, FromBe32;
    if k == 0 {
      NoCommitYet(wal, pageSize, end);
    } else {
      CommitEndsExactly(wal, pageSize, n, k - 1, end);
      OneFrameMore(wal, pageSize, k, end);
      CommitEndIs(wal, pageSize, n, k - 1, end);
    }
  }

  predicate Increasing(s: seq<nat>) {
    forall a, b :: 0 <= a < b < |s| ==> s[a] < s[b]
  }

  lemma {:induction false} CommitEndsIncrease(wal: seq<byte>, pageSize: nat, n: nat, k: nat)
    requires IsWal(wal, pageSize, n) && k <= n
    ensures var ends := CommitEnds(wal, pageSize, n, k);
            Increasing(ends) && forall a :: 0 <= a < |ends| ==> ends[a] <= FrameStart(pageSize, k)
  {
    hide Frame, FrameStart, FromBe32;
    if k > 0 {
      CommitEndsIncrease(wal, pageSize, n, k - 1);
      FrameFits(pageSize, k, k - 1);
    }
  }

  lemma NoCommitYet(wal: seq<byte>, pageSize: nat, end: nat)
    ensures !EndsSomeCommit(wal, pageSize, 0, end)
  {
  }

  lemma OneFrameMore(wal: seq<byte>, pageSize: nat, k: nat, end: nat)
    requires k > 0
    ensures EndsSomeCommit(wal, pageSize, k, end) <==>
            EndsSomeCommit(wal, pageSize, k - 1, end) || EndsCommit(wal, pageSize, k - 1, end)
  {
    hide EndsCommit;
  }

  // ----- the damaged file

  /** The byte with its lowest bit inverted. */
  function Flipped(x: byte): byte {
    if x % 2 == 0 then x + 1 else x - 1
  }

  lemma {:induction false} XorWithZero(x: nat, bits: nat)
    requires x < Pow2(bits)
    ensures XorBits(x, 0, bits) == x
  {
    hide Pow2;
    HalfBelow(x, bits);
    if bits > 0 {
      XorWithZero(x / 2, bits - 1);
    }
  }

  lemma XorWithOne(x: byte)
    ensures Xor(x, 1) == Flipped(x)
  {
    assert Pow2(8) == 0x100;
    HalfBelow(x, 8);
    XorWithZero(x / 2, 7);
  }

  lemma StartsAt(pageSize: nat, k: nat)
    ensures FrameStart(pageSize, k) == 32 + k * (pageSize + 24)
  {
  }

  /** Byte `i` is that of the history, or that with its lowest bit inverted. */
  predicate CarriedOver(history: seq<byte>, damaged: seq<byte>, i: nat, inverted: bool) {
    && i < |damaged| && i < |history|
    && damaged[i] == if inverted then Flipped(history[i]) else history[i]
  }

  /**
   * Header and frames of the damaged file are those of the history, but for the sums at bytes 16 to 23 of each frame,
   * and the lowest bit of byte 30 of the page in frame `j`.
   */
  lemma DamagedBytes(history: seq<byte>, pageSize: nat, n: nat, m: nat, j: nat, k: nat, r: nat, i: nat)
    requires IsWal(history, pageSize, n) && j < m <= n && k < m && pageSize >= 32
    requires (r < 16 || 24 <= r < pageSize + 24) && i == 32 + k * (pageSize + 24) + r
    ensures var damaged := Repaired(FlipPayload(Committed(history, pageSize, n, m), pageSize, m, j), pageSize, m, m);
            CarriedOver(history, damaged, i, k == j && r == 24 + 30)
  {
    hide Frame, FrameStart, Repaired, FlipPayload, Committed, Xor, IsWal;
    StartsAt(pageSize, k);
    var damaged := Repaired(FlipPayload(Committed(history, pageSize, n, m), pageSize, m, j), pageSize, m, m);
    DamagedPages(history, pageSize, n, m, j, k);
    var (frame, frame') := (Frame(history, pageSize, n, k), Frame(damaged, pageSize, m, k));
    FrameOf(history, pageSize, n, k);
    FrameOf(damaged, pageSize, m, k);
    var at := FrameStart(pageSize, k);
    assert damaged[at + r] == frame'[r] && history[at + r] == frame[r];
    if r < 16 {
      assert frame'[r] == frame'[..16][r] == frame[..16][r] == frame[r];
    } else {
      assert frame'[r] == Payload(frame')[r - 24] && frame[r] == Payload(frame)[r - 24];
      XorWithOne(frame[r]);
    }
  }

  lemma DamagedFileHeader(history: seq<byte>, pageSize: nat, n: nat, m: nat, j: nat)
    requires IsWal(history, pageSize, n) && j < m <= n && pageSize >= 32
    ensures |history| >= 32
    ensures Repaired(FlipPayload(Committed(history, pageSize, n, m), pageSize, m, j), pageSize, m, m)[..32]
         == history[..32]
  {
    hide Repaired, Committed, PatchPayload, Frame, Xor;
    WalExtent(history, pageSize, n);
    var committed := Committed(history, pageSize, n, m);
    CommittedHeader(history, pageSize, n, m);
    var flipped := Xor(Payload(Frame(committed, pageSize, m, j))[DAMAGED_BYTE], 1);
    PatchedHeader(committed, pageSize, m, j, DAMAGED_BYTE, [flipped]);
    RepairedHeader(FlipPayload(committed, pageSize, m, j), pageSize, m);
  }
}
