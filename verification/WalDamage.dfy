/** A payload damaged behind a repaired checksum chain, and what page authentication makes of it. */
module WalDamage {
  import opened Outcomes
  import opened Bytes
  import opened Config
  import opened Primitives
  import opened Decryptor
  import opened Encryptor
  import opened Pages
  import opened WalLayout
  import opened Wal
  import opened WalChecksums
  import opened WalDetection

  // ----- one flipped bit

  const DAMAGED_BYTE := 30

  /** The file with the lowest bit of one payload byte of frame `j` inverted. */
  function FlipPayload(wal: seq<byte>, pageSize: nat, n: nat, j: nat): (r: seq<byte>)
    requires IsWal(wal, pageSize, n) && j < n && pageSize >= 32
    ensures IsWal(r, pageSize, n) && |r| == |wal| >= HEADER_SIZE
  {
    PatchPayload(wal, pageSize, n, j, DAMAGED_BYTE, [Xor(Payload(Frame(wal, pageSize, n, j))[DAMAGED_BYTE], 1)])
  }

  lemma FlipDamagesOnce(wal: seq<byte>, pageSize: nat, n: nat, j: nat)
    requires IsWal(wal, pageSize, n) && j < n && pageSize >= 32
    ensures DamagedOnce(wal, FlipPayload(wal, pageSize, n, j), pageSize, n, j, 4)
  {
    hide Frame, PatchPayload, Xor, Splice;
    var frame := Frame(wal, pageSize, n, j);
    var flipped := Xor(Payload(frame)[DAMAGED_BYTE], 1);
    PatchedHeader(wal, pageSize, n, j, DAMAGED_BYTE, [flipped]);
    forall k | 0 <= k < n
      ensures Frame(FlipPayload(wal, pageSize, n, j), pageSize, n, k)
           == if k == j then Splice(frame, FRAME_HEADER_SIZE + DAMAGED_BYTE, [flipped]) else Frame(wal, pageSize, n, k)
    {
      PatchedFrame(wal, pageSize, n, j, DAMAGED_BYTE, [flipped], k);
    }
    PatchedBody(pageSize, frame, DAMAGED_BYTE, [flipped]);
    XorChanges(Payload(frame)[DAMAGED_BYTE], 1);
    FlippedChunk(Body(pageSize, frame), flipped);
  }

  lemma FlippedChunk(body: seq<byte>, flipped: byte)
    requires |body| >= 40 && flipped != body[8 + DAMAGED_BYTE]
    ensures DifferInChunk(body, Splice(body, 8 + DAMAGED_BYTE, [flipped]), 4)
  {
    var body' := Splice(body, 8 + DAMAGED_BYTE, [flipped]);
    assert body[32..40][6] == body[38] && body'[32..40][6] == body'[38];
  }

  /**
   * Damaging a payload and repairing the chain yields a consistent file: its checksums do not show the damage. They
   * differ from the original's in the damaged frame and in every later one.
   */
  lemma DamageBehindRepairedChain(wal: seq<byte>, pageSize: nat, n: nat, j: nat, k: nat)
    requires IsWal(wal, pageSize, n) && Consistent(wal, pageSize, n) && j < n && k < n && pageSize >= 32
    ensures var damaged := Repaired(FlipPayload(wal, pageSize, n, j), pageSize, n, n);
            && Consistent(damaged, pageSize, n)
            && (StoredSums(Frame(damaged, pageSize, n, k)) == StoredSums(Frame(wal, pageSize, n, k)) <==> k < j)
  {
    hide Frame, Chain, Repaired, FlipPayload, StoredSums, SameData, DamagedOnce;
    var flipped := FlipPayload(wal, pageSize, n, j);
    var damaged := Repaired(flipped, pageSize, n, n);
    RepairMakesConsistent(flipped, pageSize, n);
    RepairKeepsData(flipped, pageSize, n);
    SameDataSameChain(flipped, damaged, pageSize, n, k + 1);
    FlipDamagesOnce(wal, pageSize, n, j);
    DamageIsDetected(wal, flipped, pageSize, n, j, 4, k + 1);
  }

  // ----- choosing the frame

  predicate IsCommit(wal: seq<byte>, pageSize: nat, n: nat, k: nat)
    requires IsWal(wal, pageSize, n) && k < n
  {
    FromBe32(Frame(wal, pageSize, n, k)[4..8]) != 0
  }

  function PageNumberOf(wal: seq<byte>, pageSize: nat, n: nat, k: nat): u32
    requires IsWal(wal, pageSize, n) && k < n
  {
    FromBe32(Frame(wal, pageSize, n, k)[..4])
  }

  /** `m` frames end with the last commit among the first `k`. */
  predicate IsLastCommit(wal: seq<byte>, pageSize: nat, n: nat, k: nat, m: nat)
    requires IsWal(wal, pageSize, n) && k <= n
  {
    && 1 <= m <= k && IsCommit(wal, pageSize, n, m - 1)
    && forall i :: m <= i < k ==> !IsCommit(wal, pageSize, n, i)
  }

  lemma {:induction false} LastCommitEnd(wal: seq<byte>, pageSize: nat, n: nat, k: nat) returns (m: nat)
    requires IsWal(wal, pageSize, n) && k <= n && CommitEnds(wal, pageSize, n, k) != []
    ensures IsLastCommit(wal, pageSize, n, k, m)
    ensures var ends := CommitEnds(wal, pageSize, n, k); ends[|ends| - 1] == FrameStart(pageSize, m)
  {
    hide Frame, FrameStart;
    if IsCommit(wal, pageSize, n, k - 1) {
      m := k;
    } else {
      m := LastCommitEnd(wal, pageSize, n, k - 1);
    }
  }

  /** `j` is the last of the first `m` frames that hold page `page`. */
  predicate IsLastFrameOf(wal: seq<byte>, pageSize: nat, n: nat, m: nat, page: u32, j: nat)
    requires IsWal(wal, pageSize, n) && m <= n
  {
    && j < m && PageNumberOf(wal, pageSize, n, j) == page
    && forall i :: j < i < m ==> PageNumberOf(wal, pageSize, n, i) != page
  }

  /** The history up to its last commit. */
  function Committed(history: seq<byte>, pageSize: nat, n: nat, m: nat): (r: seq<byte>)
    requires IsWal(history, pageSize, n) && m <= n
    ensures IsWal(r, pageSize, m)
  {
    MulMonotone(m, n, FrameSize(pageSize));
    history[..FrameStart(pageSize, m)]
  }

  lemma CommittedFrame(history: seq<byte>, pageSize: nat, n: nat, m: nat, k: nat)
    requires IsWal(history, pageSize, n) && k < m <= n
    ensures Frame(Committed(history, pageSize, n, m), pageSize, m, k) == Frame(history, pageSize, n, k)
  {
    hide Frame, FrameStart;
    FrameFits(pageSize, m, k);
    FrameOf(history, pageSize, n, k);
    FrameOf(Committed(history, pageSize, n, m), pageSize, m, k);
  }

  lemma {:induction false} CommittedChain(history: seq<byte>, pageSize: nat, n: nat, m: nat, k: nat)
    requires IsWal(history, pageSize, n) && k <= m <= n
    ensures Chain(Committed(history, pageSize, n, m), pageSize, m, k) == Chain(history, pageSize, n, k)
  {
    hide Frame, Run, FrameStart, Committed;
    CommittedHeader(history, pageSize, n, m);
    HeaderFields(Committed(history, pageSize, n, m), history);
    if k > 0 {
      CommittedChain(history, pageSize, n, m, k - 1);
      CommittedFrame(history, pageSize, n, m, k - 1);
    }
  }

  lemma CommittedHeader(history: seq<byte>, pageSize: nat, n: nat, m: nat)
    requires IsWal(history, pageSize, n) && m <= n
    ensures Committed(history, pageSize, n, m)[..HEADER_SIZE] == history[..HEADER_SIZE]
  {
    hide FrameStart;
    HeaderFirst(pageSize, m);
  }

  /** Cuts the history at its last commit, flips a payload bit in the last frame of `page`, and repairs the chain. */
  method DamagedPayload(history: seq<byte>, pageSize: nat, ghost n: nat, page: u32, ghost m: nat, ghost j: nat)
    returns (wal: array<byte>)
    requires IsWal(history, pageSize, n) && pageSize >= 32
    requires IsLastCommit(history, pageSize, n, n, m) && IsLastFrameOf(history, pageSize, n, m, page, j)
    ensures fresh(wal)
    ensures wal[..] == Repaired(FlipPayload(Committed(history, pageSize, n, m), pageSize, m, j), pageSize, m, m)
  {
    hide Frame, FrameStart, Repaired, Xor, IsWal;
    var end := CommitEnd(history, pageSize, n, m);
    wal := new byte[end](i requires 0 <= i < |history| => history[i]);
    assert wal[..] == Committed(history, pageSize, n, m);
    var offset := FindFrame(history, pageSize, n, page, m, j, end);
    FrameFits(pageSize, m, j);
    PayloadByte(Committed(history, pageSize, n, m), pageSize, m, j);
    var at := offset + FRAME_HEADER_SIZE + DAMAGED_BYTE;
    wal[at] := Xor(wal[at], 1);
    assert wal[..] == FlipPayload(Committed(history, pageSize, n, m), pageSize, m, j);
    RepairChecksums(wal, pageSize, m);
  }

  lemma PayloadByte(wal: seq<byte>, pageSize: nat, n: nat, j: nat)
    requires IsWal(wal, pageSize, n) && j < n && pageSize >= 32
    ensures var at := FrameStart(pageSize, j) + FRAME_HEADER_SIZE + DAMAGED_BYTE;
            at < |wal| && wal[at] == Payload(Frame(wal, pageSize, n, j))[DAMAGED_BYTE]
  {
    hide Frame, FrameStart;
    FrameOf(wal, pageSize, n, j);
  }

  /** The last of the offsets at which a committing frame ends. */
  method CommitEnd(history: seq<byte>, pageSize: nat, ghost n: nat, ghost m: nat) returns (end: nat)
    requires IsWal(history, pageSize, n) && IsLastCommit(history, pageSize, n, n, m)
    ensures end == FrameStart(pageSize, m) <= |history|
  {
    hide Frame, FrameStart;
    var ends := CollectCommitEnds(history, pageSize, n);
    HasCommits(history, pageSize, n, n, m);
    ghost var last := LastCommitEnd(history, pageSize, n, n);
    assert last == m;
    FrameFits(pageSize, n, m - 1);
    WalExtent(history, pageSize, n);
    end := ends[|ends| - 1];
  }

  method CollectCommitEnds(history: seq<byte>, pageSize: nat, ghost n: nat) returns (ends: seq<nat>)
    requires IsWal(history, pageSize, n)
    ensures ends == CommitEnds(history, pageSize, n, n)
  {
    hide Frame, FrameStart, FromBe32;
    WalExtent(history, pageSize, n);
    ends := [];
    var offset := HEADER_SIZE;
    ghost var k := 0;
    while offset < |history|
      invariant 0 <= k <= n && offset == FrameStart(pageSize, k)
      invariant ends == CommitEnds(history, pageSize, n, k)
      decreases |history| - offset
    {
      FrameLeft(pageSize, n, k);
      FrameFits(pageSize, n, k);
      FrameHead(history, pageSize, n, k);
      var size := FrameSize(pageSize);
      if FromBe32(history[offset + 4..offset + 8]) != 0 {
        ends := ends + [offset + size];
      }
      offset := offset + size;
      k := k + 1;
    }
    FramesDone(pageSize, n, k);
  }

  lemma {:induction false} HasCommits(wal: seq<byte>, pageSize: nat, n: nat, k: nat, m: nat)
    requires IsWal(wal, pageSize, n) && k <= n && IsLastCommit(wal, pageSize, n, k, m)
    ensures CommitEnds(wal, pageSize, n, k) != []
  {
    hide Frame, FrameStart;
    if m < k {
      HasCommits(wal, pageSize, n, k - 1, m);
    }
  }

  /** Searches the frames before `end` from the back. */
  method FindFrame(history: seq<byte>, pageSize: nat, ghost n: nat, page: u32, ghost m: nat, ghost j: nat, end: nat)
    returns (offset: nat)
    requires IsWal(history, pageSize, n) && m <= n && end == FrameStart(pageSize, m) <= |history|
    requires IsLastFrameOf(history, pageSize, n, m, page, j)
    ensures offset == FrameStart(pageSize, j)
  {
    hide Frame, FrameStart;
    ghost var k := m - 1;
    FrameFits(pageSize, n, k);
    HeaderFirst(pageSize, k);
    offset := end - FrameSize(pageSize);
    FrameHead(history, pageSize, n, k);
    while FromBe32(history[offset..offset + 4]) != page
      invariant j <= k < m && offset == FrameStart(pageSize, k) && offset + 4 <= |history|
      invariant history[offset..offset + 4] == Frame(history, pageSize, n, k)[..4]
      decreases k
    {
      k := k - 1;
      FrameFits(pageSize, n, k);
      HeaderFirst(pageSize, k);
      FrameHead(history, pageSize, n, k);
      offset := offset - FrameSize(pageSize);
    }
    assert PageNumberOf(history, pageSize, n, k) == page;
  }

  lemma FrameHead(wal: seq<byte>, pageSize: nat, n: nat, k: nat)
    requires IsWal(wal, pageSize, n) && k < n
    ensures var offset := FrameStart(pageSize, k);
            && offset + 8 <= |wal|
            && wal[offset..offset + 4] == Frame(wal, pageSize, n, k)[..4]
            && wal[offset + 4..offset + 8] == Frame(wal, pageSize, n, k)[4..8]
  {
    hide Frame, FrameStart;
    FrameOf(wal, pageSize, n, k);
    SliceOfSlice(wal, FrameStart(pageSize, k), FrameSize(pageSize), 0, 4);
    SliceOfSlice(wal, FrameStart(pageSize, k), FrameSize(pageSize), 4, 4);
  }

  /** Of a consistent history, the damaged file is a consistent prefix with new checksums from the damaged frame on. */
  lemma DamagedHistory(history: seq<byte>, pageSize: nat, n: nat, m: nat, j: nat, k: nat)
    requires IsWal(history, pageSize, n) && Consistent(history, pageSize, n) && j < m <= n && k < m && pageSize >= 32
    ensures var damaged := Repaired(FlipPayload(Committed(history, pageSize, n, m), pageSize, m, j), pageSize, m, m);
            && Consistent(damaged, pageSize, m)
            && (StoredSums(Frame(damaged, pageSize, m, k)) == StoredSums(Frame(history, pageSize, n, k)) <==> k < j)
  {
    hide Frame, Chain, Repaired, FlipPayload, StoredSums, Committed;
    var committed := Committed(history, pageSize, n, m);
    forall i | 0 <= i < m ensures StoredSums(Frame(committed, pageSize, m, i)) == Chain(committed, pageSize, m, i + 1) {
      CommittedFrame(history, pageSize, n, m, i);
      CommittedChain(history, pageSize, n, m, i + 1);
    }
    DamageBehindRepairedChain(committed, pageSize, m, j, k);
    CommittedFrame(history, pageSize, n, m, k);
  }

  // ----- what page authentication makes of it

  lemma SplicedPayload(frame: seq<byte>, flipped: byte)
    requires |frame| > FRAME_HEADER_SIZE + DAMAGED_BYTE
    ensures var frame' := Splice(frame, FRAME_HEADER_SIZE + DAMAGED_BYTE, [flipped]);
            frame'[..16] == frame[..16] && Payload(frame') == Payload(frame)[DAMAGED_BYTE := flipped]
  {
  }

  lemma SumsAside(frame: seq<byte>, s: Sums)
    requires |frame| >= FRAME_HEADER_SIZE
    ensures WithSums(frame, s)[..16] == frame[..16] && Payload(WithSums(frame, s)) == Payload(frame)
  {
    hide SumBytes;
  }

  /** The damaged file holds the page numbers and pages of the history, but for one bit of the page in frame `j`. */
  lemma DamagedPages(history: seq<byte>, pageSize: nat, n: nat, m: nat, j: nat, k: nat)
    requires IsWal(history, pageSize, n) && j < m <= n && k < m && pageSize >= 32
    ensures var damaged := Repaired(FlipPayload(Committed(history, pageSize, n, m), pageSize, m, j), pageSize, m, m);
            var (frame, frame') := (Frame(history, pageSize, n, k), Frame(damaged, pageSize, m, k));
            && frame'[..16] == frame[..16]
            && var page := Payload(frame);
               Payload(frame') == if k == j then page[DAMAGED_BYTE := Xor(page[DAMAGED_BYTE], 1)] else page
  {
    hide Frame, Chain, Repaired, PatchPayload, Splice, WithSums, Xor, Committed;
    var committed := Committed(history, pageSize, n, m);
    var flipped := FlipPayload(committed, pageSize, m, j);
    CommittedFrame(history, pageSize, n, m, k);
    CommittedFrame(history, pageSize, n, m, j);
    var byte' := Xor(Payload(Frame(history, pageSize, n, j))[DAMAGED_BYTE], 1);
    PatchedFrame(committed, pageSize, m, j, DAMAGED_BYTE, [byte'], k);
    RepairedFrame(flipped, pageSize, m, m, k);
    SumsAside(Frame(flipped, pageSize, m, k), Chain(flipped, pageSize, m, k + 1));
    if k == j {
      SplicedPayload(Frame(history, pageSize, n, k), byte');
    }
  }

  /**
   * Of the page in frame `j`, if it decrypts, the damage changes the MAC input: the damaged page fails authentication,
   * unless the HMAC of the two inputs collides.
   */
  lemma DamageFailsAuthentication(d: PageDecryptor, page: PageNumber, history: seq<byte>, n: nat, m: nat, j: nat)
    requires IsWal(history, d.config.pageSize, n) && j < m <= n
    requires DecryptPage(d, page, Payload(Frame(history, d.config.pageSize, n, j))).Success?
    ensures d.config.pageSize >= 32
    ensures var damaged := Repaired(FlipPayload(Committed(history, d.config.pageSize, n, m), d.config.pageSize, m, j),
                                    d.config.pageSize, m, m);
            var stored := Payload(Frame(history, d.config.pageSize, n, j));
            var stored' := Payload(Frame(damaged, d.config.pageSize, m, j));
            && IsPage(d.config, stored) && IsPage(d.config, stored')
            && PageNumberOf(damaged, d.config.pageSize, m, j) == PageNumberOf(history, d.config.pageSize, n, j)
            && var (input, input') := (HmacInput(d.config, page, stored), HmacInput(d.config, page, stored'));
               && input != input'
               && (|| DecryptPage(d, page, stored') == Failure(AuthenticationFailed(page))
                   || Hmac(d.primitives, d.config.hmacAlgorithm, d.hmacKey, input)
                      == Hmac(d.primitives, d.config.hmacAlgorithm, d.hmacKey, input'))
  {
    hide Frame, Repaired, FlipPayload, Committed, Xor, DecryptPage, HmacInput, FromBe32;
    LayoutFits(d.config);
    var stored := Payload(Frame(history, d.config.pageSize, n, j));
    DamagedPages(history, d.config.pageSize, n, m, j, j);
    var frame := Frame(history, d.config.pageSize, n, j);
    var damaged := Repaired(FlipPayload(Committed(history, d.config.pageSize, n, m), d.config.pageSize, m, j),
                            d.config.pageSize, m, m);
    var frame' := Frame(damaged, d.config.pageSize, m, j);
    assert frame[..16][..4] == frame[..4] && frame'[..16][..4] == frame'[..4];
    XorChanges(stored[DAMAGED_BYTE], 1);
    ChangedByteIsNoticed(d, page, stored, DAMAGED_BYTE, Xor(stored[DAMAGED_BYTE], 1));
  }
}
