/** Committed images made of main-file pages and WAL frames: their size bound and their ordered traversal. */
module Snapshot {
  import opened Outcomes
  import opened Bytes
  import opened Config
  import opened Primitives
  import opened Decryptor
  import opened Sources
  import opened Databases
  import opened Pages
  import opened Codec
  import opened WalLayout

  function CompleteFrames(walSize: u64, pageSize: nat): u32 {
    var frames := SaturatingSub(walSize, HEADER_SIZE) / (pageSize + FRAME_HEADER_SIZE);
    match TryFromU32(frames)
    case Some(count) => count
    case None => U32_MAX
  }

  /** The count is the number of complete frames, capped at the largest 32-bit value. */
  lemma FramesCounted(walSize: u64, pageSize: nat, index: nat)
    requires index < U32_MAX
    ensures index < CompleteFrames(walSize, pageSize) <==> IsCompleteFrame(walSize, pageSize, index)
  {
    var (body, frame) := (SaturatingSub(walSize, HEADER_SIZE), FrameSize(pageSize));
    assert (index + 1) * frame == index * frame + frame;
    FitsQuotient(body, frame, index + 1);
  }

  lemma FitsQuotient(total: nat, size: nat, k: nat)
    requires size > 0
    ensures k <= total / size <==> k * size <= total
  {
    DivMod(total, size);
    if k <= total / size {
      MulMonotone(k, total / size, size);
    } else {
      MulMonotone(total / size + 1, k, size);
    }
  }

  /** Every page beyond the main file has a complete WAL frame of its own. */
  predicate Backed(count: nat, mainPages: nat, walSize: nat, pageSize: nat, frameOf: map<nat, nat>) {
    && (forall n :: mainPages < n <= count ==> n in frameOf && IsCompleteFrame(walSize, pageSize, frameOf[n]))
    && (forall n, m :: mainPages < n < m <= count && n in frameOf && m in frameOf ==> frameOf[n] != frameOf[m])
  }

  lemma {:induction false} Pigeonhole(pages: set<nat>, frameOf: map<nat, nat>, frames: nat)
    requires forall n :: n in pages ==> n in frameOf && frameOf[n] < frames
    requires forall n, m :: n in pages && m in pages && n != m ==> frameOf[n] != frameOf[m]
    ensures |pages| <= frames
    decreases frames
  {
    if frames == 0 {
      assert forall n :: n !in pages;
    } else if n :| n in pages && frameOf[n] == frames - 1 {
      Pigeonhole(pages - {n}, frameOf, frames - 1);
      assert |pages - {n}| == |pages| - 1;
    } else {
      Pigeonhole(pages, frameOf, frames - 1);
    }
  }

  function PagesBetween(low: nat, high: nat): (pages: set<nat>)
    ensures forall n :: n in pages <==> low < n <= high
  {
    if low < high then PagesBetween(low, high - 1) + {high} else {}
  }

  lemma {:induction false} PagesBetweenSize(low: nat, high: nat)
    requires low <= high
    ensures |PagesBetween(low, high)| == high - low
  {
    if low < high {
      PagesBetweenSize(low, high - 1);
    }
  }

  datatype SnapshotError = SnapshotSize(count: int, maximum: u32)

  /** The page count the engine reports, if it is one the files can hold. */
  function SelectPageCount(count: int, maximum: u32): Result<u32, SnapshotError> {
    if 0 <= count <= U32_MAX && count > 0 && count <= maximum then Success(count)
    else Failure(SnapshotSize(count, maximum))
  }

  /** No image whose extra pages each have a complete frame is refused, and the codec admits all its WAL pages. */
  lemma BackedImageIsAdmitted(decoder: PageDecryptor, config: CipherConfig, mainPages: u32, walSize: u64, count: u32,
                              frameOf: map<nat, nat>)
    requires count > 0 && Backed(count, mainPages, walSize, config.pageSize, frameOf)
    ensures var frames := CompleteFrames(walSize, config.pageSize);
            && SelectPageCount(count, SaturatingAdd32(mainPages, frames)) == Success(count)
            && forall n: u32 :: n <= count ==> NewCodec(decoder, config, mainPages, Some(frames)).InRange(n, Wal)
  {
    hide CompleteFrames, AcceptsPageSize;
    BackedCount(count, mainPages, walSize, config.pageSize, frameOf);
  }

  lemma BackedCount(count: u32, mainPages: u32, walSize: u64, pageSize: nat, frameOf: map<nat, nat>)
    requires Backed(count, mainPages, walSize, pageSize, frameOf)
    ensures count <= SaturatingAdd32(mainPages, CompleteFrames(walSize, pageSize))
  {
    hide IsCompleteFrame, CompleteFrames;
    var frames := CompleteFrames(walSize, pageSize);
    if mainPages < count && frames < U32_MAX {
      forall n | mainPages < n <= count ensures n in frameOf && frameOf[n] < frames {
        NotBeyondTheCount(walSize, pageSize, frameOf[n]);
      }
      Pigeonhole(PagesBetween(mainPages, count), frameOf, frames);
      PagesBetweenSize(mainPages, count);
    }
  }

  lemma NotBeyondTheCount(walSize: u64, pageSize: nat, index: nat)
    requires CompleteFrames(walSize, pageSize) < U32_MAX && IsCompleteFrame(walSize, pageSize, index)
    ensures index < CompleteFrames(walSize, pageSize)
  {
    hide CompleteFrames;
    var frames := CompleteFrames(walSize, pageSize);
    FramesCounted(walSize, pageSize, frames);
    if frames <= index {
      MulMonotone(frames + 1, index + 1, pageSize + FRAME_HEADER_SIZE);
    }
  }

  /** Gives the pages beyond the main file the frames 0, 1, 2, ... in order. */
  function FramesInOrder(mainPages: nat, count: nat): (frameOf: map<nat, nat>)
    ensures forall n :: n in frameOf <==> mainPages < n <= count
    ensures forall n :: n in frameOf ==> frameOf[n] == n - mainPages - 1
  {
    if mainPages < count then FramesInOrder(mainPages, count - 1)[count := count - mainPages - 1] else map[]
  }

  lemma BoundedIsBacked(count: u32, mainPages: u32, walSize: u64, pageSize: nat)
    requires count <= SaturatingAdd32(mainPages, CompleteFrames(walSize, pageSize))
    ensures Backed(count, mainPages, walSize, pageSize, FramesInOrder(mainPages, count))
  {
    hide IsCompleteFrame, CompleteFrames;
    var frameOf := FramesInOrder(mainPages, count);
    forall n | mainPages < n <= count ensures n in frameOf && IsCompleteFrame(walSize, pageSize, frameOf[n]) {
      FramesCounted(walSize, pageSize, n - mainPages - 1);
    }
  }

  /** A count is selected exactly when it is positive, fits 32 bits, and its extra pages can each have a frame. */
  lemma BoundIsExact(count: int, mainPages: u32, walSize: u64, pageSize: nat)
    ensures SelectPageCount(count, SaturatingAdd32(mainPages, CompleteFrames(walSize, pageSize))).Success? <==>
            0 < count <= U32_MAX && exists frameOf :: Backed(count, mainPages, walSize, pageSize, frameOf)
    ensures var maximum := SaturatingAdd32(mainPages, CompleteFrames(walSize, pageSize));
            SelectPageCount(count, maximum) in {Success(count), Failure(SnapshotSize(count, maximum))}
  {
    hide IsCompleteFrame, CompleteFrames, Backed, FramesInOrder;
    if 0 < count <= U32_MAX {
      if count <= SaturatingAdd32(mainPages, CompleteFrames(walSize, pageSize)) {
        BoundedIsBacked(count, mainPages, walSize, pageSize);
      }
      forall frameOf | Backed(count, mainPages, walSize, pageSize, frameOf)
        ensures count <= SaturatingAdd32(mainPages, CompleteFrames(walSize, pageSize))
      {
        BackedCount(count, mainPages, walSize, pageSize, frameOf);
      }
    }
  }

  /** A connection's bound selects every backed count, and its codec admits the image's WAL pages. */
  lemma ConnectionAdmitsBackedImage(p: Primitives, config: CipherConfig, passphrase: seq<byte>, bytes: Contents,
                                    faults: Faults, mainPages: nat, walSize: u64, count: u32, frameOf: map<nat, nat>)
    requires |bytes| == mainPages * config.pageSize
    requires count > 0 && Backed(count, mainPages, walSize, config.pageSize, frameOf)
    ensures var frames := Some(CompleteFrames(walSize, config.pageSize));
            var connected := ConnectOutcome(p, config, passphrase, bytes, faults, frames);
            connected.Success? ==>
              && SelectPageCount(count, connected.value.maximum) == Success(count)
              && forall n: u32 :: n <= count ==> connected.value.codec.InRange(n, Wal)
  {
    hide CompleteFrames, Backed, AcceptsPageSize, NewDecryptor, DecryptPage;
    var frames := Some(CompleteFrames(walSize, config.pageSize));
    var connected := ConnectOutcome(p, config, passphrase, bytes, faults, frames);
    if connected.Success? {
      LayoutFits(config);
      DivModUnique(|bytes|, config.pageSize, mainPages, 0);
      assert CheckLength(|bytes|, config.pageSize) == Success(mainPages);
      BackedCount(count, mainPages, walSize, config.pageSize, frameOf);
    }
  }
}
