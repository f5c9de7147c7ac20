/** Where the frames of a WAL lie: a file header, then frames of one size. */
module WalLayout {
  import opened Pages

  const HEADER_SIZE := 32
  const FRAME_HEADER_SIZE := 24

  function FrameSize(pageSize: nat): nat {
    pageSize + FRAME_HEADER_SIZE
  }

  function FrameStart(pageSize: nat, k: nat): nat {
    HEADER_SIZE + k * FrameSize(pageSize)
  }

  /** Frame `index` (from zero) lies completely within a WAL of `walSize` bytes. */
  predicate IsCompleteFrame(walSize: nat, pageSize: nat, index: nat) {
    FrameStart(pageSize, index + 1) <= walSize
  }

  lemma FrameFits(pageSize: nat, n: nat, k: nat)
    requires k < n
    ensures FrameStart(pageSize, k) + FrameSize(pageSize) == FrameStart(pageSize, k + 1) <= FrameStart(pageSize, n)
  {
    MulMonotone(k + 1, n, FrameSize(pageSize));
  }

  lemma FrameLeft(pageSize: nat, n: nat, k: nat)
    requires k <= n && FrameStart(pageSize, k) < FrameStart(pageSize, n)
    ensures k < n
  {
  }

  lemma FramesDone(pageSize: nat, n: nat, k: nat)
    requires k <= n && FrameStart(pageSize, k) >= FrameStart(pageSize, n)
    ensures k == n
  {
    if k < n {
      FrameFits(pageSize, n, k);
    }
  }

  lemma FramesApart(pageSize: nat, i: nat, k: nat)
    requires i != k
    ensures FrameStart(pageSize, i) + FrameSize(pageSize) <= FrameStart(pageSize, k)
         || FrameStart(pageSize, k) + FrameSize(pageSize) <= FrameStart(pageSize, i)
  {
    if i < k {
      FrameFits(pageSize, k, i);
    } else {
      FrameFits(pageSize, i, k);
    }
  }

  lemma HeaderFirst(pageSize: nat, k: nat)
    ensures FrameStart(pageSize, k) >= HEADER_SIZE
  {
  }
}
