/** Byte strings cut into pages of one size. */
module Pages {
  import opened Bytes

  lemma MulMonotone(a: nat, b: nat, c: nat)
    requires a <= b
    ensures a * c <= b * c
  {
  }

  function PageIndex(at: nat, size: nat): nat
    requires size > 0
  {
    at / size
  }

  function PageOffset(at: nat, size: nat): (start: nat)
    requires size > 0
    ensures start < size
  {
    at % size
  }

  lemma DivMod(at: nat, size: nat)
    requires size > 0
    ensures at == at / size * size + at % size && 0 <= at % size < size
  {
  }

  lemma DivModUnique(at: nat, size: nat, q: nat, r: nat)
    requires r < size && at == q * size + r
    ensures at / size == q && at % size == r
  {
    DivMod(at, size);
    if q < at / size {
      MulMonotone(q + 1, at / size, size);
    } else if at / size < q {
      MulMonotone(at / size + 1, q, size);
    }
  }

  lemma DivMonotone(a: nat, b: nat, size: nat)
    requires size > 0 && a <= b
    ensures a / size <= b / size
  {
    DivMod(a, size);
    DivMod(b, size);
    if b / size < a / size {
      MulMonotone(b / size + 1, a / size, size);
    }
  }

  lemma PageIndexInBounds(at: nat, count: nat, size: nat)
    requires size > 0 && at < count * size
    ensures at / size < count
  {
    DivMod(at, size);
    if count <= at / size {
      MulMonotone(count, at / size, size);
    }
  }

  /** From `at`, the rest of its page or of the range; the next byte, if there is one, starts the next page. */
  lemma NextPiece(at: nat, end: nat, size: nat)
    requires size > 0 && at < end
    ensures var (q, start) := (PageIndex(at, size), PageOffset(at, size));
            var next := at + Min(size - start, end - at);
            && at == q * size + start < next
            && (next < end ==> PageIndex(next, size) == q + 1)
            && (next == end ==> PageIndex(end - 1, size) == q)
  {
    var (q, start) := (at / size, at % size);
    DivMod(at, size);
    if size - start < end - at {
      assert (q + 1) * size == q * size + size;
      DivModUnique(at + (size - start), size, q + 1, 0);
    } else {
      DivModUnique(end - 1, size, q, start + (end - at) - 1);
    }
  }

  lemma SliceOfSlice(s: seq<byte>, base: nat, size: nat, start: nat, length: nat)
    requires base + size <= |s| && start + length <= size
    ensures s[base..base + size][start..start + length] == s[base + start..base + start + length]
  {
    var (inner, outer) := (s[base..base + size][start..start + length], s[base + start..base + start + length]);
    forall i | 0 <= i < length ensures inner[i] == outer[i] {
      assert inner[i] == s[base..base + size][start + i] == s[base + (start + i)];
    }
  }

  predicate HasPageAt(s: seq<byte>, size: nat, i: nat) {
    (i + 1) * size <= |s|
  }

  /** Page `i`, counted from zero. */
  function PageAt(s: seq<byte>, size: nat, i: nat): (page: seq<byte>)
    requires HasPageAt(s, size, i)
    ensures |page| == size
  {
    assert (i + 1) * size == i * size + size;
    s[i * size..i * size + size]
  }

  predicate PageIs(s: seq<byte>, size: nat, i: nat, page: seq<byte>) {
    HasPageAt(s, size, i) && PageAt(s, size, i) == page
  }

  predicate Uniform(pages: seq<seq<byte>>, size: nat) {
    forall i :: 0 <= i < |pages| ==> |pages[i]| == size
  }

  function Join(pages: seq<seq<byte>>): seq<byte> {
    if pages == [] then [] else Join(pages[..|pages| - 1]) + pages[|pages| - 1]
  }

  lemma {:induction false} JoinLength(pages: seq<seq<byte>>, size: nat)
    requires Uniform(pages, size)
    ensures |Join(pages)| == |pages| * size
  {
    if pages != [] {
      JoinLength(pages[..|pages| - 1], size);
      assert |pages| * size == (|pages| - 1) * size + size;
    }
  }

  lemma PageOfPrefix(s: seq<byte>, t: seq<byte>, size: nat, i: nat, page: seq<byte>)
    requires PageIs(s, size, i, page)
    ensures PageIs(s + t, size, i, page)
  {
    assert (i + 1) * size == i * size + size;
  }

  lemma PageAtEnd(s: seq<byte>, size: nat, i: nat, page: seq<byte>)
    requires |s| == i * size && |page| == size
    ensures PageIs(s + page, size, i, page)
  {
    assert (i + 1) * size == i * size + size;
  }

  lemma {:induction false} JoinPageAt(pages: seq<seq<byte>>, size: nat, i: nat)
    requires Uniform(pages, size) && i < |pages|
    ensures |Join(pages)| == |pages| * size && PageIs(Join(pages), size, i, pages[i])
  {
    hide PageIs;
    JoinLength(pages, size);
    var (front, page) := (pages[..|pages| - 1], pages[|pages| - 1]);
    JoinLength(front, size);
    if i < |front| {
      JoinPageAt(front, size, i);
      PageOfPrefix(Join(front), page, size, i, pages[i]);
    } else {
      PageAtEnd(Join(front), size, i, page);
    }
  }

  /** The first `k` of `pages` are the first pages of `s`. */
  predicate Covers(s: seq<byte>, size: nat, pages: seq<seq<byte>>, k: nat)
    requires k <= |pages|
  {
    forall i :: 0 <= i < k ==> PageIs(s, size, i, pages[i])
  }

  lemma {:induction false} JoinOfFirst(s: seq<byte>, size: nat, pages: seq<seq<byte>>, k: nat)
    requires k <= |pages| && k * size <= |s| && Covers(s, size, pages, k)
    ensures s[..k * size] == Join(pages[..k])
  {
    if k > 0 {
      var n := k - 1;
      assert k * size == n * size + size;
      MulMonotone(n, k, size);
      JoinOfFirst(s, size, pages, n);
      assert PageIs(s, size, n, pages[n]);
      assert s[..k * size] == s[..n * size] + pages[n];
      assert pages[..k][..n] == pages[..n];
    }
  }

  /** A byte string is determined by its pages. */
  lemma JoinOfPages(s: seq<byte>, size: nat, pages: seq<seq<byte>>)
    requires |s| == |pages| * size && Covers(s, size, pages, |pages|)
    ensures s == Join(pages)
  {
    hide Covers, Join;
    JoinOfFirst(s, size, pages, |pages|);
    assert s[..|s|] == s && pages[..|pages|] == pages;
  }

  lemma JoinExtends(pages: seq<seq<byte>>, page: seq<byte>)
    ensures Join(pages + [page]) == Join(pages) + page
  {
    assert (pages + [page])[..|pages|] == pages;
  }
}
