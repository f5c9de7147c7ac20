/** What a range read returns, for every range and every pattern of source failures. */
module RangeReads {
  import opened Outcomes
  import opened Bytes
  import opened Config
  import opened Sources
  import opened Pages
  import opened Databases

  predicate AllDecrypt(db: Database, n: nat, last: nat)
    requires db.Valid() && 1 <= n && last <= db.pageCount
  {
    forall k {:trigger db.HasPage(k)} :: n <= k <= last && db.HasPage(k) ==> db.Page(k).Success?
  }

  // ----- the scan

  lemma QuietTail(faults: Faults, i: nat)
    ensures FaultAt(faults, 0) == Head(faults)
    ensures FaultAt(Tail(faults), i) == FaultAt(faults, i + 1) && Drop(Tail(faults), i) == Drop(faults, i + 1)
    ensures Quiet(faults, i + 1) ==> Head(faults).None? && Quiet(Tail(faults), i)
  {
    if Quiet(faults, i + 1) {
      assert FaultAt(faults, 0).None?;
      assert forall j :: 0 <= j < i ==> FaultAt(Tail(faults), j) == FaultAt(faults, j + 1);
    }
  }

  lemma DecryptTail(db: Database, n: nat, last: nat)
    requires db.Valid() && 1 <= n <= last <= db.pageCount && AllDecrypt(db, n, last)
    ensures db.HasPage(n) && db.Page(n).Success? && AllDecrypt(db, n + 1, last)
  {
    hide Database.Page, Database.Valid;
    assert db.HasPage(n);
  }

  lemma {:induction false} ScanCompletes(db: Database, faults: Faults, n: nat, last: nat)
    requires db.Valid() && 1 <= n <= last + 1 && last <= db.pageCount
    requires Quiet(faults, last + 1 - n) && AllDecrypt(db, n, last)
    ensures Scan(db, faults, n, last) == Outcome(Success(()), Drop(faults, last + 1 - n))
    decreases last - n
  {
    hide Database.Page, Database.Valid, Quiet, AllDecrypt, Head, Tail;
    if n <= last {
      QuietTail(faults, last - n);
      DecryptTail(db, n, last);
      ScanCompletes(db, Tail(faults), n + 1, last);
    }
  }

  lemma FirstStepFails(faults: Faults)
    ensures FaultAt(faults, 0) == Head(faults) && Drop(faults, 1) == Tail(faults)
  {
  }

  /** The scan ends at the first page whose read or decryption fails and reports that failure. */
  lemma {:induction false} FirstFailureReported(db: Database, faults: Faults, n: nat, last: nat, bad: nat)
    requires db.Valid() && 1 <= n <= bad <= last <= db.pageCount
    requires Quiet(faults, bad - n) && AllDecrypt(db, n, bad - 1)
    requires FaultAt(faults, bad - n).Some? || db.Page(bad).Failure?
    ensures var fault := FaultAt(faults, bad - n);
            Scan(db, faults, n, last) ==
            Outcome(Failure(if fault.Some? then Source(fault.value.error) else Decrypt(db.Page(bad).error)),
                    Drop(faults, bad - n + 1))
    decreases bad - n
  {
    hide Database.Page, Database.Valid, Quiet, AllDecrypt, Head, Tail, FaultAt, Drop;
    if n == bad {
      FirstStepFails(faults);
    } else {
      QuietTail(faults, bad - n - 1);
      QuietTail(faults, bad - n);
      DecryptTail(db, n, bad - 1);
      FirstFailureReported(db, Tail(faults), n + 1, last, bad);
    }
  }

  /** Some page of the range is the first to stop the scan, or none is. */
  lemma FindFirstFailure(db: Database, faults: Faults, n: nat, last: nat) returns (bad: nat)
    requires db.Valid() && 1 <= n <= last + 1 && last <= db.pageCount
    ensures n <= bad <= last + 1
    ensures Quiet(faults, bad - n) && AllDecrypt(db, n, bad - 1)
    ensures bad <= last ==> FaultAt(faults, bad - n).Some? || db.Page(bad).Failure?
  {
    hide Database.Page;
    bad := n;
    while bad <= last && FaultAt(faults, bad - n).None? && db.Page(bad).Success?
      invariant n <= bad <= last + 1
      invariant Quiet(faults, bad - n) && AllDecrypt(db, n, bad - 1)
    {
      bad := bad + 1;
    }
  }

  /** A scan that succeeds has decrypted every page, whatever the source did. */
  lemma ScanSound(db: Database, faults: Faults, n: nat, last: nat)
    requires db.Valid() && 1 <= n <= last + 1 && last <= db.pageCount
    requires Scan(db, faults, n, last).result.Success?
    ensures AllDecrypt(db, n, last)
  {
    hide Database.Page, Scan;
    var bad := FindFirstFailure(db, faults, n, last);
    if bad <= last {
      FirstFailureReported(db, faults, n, last, bad);
    }
  }

  lemma FaultFreeIsQuiet(faults: Faults, i: nat)
    requires FaultFree(faults)
    ensures Quiet(faults, i)
  {
  }

  // ----- one range

  /** Every page the range touches decrypts. */
  predicate RangeDecrypts(db: Database, offset: nat, length: nat)
    requires db.Valid() && length > 0 && offset + length <= |db.bytes|
  {
    TouchedPages(db, offset, length);
    AllDecrypt(db, PageHolding(db, offset), PageHolding(db, offset + length - 1))
  }

  /** With a source that never fails, an in-bounds read returns the slice exactly when every touched page decrypts. */
  lemma FaultFreeRange(db: Database, faults: Faults, offset: u64, length: nat)
    requires db.Valid() && FaultFree(faults) && length > 0 && offset + length <= |db.bytes|
    ensures ReadRange(db, faults, offset, length).result.Success? <==> RangeDecrypts(db, offset, length)
    ensures RangeDecrypts(db, offset, length) ==>
              ReadRange(db, faults, offset, length).result == Success(db.Image()[offset..offset + length])
  {
    hide Database.Image, Database.Page, Scan, PageHolding, AllDecrypt, FaultFree, Quiet;
    TouchedPages(db, offset, length);
    var (first, last) := (PageHolding(db, offset), PageHolding(db, offset + length - 1));
    if AllDecrypt(db, first, last) {
      FaultFreeIsQuiet(faults, last + 1 - first);
      ScanCompletes(db, faults, first, last);
    }
    if Scan(db, faults, first, last).result.Success? {
      ScanSound(db, faults, first, last);
    }
  }

  /** The failure reported is that of the lowest-numbered touched page that does not decrypt. */
  lemma LowestBadPageReported(db: Database, faults: Faults, offset: u64, length: nat, bad: nat)
    requires db.Valid() && FaultFree(faults) && length > 0 && offset + length <= |db.bytes|
    requires PageHolding(db, offset) <= bad <= PageHolding(db, offset + length - 1) <= db.pageCount
    requires db.Page(bad).Failure? && AllDecrypt(db, PageHolding(db, offset), bad - 1)
    ensures ReadRange(db, faults, offset, length).result == Failure(Decrypt(db.Page(bad).error))
  {
    hide Database.Image, Database.Page, Scan, PageHolding, AllDecrypt, FaultFree, Quiet;
    TouchedPages(db, offset, length);
    NoFaultAt(faults, bad - PageHolding(db, offset));
    FirstFailureReported(db, faults, PageHolding(db, offset), PageHolding(db, offset + length - 1), bad);
  }

  lemma NoFaultAt(faults: Faults, i: nat)
    requires FaultFree(faults)
    ensures FaultAt(faults, i).None? && Quiet(faults, i)
  {
  }

  /** Which requests fail before any page is read, and that no other error but these can come out. */
  lemma RangeErrors(db: Database, faults: Faults, offset: u64, length: nat)
    requires db.Valid()
    ensures var r := ReadRange(db, faults, offset, length).result;
            && (r == Failure(OffsetOverflow(offset, length)) <==> length > 0 && offset + length > U64_MAX)
            && (r == Failure(UnexpectedEnd(offset, length, |db.bytes|)) <==>
                length > 0 && |db.bytes| < offset + length <= U64_MAX)
            && (r.Failure? && r.error.OffsetOverflow? ==> offset + length > U64_MAX)
            && (r.Failure? && r.error.UnexpectedEnd? ==> |db.bytes| < offset + length <= U64_MAX)
            && (r.Failure? ==> r.error.OffsetOverflow? || r.error.UnexpectedEnd? || r.error.Source? || r.error.Decrypt?)
  {
    hide Database.Image, Database.Page, Scan, PageHolding, AllDecrypt, Quiet;
    if length > 0 && offset + length <= |db.bytes| {
      TouchedPages(db, offset, length);
      ScanErrors(db, faults, PageHolding(db, offset), PageHolding(db, offset + length - 1));
    }
  }

  lemma ScanErrors(db: Database, faults: Faults, n: nat, last: nat)
    requires db.Valid() && 1 <= n <= last + 1 && last <= db.pageCount
    ensures var r := Scan(db, faults, n, last).result; r.Failure? ==> r.error.Source? || r.error.Decrypt?
  {
    hide Database.Page, Scan, AllDecrypt, Quiet;
    var bad := FindFirstFailure(db, faults, n, last);
    if bad <= last {
      FirstFailureReported(db, faults, n, last, bad);
    } else {
      ScanCompletes(db, faults, n, last);
    }
  }

  /** Byte `at` of the image is the corresponding byte of the page that holds it. */
  lemma ImageByte(db: Database, at: nat)
    requires db.Valid() && at < |db.bytes|
    ensures db.HasPage(PageHolding(db, at))
    ensures at % db.PageSize() < db.PageSize()
    ensures db.Image()[at] == db.PlainPage(PageHolding(db, at))[at % db.PageSize()]
  {
    hide AcceptsPageSize, Database.PlainPage, Database.Image;
    var (size, q) := (db.PageSize(), at / db.PageSize());
    PageHoldingInBounds(db, at);
    DivMod(at, size);
    db.ImagePage(q + 1);
    PageByte(db.Image(), size, q, at % size);
  }

  lemma PageByte(s: seq<byte>, size: nat, q: nat, r: nat)
    requires HasPageAt(s, size, q) && r < size
    ensures q * size + r < |s| && s[q * size + r] == PageAt(s, size, q)[r]
  {
    assert (q + 1) * size == q * size + size;
  }

  /** Whatever the source does, each byte of a successful read comes from a page that was authenticated. */
  lemma RangeBytes(db: Database, faults: Faults, offset: u64, length: nat, i: nat)
    requires db.Valid() && i < length
    requires ReadRange(db, faults, offset, length).result.Success?
    ensures offset + length <= |db.bytes| && |ReadRange(db, faults, offset, length).result.value| == length
    ensures db.HasPage(PageHolding(db, offset + i)) && db.Page(PageHolding(db, offset + i)).Success?
    ensures (offset + i) % db.PageSize() < db.PageSize()
    ensures ReadRange(db, faults, offset, length).result.value[i]
         == db.Page(PageHolding(db, offset + i)).value[(offset + i) % db.PageSize()]
  {
    hide AcceptsPageSize, Database.Image, Database.Page, Scan;
    TouchedPages(db, offset, length);
    ScanSound(db, faults, PageHolding(db, offset), PageHolding(db, offset + length - 1));
    ImageByte(db, offset + i);
    DivMonotone(offset, offset + i, db.PageSize());
    DivMonotone(offset + i, offset + length - 1, db.PageSize());
  }

  // ----- two ranges

  /** The pages touched by a range are those touched by its two parts. */
  lemma DecryptsInParts(db: Database, offset: nat, m: nat, n: nat)
    requires db.Valid() && m > 0 && n > 0 && offset + m + n <= |db.bytes|
    ensures RangeDecrypts(db, offset, m + n) <==> RangeDecrypts(db, offset, m) && RangeDecrypts(db, offset + m, n)
  {
    hide AcceptsPageSize, Database.Page;
    TouchedPages(db, offset, m);
    TouchedPages(db, offset + m, n);
    TouchedPages(db, offset, m + n);
    AdjacentPages(offset + m, db.PageSize());
  }

  lemma AdjacentPages(at: nat, size: nat)
    requires size > 0 && at > 0
    ensures (at - 1) / size <= at / size <= (at - 1) / size + 1
  {
    var (q, r) := ((at - 1) / size, (at - 1) % size);
    DivMod(at - 1, size);
    if r + 1 < size {
      DivModUnique(at, size, q, r + 1);
    } else {
      assert (q + 1) * size == q * size + size;
      DivModUnique(at, size, q + 1, 0);
    }
  }

  /** The first failure of two reads, or their bytes one after the other. */
  function Combined(left: Result<seq<byte>, ReaderError>, right: Result<seq<byte>, ReaderError>)
    : Result<seq<byte>, ReaderError>
  {
    if left.Failure? then left else if right.Failure? then right else Success(left.value + right.value)
  }

  /** An in-bounds range reads as its two parts together, errors included; beyond the end neither way succeeds. */
  lemma RangesCompose(db: Database, faults: Faults, faults1: Faults, faults2: Faults, offset: u64, m: nat, n: nat)
    requires db.Valid() && FaultFree(faults) && FaultFree(faults1) && FaultFree(faults2)
    requires offset + m + n <= U64_MAX
    ensures var whole := ReadRange(db, faults, offset, m + n).result;
            var parts := Combined(ReadRange(db, faults1, offset, m).result,
                                  ReadRange(db, faults2, offset + m, n).result);
            && (offset + m + n <= |db.bytes| ==> whole == parts)
            && (whole.Success? <==> parts.Success?)
            && (whole.Success? ==> whole == parts)
  {
    hide ReadRange, RangeDecrypts, Database.Image, Database.Valid, FaultFree;
    if m == 0 || n == 0 {
      EmptyRange(db, faults1, offset);
      EmptyRange(db, faults2, offset + m);
      var part := ReadRange(db, if m == 0 then faults2 else faults1, offset, m + n).result;
      FaultsIrrelevant(db, faults, if m == 0 then faults2 else faults1, offset, m + n);
      assert part.Success? ==> part.value + [] == part.value == [] + part.value;
    } else if offset + m + n > |db.bytes| {
      BeyondTheEnd(db, faults, offset, m + n);
      BeyondTheEnd(db, faults2, offset + m, n);
    } else if RangeDecrypts(db, offset, m + n) {
      DecryptsInParts(db, offset, m, n);
      FaultFreeRange(db, faults, offset, m + n);
      FaultFreeRange(db, faults1, offset, m);
      FaultFreeRange(db, faults2, offset + m, n);
      var (image, middle, end) := (db.Image(), offset + m, offset + m + n);
      assert image[offset..end] == image[offset..middle] + image[middle..end];
    } else {
      FirstErrorOfParts(db, faults, faults1, faults2, offset, m, n);
    }
  }

  /** The lowest bad page of the whole range is that of the first part that has one. */
  lemma FirstErrorOfParts(db: Database, faults: Faults, faults1: Faults, faults2: Faults, offset: u64, m: nat, n: nat)
    requires db.Valid() && FaultFree(faults) && FaultFree(faults1) && FaultFree(faults2)
    requires m > 0 && n > 0 && offset + m + n <= |db.bytes| && !RangeDecrypts(db, offset, m + n)
    ensures var whole := ReadRange(db, faults, offset, m + n).result;
            var parts := Combined(ReadRange(db, faults1, offset, m).result,
                                  ReadRange(db, faults2, offset + m, n).result);
            whole.Failure? && whole == parts
  {
    hide ReadRange, AcceptsPageSize, Database.Image, Database.Page, Database.PageSize, PageIndex, FaultFree;
    var bad := LowestBadPage(db, offset, m + n);
    LowestBadPageReported(db, faults, offset, m + n, bad);
    TouchedPages(db, offset, m);
    TouchedPages(db, offset + m, n);
    PartsMeet(db, offset + m);
    if bad <= PageHolding(db, offset + m - 1) {
      LowestBadPageReported(db, faults1, offset, m, bad);
    } else {
      FaultFreeRange(db, faults1, offset, m);
      LowestBadPageReported(db, faults2, offset + m, n, bad);
    }
  }

  lemma PartsMeet(db: Database, at: nat)
    requires at > 0
    ensures PageHolding(db, at - 1) <= PageHolding(db, at) <= PageHolding(db, at - 1) + 1
  {
    AdjacentPages(at, db.PageSize());
  }

  lemma LowestBadPage(db: Database, offset: nat, length: nat) returns (bad: nat)
    requires db.Valid() && length > 0 && offset + length <= |db.bytes| && !RangeDecrypts(db, offset, length)
    ensures PageHolding(db, offset) <= bad <= PageHolding(db, offset + length - 1) <= db.pageCount
    ensures 1 <= PageHolding(db, offset) && db.Page(bad).Failure? && AllDecrypt(db, PageHolding(db, offset), bad - 1)
  {
    hide Database.Page, Database.Valid, AllDecrypt, PageIndex;
    TouchedPages(db, offset, length);
    bad := FindFirstFailure(db, [], PageHolding(db, offset), PageHolding(db, offset + length - 1));
  }

  lemma BeyondTheEnd(db: Database, faults: Faults, offset: u64, length: nat)
    requires db.Valid() && length > 0 && offset + length > |db.bytes|
    ensures ReadRange(db, faults, offset, length).result.Failure?
  {
  }

  /** Sources that never fail all give the same result. */
  lemma FaultsIrrelevant(db: Database, faults: Faults, other: Faults, offset: u64, length: nat)
    requires db.Valid() && FaultFree(faults) && FaultFree(other)
    ensures ReadRange(db, faults, offset, length).result == ReadRange(db, other, offset, length).result
  {
    hide RangeDecrypts, Database.Image, Database.Valid, ScanRange, FaultFree;
    if length > 0 && offset + length <= |db.bytes| {
      if RangeDecrypts(db, offset, length) {
        FaultFreeRange(db, faults, offset, length);
        FaultFreeRange(db, other, offset, length);
      } else {
        var bad := LowestBadPage(db, offset, length);
        LowestBadPageReported(db, faults, offset, length, bad);
        LowestBadPageReported(db, other, offset, length, bad);
      }
    }
  }

  // ----- two databases

  /** Both databases have the same shape and agree on the outcome of pages `n` through `last`. */
  predicate SamePages(db: Database, other: Database, n: nat, last: nat)
    requires db.Valid() && other.Valid() && 1 <= n && last <= db.pageCount
  {
    && db.PageSize() == other.PageSize() && db.pageCount == other.pageCount
    && forall k {:trigger db.HasPage(k)} :: n <= k <= last && db.HasPage(k) ==> db.Page(k) == other.Page(k)
  }

  lemma {:induction false} SameScan(db: Database, other: Database, faults: Faults, n: nat, last: nat)
    requires db.Valid() && other.Valid() && 1 <= n && last <= db.pageCount && SamePages(db, other, n, last)
    ensures Scan(db, faults, n, last) == Scan(other, faults, n, last)
    decreases last - n
  {
    hide Database.Page;
    if n <= last {
      assert db.HasPage(n);
      SameScan(db, other, Tail(faults), n + 1, last);
    }
  }

  predicate SameTouchedPages(db: Database, other: Database, offset: nat, length: nat)
    requires db.Valid() && other.Valid() && length > 0 && offset + length <= |db.bytes|
  {
    TouchedPages(db, offset, length);
    SamePages(db, other, PageHolding(db, offset), PageHolding(db, offset + length - 1))
  }

  /** A read depends on nothing but the pages it touches. */
  lemma ReadsAreLocal(db: Database, other: Database, faults: Faults, offset: u64, length: nat)
    requires db.Valid() && other.Valid() && |db.bytes| == |other.bytes| && length > 0
    requires offset + length <= |db.bytes| ==> SameTouchedPages(db, other, offset, length)
    ensures ReadRange(db, faults, offset, length) == ReadRange(other, faults, offset, length)
  {
    hide Database.Valid, Database.PageSize, Database.Image, Database.Page, PageIndex, Scan;
    if offset + length <= |db.bytes| {
      TouchedPages(db, offset, length);
      SameScan(db, other, faults, PageHolding(db, offset), PageHolding(db, offset + length - 1));
      if ReadRange(db, faults, offset, length).result.Success? {
        var (range, range') := (ReadRange(db, faults, offset, length).result.value,
                               ReadRange(other, faults, offset, length).result.value);
        forall i | 0 <= i < length ensures range[i] == range'[i] {
          RangeBytes(db, faults, offset, length, i);
          RangeBytes(other, faults, offset, length, i);
          TouchedPages(db, offset, i + 1);
          TouchedPages(db, offset + i, length - i);
        }
        assert range == range';
      }
    }
  }
}
