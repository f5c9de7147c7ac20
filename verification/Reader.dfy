/** The authenticated random-access reader over a source whose operations may fail. */
module Reader {
  import opened Outcomes
  import opened Bytes
  import opened Config
  import opened Primitives
  import opened Decryptor
  import opened Sources
  import opened Pages
  import opened Databases

  function PageNumberFromIndex(index: u64): Option<PageNumber> {
    if index + 1 <= U32_MAX then Some(index + 1) else None
  }

  class SqlCipherReader {
    const source: ReadSource
    const decryptor: PageDecryptor
    const fileSize: u64
    const pageCount: u32

    ghost function View(): Database {
      Database(decryptor, source.bytes, pageCount)
    }

    ghost predicate Valid() {
      View().Valid() && fileSize == |source.bytes|
    }

    constructor (source: ReadSource, decryptor: PageDecryptor, fileSize: u64, pageCount: u32)
      ensures this.source == source && this.decryptor == decryptor
      ensures this.fileSize == fileSize && this.pageCount == pageCount
    {
      this.source, this.decryptor, this.fileSize, this.pageCount := source, decryptor, fileSize, pageCount;
    }

    static method Open(p: Primitives, source: ReadSource, config: CipherConfig, passphrase: seq<byte>)
      returns (r: Result<SqlCipherReader, ReaderError>)
      modifies source
      ensures match OpenOutcome(p, config, passphrase, source.bytes, old(source.faults))
              case Success(db) => r.Success? && fresh(r.value) && r.value.Valid() && r.value.source == source
                                  && r.value.View() == db
              case Failure(e) => r == Failure(e)
      ensures source.faults ==
              if Head(old(source.faults)).None? && CheckLength(|source.bytes|, config.pageSize).Success?
              then Tail(Tail(old(source.faults))) else Tail(old(source.faults))
    {
      hide NewDecryptor, AcceptsPageSize;
      var length := source.Len();
      var fileSize :- FromSource(length);
      LayoutFits(config);
      var pageCount :- CheckLength(fileSize, config.pageSize);
      var salt := new byte[16];
      var read := source.ReadExactAt(0, salt);
      var _ :- FromSource(read);
      var decryptor :- FromDecrypt(NewDecryptor(p, config, passphrase, salt[..]));
      var reader := new SqlCipherReader(source, decryptor, fileSize, pageCount);
      return Success(reader);
    }

    function PageSize(): (size: nat)
      ensures 1024 <= size <= 65_536
    {
      decryptor.PageSize()
    }

    method ReadPageInto(n: PageNumber, output: array<byte>) returns (r: Result<(), ReaderError>)
      requires Valid()
      modifies source, output
      ensures output.Length != PageSize() ==>
                && r == Failure(InvalidOutputPageLength(PageSize(), output.Length))
                && source.faults == old(source.faults)
      ensures output.Length == PageSize() && n > pageCount ==>
                r == Failure(PageOutOfRange(n, pageCount)) && source.faults == old(source.faults)
      ensures output.Length == PageSize() && n <= pageCount ==>
                && source.faults == Tail(old(source.faults))
                && match ReadPage(View(), n, Head(old(source.faults)))
                   case Success(page) => r == Success(()) && output[..] == page
                   case Failure(e) => r == Failure(e)
      ensures r.Failure? ==> output[..] == Zeros(output.Length)
    {
      hide DecryptPage, AcceptsPageSize;
      var pageSize := PageSize();
      if output.Length != pageSize {
        Zeroize(output);
        return Failure(InvalidOutputPageLength(pageSize, output.Length));
      }
      Zeroize(output);
      if n > pageCount {
        return Failure(PageOutOfRange(n, pageCount));
      }
      MulMonotone(n, pageCount, pageSize);
      assert n * pageSize == (n - 1) * pageSize + pageSize;
      var pageIndex: nat := n - 1;
      var encryptedOffset := CheckedMul(pageIndex, pageSize);
      if encryptedOffset.None? {
        return Failure(OffsetOverflow(pageIndex, pageSize));
      }
      var read := source.ReadExactAt(encryptedOffset.value, output);
      if read.Failure? {
        Zeroize(output);
        return Failure(Source(read.error));
      }
      assert output[..] == View().StoredPage(n);
      var decrypted := DecryptPageInPlace(decryptor, n, output);
      return FromDecrypt(decrypted);
    }

    method ReadExactAt(offset: u64, output: array<byte>) returns (r: Result<(), ReaderError>)
      requires Valid()
      modifies source, output
      ensures var outcome := ReadRange(View(), old(source.faults), offset, output.Length);
              && source.faults == outcome.faults
              && match outcome.result
                 case Success(range) => r.Success? && output[..] == range
                 case Failure(e) => r == Failure(e) && output[..] == Zeros(output.Length)
    {
      hide ReadRange, AcceptsPageSize;
      EmptyRange(View(), source.faults, offset);
      if output.Length == 0 {
        return Success(());
      }
      Zeroize(output);
      r := ReadExactAtNonempty(offset, output);
      if r.Failure? {
        Zeroize(output);
      }
    }

    method ReadExactAtNonempty(offset: u64, output: array<byte>) returns (r: Result<(), ReaderError>)
      requires Valid() && output.Length > 0
      modifies source, output
      ensures var outcome := ReadRange(View(), old(source.faults), offset, output.Length);
              && source.faults == outcome.faults
              && match outcome.result
                 case Success(range) => r.Success? && output[..] == range
                 case Failure(e) => r == Failure(e)
    {
      hide ScanRange, AcceptsPageSize, Database.Image;
      var end := CheckedAdd(offset, output.Length);
      if end.None? {
        return Failure(OffsetOverflow(offset, output.Length));
      }
      if end.value > fileSize {
        return Failure(UnexpectedEnd(offset, output.Length, fileSize));
      }
      if output.Length == PageSize() && offset % PageSize() == 0 {
        r := ReadAlignedPage(offset, output);
      } else {
        r := ReadPieces(offset, end.value, output);
      }
    }

    /** The fast path: one complete page straight into the caller's buffer. */
    method ReadAlignedPage(offset: u64, output: array<byte>) returns (r: Result<(), ReaderError>)
      requires Valid() && output.Length == PageSize()
      requires offset % PageSize() == 0 && offset + PageSize() <= fileSize
      modifies source, output
      ensures var scan := ScanRange(View(), old(source.faults), offset, offset + output.Length);
              && source.faults == scan.faults && r == scan.result
      ensures r.Success? ==> output[..] == View().Image()[offset..offset + output.Length]
    {
      hide AcceptsPageSize, Database.Page, Database.Image, Scan, ScanRange, PageHolding;
      AlignedPage(View(), offset, source.faults);
      var overflow: Result<(), ReaderError> := Failure(OffsetOverflow(offset, output.Length));
      var index := offset / PageSize();
      var pageNumber := PageNumberFromIndex(index);
      if pageNumber.None? {
        return overflow;
      }
      r := ReadPageInto(pageNumber.value, output);
    }

    /** The page loop: every touched page goes through a scratch buffer. */
    method ReadPieces(offset: u64, end: u64, output: array<byte>) returns (r: Result<(), ReaderError>)
      requires Valid() && output.Length > 0 && end == offset + output.Length <= fileSize
      modifies source, output
      ensures var scan := ScanRange(View(), old(source.faults), offset, end);
              && source.faults == scan.faults && r == scan.result
      ensures r.Success? ==> output[..] == View().Image()[offset..end]
    {
      hide AcceptsPageSize, Database.Page, Database.PlainPage, Database.Image, Scan, ScanRange, ReadPage, Splice,
           PageIndex, PageOffset, Database.Valid, PageDecryptor.PageSize, Holds;
      ghost var db := View();
      ScanRangeIsScan(db, source.faults, offset, end);
      ghost var next, last := PageHolding(db, offset), PageHolding(db, end - 1);
      TouchedPages(db, offset, end - offset);
      var overflow: Result<(), ReaderError> := Failure(OffsetOverflow(offset, output.Length));
      var plaintextPage := new byte[PageSize()];
      var databaseOffset, outputOffset := offset, 0;
      NothingHeld(output[..], db.Image(), offset);
      while outputOffset < output.Length
        invariant 0 <= outputOffset <= output.Length && databaseOffset == offset + outputOffset
        invariant Holds(output[..], outputOffset, db.Image(), offset)
        invariant next == if outputOffset < output.Length then PageHolding(db, databaseOffset) else last + 1
        invariant next >= 1 && last <= db.pageCount
        invariant Scan(db, source.faults, next, last) == ScanRange(db, old(source.faults), offset, end)
      {
        var pageIndex := PageIndex(databaseOffset, PageSize());
        CopiedPiece(db, databaseOffset, end);
        TouchedPages(db, databaseOffset, end - databaseOffset);
        var pageNumber := PageNumberFromIndex(pageIndex);
        if pageNumber.None? {
          return overflow;
        }
        var offsetInPage := PageOffset(databaseOffset, PageSize());
        var copyLength := Min(PageSize() - offsetInPage, output.Length - outputOffset);
        ScanStep(db, source.faults, next, last);
        var read := ReadPageInto(pageNumber.value, plaintextPage);
        if read.Failure? {
          return read;
        }
        var piece := plaintextPage[offsetInPage..offsetInPage + copyLength];
        PieceAppended(output[..], outputOffset, db.Image(), offset, piece);
        CopyInto(output, outputOffset, piece);
        outputOffset := outputOffset + copyLength;
        var advanced := CheckedAdd(databaseOffset, copyLength);
        if advanced.None? {
          return overflow;
        }
        databaseOffset := advanced.value;
        next := next + 1;
      }
      ScanEnds(db, source.faults, last);
      AllHeld(output[..], db.Image(), offset);
      return Success(());
    }
  }

  // ----- arithmetic of the range loop

  lemma ScanRangeIsScan(db: Database, faults: Faults, offset: nat, end: nat)
    requires db.Valid() && offset < end <= |db.bytes|
    ensures db.HasPage(PageHolding(db, end - 1))
    ensures ScanRange(db, faults, offset, end) == Scan(db, faults, PageHolding(db, offset), PageHolding(db, end - 1))
  {
    hide AcceptsPageSize, Scan;
    PageHoldingInBounds(db, end - 1);
  }

  lemma ScanStep(db: Database, faults: Faults, n: nat, last: nat)
    requires db.Valid() && db.HasPage(n) && n <= last <= db.pageCount
    ensures match ReadPage(db, n, Head(faults))
            case Failure(e) => Scan(db, faults, n, last) == Outcome(Failure(e), Tail(faults))
            case Success(page) => page == db.PlainPage(n)
                                  && Scan(db, faults, n, last) == Scan(db, Tail(faults), n + 1, last)
  {
    hide Database.Page;
  }

  lemma ScanEnds(db: Database, faults: Faults, last: nat)
    requires db.Valid() && last <= db.pageCount
    ensures Scan(db, faults, last + 1, last) == Outcome(Success(()), faults)
  {
  }

  ghost function ReadAlone(r: Result<seq<byte>, ReaderError>, faults: Faults): Outcome<()> {
    Outcome(if r.Success? then Success(()) else Failure(r.error), Tail(faults))
  }

  lemma AlignedPage(db: Database, offset: nat, faults: Faults)
    requires db.Valid() && offset % db.PageSize() == 0 && offset + db.PageSize() <= |db.bytes|
    ensures var n := offset / db.PageSize() + 1;
            && db.HasPage(n)
            && db.Image()[offset..offset + db.PageSize()] == db.PlainPage(n)
            && ScanRange(db, faults, offset, offset + db.PageSize()) == ReadAlone(ReadPage(db, n, Head(faults)), faults)
  {
    hide AcceptsPageSize, Database.PlainPage, Database.Image, ReadPage, Scan, ReadAlone;
    var (size, q) := (db.PageSize(), offset / db.PageSize());
    DivMod(offset, size);
    DivModUnique(offset + size - 1, size, q, size - 1);
    PageHoldingInBounds(db, offset);
    db.ImagePage(q + 1);
    ScanOne(db, faults, q + 1);
  }

  lemma ScanOne(db: Database, faults: Faults, n: nat)
    requires db.Valid() && db.HasPage(n)
    ensures Scan(db, faults, n, n) == ReadAlone(ReadPage(db, n, Head(faults)), faults)
  {
    hide ReadPage;
  }

  /** One turn of the page loop copies the right piece, and then either moves to the next page or is done. */
  lemma CopiedPiece(db: Database, at: nat, end: nat)
    requires db.Valid() && at < end <= |db.bytes|
    ensures var (n, start) := (PageHolding(db, at), PageOffset(at, db.PageSize()));
            var copied := Min(db.PageSize() - start, end - at);
            && n <= U32_MAX && copied > 0 && db.HasPage(n)
            && db.Image()[at..at + copied] == db.PlainPage(n)[start..start + copied]
            && (at + copied < end ==> PageHolding(db, at + copied) == n + 1)
            && (at + copied == end ==> PageHolding(db, end - 1) == n)
  {
    hide PageDecryptor.PageSize, PageIndex, PageOffset, PageAt, HasPageAt, Database.PlainPage, Database.Image;
    var (size, q, start) := (db.PageSize(), PageIndex(at, db.PageSize()), PageOffset(at, db.PageSize()));
    var copied := Min(size - start, end - at);
    NextPiece(at, end, size);
    PageHoldingInBounds(db, at);
    db.ImagePage(q + 1);
    PieceOfPage(db.Image(), size, q, start, copied);
  }

  lemma PieceOfPage(image: seq<byte>, size: nat, q: nat, start: nat, copied: nat)
    requires HasPageAt(image, size, q) && start + copied <= size
    ensures q * size + start + copied <= |image|
    ensures image[q * size + start..q * size + start + copied] == PageAt(image, size, q)[start..start + copied]
  {
    assert (q + 1) * size == q * size + size;
    SliceOfSlice(image, q * size, size, start, copied);
  }
}
