/** The flat plaintext image behind an encrypted file, and what reading it must return. */
module Databases {
  import opened Outcomes
  import opened Bytes
  import opened Config
  import opened Primitives
  import opened Decryptor
  import opened Sources
  import opened Pages

  datatype ReaderError =
    | Source(error: IoError)
    | Decrypt(reason: DecryptError)
    | InvalidOutputPageLength(expected: nat, actual: nat)
    | EmptyFile
    | FileTooSmall(fileSize: nat, pageSize: nat)
    | InvalidFileSize(size: nat, pageBytes: nat)
    | TooManyPages(pages: nat)
    | PageOutOfRange(pageNo: PageNumber, pageCount: u32)
    | OffsetOverflow(offset: nat, length: nat)
    | UnexpectedEnd(start: nat, requested: nat, available: nat)

  /** An encrypted file together with the decryptor that was derived for it. */
  datatype Database = Database(decryptor: PageDecryptor, bytes: seq<byte>, pageCount: nat) {
    function PageSize(): (size: nat)
      ensures 1024 <= size <= 65_536
    {
      decryptor.PageSize()
    }

    /** Whole pages, at least one, and no more than page numbers can name. */
    predicate Valid() {
      |bytes| == pageCount * PageSize() && 1 <= pageCount <= U32_MAX && |bytes| <= U64_MAX
    }

    predicate HasPage(n: nat) {
      1 <= n <= pageCount
    }

    function StoredPage(n: nat): (page: seq<byte>)
      requires Valid() && HasPage(n)
      ensures |page| == PageSize()
    {
      MulMonotone(n, pageCount, PageSize());
      PageAt(bytes, PageSize(), n - 1)
    }

    function Page(n: nat): (r: Result<seq<byte>, DecryptError>)
      requires Valid() && HasPage(n)
      ensures r.Success? ==> |r.value| == PageSize()
    {
      DecryptPage(decryptor, n, StoredPage(n))
    }

    function PlainPage(n: nat): (page: seq<byte>)
      requires Valid() && HasPage(n)
      ensures |page| == PageSize()
    {
      if Page(n).Success? then Page(n).value else Zeros(PageSize())
    }

    function PlainPages(): (pages: seq<seq<byte>>)
      requires Valid()
      ensures |pages| == pageCount
    {
      seq(pageCount, i requires 0 <= i < pageCount => PlainPage(i + 1))
    }

    lemma PlainPagesUniform()
      requires Valid()
      ensures Uniform(PlainPages(), PageSize())
    {
      hide PlainPage;
    }

    /** The plaintext pages in order; a page that does not decrypt is shown as zeros. */
    function Image(): (image: seq<byte>)
      requires Valid()
      ensures |image| == |bytes|
    {
      PlainPagesUniform();
      JoinLength(PlainPages(), PageSize());
      Join(PlainPages())
    }

    lemma ImagePage(n: nat)
      requires Valid() && HasPage(n)
      ensures PageIs(Image(), PageSize(), n - 1, PlainPage(n))
    {
      hide PlainPage, PageSize, Join;
      PlainPagesUniform();
      MulMonotone(n, pageCount, PageSize());
      JoinPageAt(PlainPages(), PageSize(), n - 1);
    }
  }

  // ----- opening

  /** The length checks of opening, and the page count they find. */
  function CheckLength(fileSize: nat, pageSize: nat): (r: Result<u32, ReaderError>)
    requires pageSize > 0
    ensures r.Success? <==> fileSize % pageSize == 0 && 1 <= fileSize / pageSize <= U32_MAX
    ensures r.Success? ==> fileSize == r.value * pageSize
  {
    if fileSize == 0 then Failure(EmptyFile)
    else if fileSize < pageSize then Failure(FileTooSmall(fileSize, pageSize))
    else if fileSize % pageSize != 0 then Failure(InvalidFileSize(fileSize, pageSize))
    else TryFromU32(fileSize / pageSize).OkOr(TooManyPages(fileSize / pageSize))
  }

  predicate IsPages(fileSize: nat, count: nat, pageSize: nat) {
    fileSize == count * pageSize
  }

  /** Which lengths are refused, and how: empty, shorter than a page, not whole pages, too many pages. */
  lemma LengthErrors(fileSize: nat, pageSize: nat)
    requires pageSize > 0
    ensures var r := CheckLength(fileSize, pageSize);
            && (r == Failure(EmptyFile) <==> fileSize == 0)
            && (r == Failure(FileTooSmall(fileSize, pageSize)) <==> 0 < fileSize < pageSize)
            && (r == Failure(InvalidFileSize(fileSize, pageSize)) <==>
                fileSize > pageSize && !exists count: nat :: IsPages(fileSize, count, pageSize))
            && (forall count: nat :: IsPages(fileSize, count, pageSize) && count > 0 ==>
                  r == if count <= U32_MAX then Success(count) else Failure(TooManyPages(count)))
  {
    DivMod(fileSize, pageSize);
    var quotient := fileSize / pageSize;
    if fileSize % pageSize == 0 {
      assert IsPages(fileSize, quotient, pageSize);
    }
    forall count: nat | IsPages(fileSize, count, pageSize) ensures fileSize % pageSize == 0 && quotient == count {
      DivModUnique(fileSize, pageSize, count, 0);
    }
    if 1 <= quotient {
      MulMonotone(1, quotient, pageSize);
    }
  }

  /** The first problem decides: reading the length, the length itself, reading the salt, and then the passphrase. */
  lemma OpenErrors(p: Primitives, config: CipherConfig, passphrase: seq<byte>, bytes: Contents, faults: Faults)
    ensures config.pageSize > 0
    ensures var r := OpenOutcome(p, config, passphrase, bytes, faults);
            var length := CheckLength(|bytes|, config.pageSize);
            && (FaultAt(faults, 0).Some? ==> r == Failure(Source(FaultAt(faults, 0).value.error)))
            && (FaultAt(faults, 0).None? && length.Failure? ==> r == Failure(length.error))
            && (Quiet(faults, 1) && length.Success? && FaultAt(faults, 1).Some? ==>
                  r == Failure(Source(FaultAt(faults, 1).value.error)))
            && (Quiet(faults, 2) && length.Success? && passphrase == [] ==> r == Failure(Decrypt(EmptyPassphrase)))
            && (r.Success? <==> Quiet(faults, 2) && length.Success? && passphrase != [])
  {
    hide AcceptsPageSize, CheckLength;
    LayoutFits(config);
    if CheckLength(|bytes|, config.pageSize).Success? {
      MulMonotone(1, CheckLength(|bytes|, config.pageSize).value, config.pageSize);
      NeedsPassphrase(p, config, passphrase, bytes[..16]);
    }
    FirstTwoFaults(faults);
  }

  lemma FirstTwoFaults(faults: Faults)
    ensures FaultAt(faults, 0) == Head(faults) && FaultAt(faults, 1) == Head(Tail(faults))
    ensures Quiet(faults, 1) <==> Head(faults).None?
    ensures Quiet(faults, 2) <==> Head(faults).None? && Head(Tail(faults)).None?
  {
    assert FaultAt(faults, 0) == Head(faults) && FaultAt(faults, 1) == Head(Tail(faults));
  }

  function FromSource<T>(r: Result<T, IoError>): Result<T, ReaderError> {
    match r
    case Success(v) => Success(v)
    case Failure(e) => Failure(Source(e))
  }

  function FromDecrypt<T>(r: Result<T, DecryptError>): Result<T, ReaderError> {
    match r
    case Success(v) => Success(v)
    case Failure(e) => Failure(Decrypt(e))
  }

  /** The database that opening yields, or the first thing that is wrong. */
  function OpenOutcome(p: Primitives, config: CipherConfig, passphrase: seq<byte>, bytes: seq<byte>, faults: Faults)
    : (r: Result<Database, ReaderError>)
    requires |bytes| <= U64_MAX
    ensures r.Success? ==> r.value.bytes == bytes && r.value.decryptor.config == config && r.value.Valid()
  {
    LayoutFits(config);
    if Head(faults).Some? then Failure(Source(Head(faults).value.error)) else
    var pageCount :- CheckLength(|bytes|, config.pageSize);
    if Head(Tail(faults)).Some? then Failure(Source(Head(Tail(faults)).value.error)) else
    var decryptor :- FromDecrypt(NewDecryptor(p, config, passphrase, bytes[..16]));
    Success(Database(decryptor, bytes, pageCount))
  }

  /** A fault-free open succeeds exactly for whole pages, a count that fits 32 bits, and a passphrase. */
  lemma OpenSucceedsExactly(p: Primitives, config: CipherConfig, passphrase: seq<byte>, bytes: Contents, faults: Faults)
    requires FaultFree(faults)
    ensures config.pageSize > 0
    ensures OpenOutcome(p, config, passphrase, bytes, faults).Success? <==>
            |bytes| % config.pageSize == 0 && 1 <= |bytes| / config.pageSize <= U32_MAX && passphrase != []
  {
    hide AcceptsPageSize, CheckLength;
    LayoutFits(config);
    if CheckLength(|bytes|, config.pageSize).Success? {
      MulMonotone(1, CheckLength(|bytes|, config.pageSize).value, config.pageSize);
      NeedsPassphrase(p, config, passphrase, bytes[..16]);
    }
  }

  // ----- reading

  /** Reading one page takes one source operation. */
  function ReadPage(db: Database, n: nat, fault: Option<Fault>): Result<seq<byte>, ReaderError>
    requires db.Valid() && db.HasPage(n)
  {
    if fault.Some? then Failure(Source(fault.value.error)) else FromDecrypt(db.Page(n))
  }

  datatype Outcome<T> = Outcome(result: Result<T, ReaderError>, faults: Faults)

  /** Reading pages `n` through `last` in order, up to the first failure. */
  function Scan(db: Database, faults: Faults, n: nat, last: nat): Outcome<()>
    requires db.Valid() && 1 <= n && last <= db.pageCount
    decreases last - n
  {
    if n > last then Outcome(Success(()), faults)
    else match ReadPage(db, n, Head(faults))
      case Failure(e) => Outcome(Failure(e), Tail(faults))
      case Success(_) => Scan(db, Tail(faults), n + 1, last)
  }

  /** One-based number of the page that holds byte `at`. */
  function PageHolding(db: Database, at: nat): nat {
    PageIndex(at, db.PageSize()) + 1
  }

  lemma PageHoldingInBounds(db: Database, at: nat)
    requires db.Valid() && at < |db.bytes|
    ensures db.HasPage(PageHolding(db, at))
  {
    PageIndexInBounds(at, db.pageCount, db.PageSize());
  }

  lemma TouchedPages(db: Database, offset: nat, length: nat)
    requires db.Valid() && length > 0 && offset + length <= |db.bytes|
    ensures 1 <= PageHolding(db, offset) <= PageHolding(db, offset + length - 1) <= db.pageCount
  {
    hide AcceptsPageSize;
    var size := db.PageSize();
    PageHoldingInBounds(db, offset + length - 1);
    DivMonotone(offset, offset + length - 1, size);
  }

  /** Reading every page that a byte range touches. */
  function ScanRange(db: Database, faults: Faults, offset: nat, end: nat): Outcome<()>
    requires db.Valid() && offset < end <= |db.bytes|
  {
    PageHoldingInBounds(db, end - 1);
    Scan(db, faults, PageHolding(db, offset), PageHolding(db, end - 1))
  }

  /** The specification of a range read: a slice of the image once every touched page has been read. */
  function ReadRange(db: Database, faults: Faults, offset: u64, length: nat): Outcome<seq<byte>>
    requires db.Valid()
  {
    if length == 0 then Outcome(Success([]), faults)
    else if offset + length > U64_MAX then Outcome(Failure(OffsetOverflow(offset, length)), faults)
    else if offset + length > |db.bytes| then Outcome(Failure(UnexpectedEnd(offset, length, |db.bytes|)), faults)
    else
      var scan := ScanRange(db, faults, offset, offset + length);
      match scan.result
      case Failure(e) => Outcome(Failure(e), scan.faults)
      case Success(_) => Outcome(Success(db.Image()[offset..offset + length]), scan.faults)
  }

  lemma EmptyRange(db: Database, faults: Faults, offset: u64)
    requires db.Valid()
    ensures ReadRange(db, faults, offset, 0) == Outcome(Success([]), faults)
  {
  }
}
