/** Whole encrypted files: encryption and reading undo each other, and verification says exactly what a file is. */
module EncryptedDatabases {
  import opened Outcomes
  import opened Bytes
  import opened Config
  import opened Primitives
  import opened Decryptor
  import opened Encryptor
  import opened Sources
  import opened Pages
  import opened Databases
  import opened RangeReads

  predicate SealsFit(config: CipherConfig, seals: seq<Seal>) {
    forall i :: 0 <= i < |seals| ==> seals[i].Fits(config)
  }

  /** Whole pages, each of them one that a SQLCipher writer could encrypt. */
  predicate WellFormedImage(config: CipherConfig, image: seq<byte>, count: nat) {
    && |image| == count * config.pageSize && 1 <= count <= U32_MAX && |image| <= U64_MAX
    && forall n: PageNumber :: n <= count ==> HasWellFormedPage(config, image, n)
  }

  predicate HasWellFormedPage(config: CipherConfig, image: seq<byte>, n: PageNumber) {
    HasPageAt(image, config.pageSize, n - 1) && WellFormedPage(config, n, PageOf(config, image, n))
  }

  function PageOf(config: CipherConfig, image: seq<byte>, n: nat): (page: seq<byte>) {
    if 1 <= n && HasPageAt(image, config.pageSize, n - 1)
    then PageAt(image, config.pageSize, n - 1)
    else Zeros(config.pageSize)
  }

  lemma PageOfIsPage(config: CipherConfig, image: seq<byte>, n: nat)
    ensures IsPage(config, PageOf(config, image, n))
  {
  }

  function EncryptedPages(d: PageDecryptor, salt: Block, image: seq<byte>, seals: seq<Seal>): (pages: seq<seq<byte>>)
    requires |seals| <= U32_MAX && SealsFit(d.config, seals)
    ensures |pages| == |seals| && Uniform(pages, d.config.pageSize)
  {
    seq(|seals|, i requires 0 <= i < |seals| =>
      PageOfIsPage(d.config, image, i + 1);
      EncryptPage(d, i + 1, PageOf(d.config, image, i + 1), salt, seals[i]))
  }

  /** Encrypts page by page, each page with its own IV and filler. */
  function EncryptImage(d: PageDecryptor, salt: Block, image: seq<byte>, seals: seq<Seal>): (bytes: seq<byte>)
    requires |seals| <= U32_MAX && SealsFit(d.config, seals)
    ensures |bytes| == |seals| * d.config.pageSize
  {
    JoinLength(EncryptedPages(d, salt, image, seals), d.config.pageSize);
    Join(EncryptedPages(d, salt, image, seals))
  }

  // ----- encrypting, then reading

  lemma StoredPageOfEncrypted(d: PageDecryptor, salt: Block, image: seq<byte>, seals: seq<Seal>, n: nat)
    requires WellFormedImage(d.config, image, |seals|) && SealsFit(d.config, seals) && 1 <= n <= |seals|
    ensures var db := Database(d, EncryptImage(d, salt, image, seals), |seals|);
            db.Valid() && IsPage(d.config, PageOf(d.config, image, n))
            && db.StoredPage(n) == EncryptPage(d, n, PageOf(d.config, image, n), salt, seals[n - 1])
  {
    hide EncryptPage, AcceptsPageSize, Join, WellFormedPage;
    PageOfIsPage(d.config, image, n);
    JoinPageAt(EncryptedPages(d, salt, image, seals), d.config.pageSize, n - 1);
  }

  lemma PageOfEncrypted(d: PageDecryptor, salt: Block, image: seq<byte>, seals: seq<Seal>, n: nat)
    requires WellFormedImage(d.config, image, |seals|) && SealsFit(d.config, seals) && 1 <= n <= |seals|
    ensures var db := Database(d, EncryptImage(d, salt, image, seals), |seals|);
            db.Valid() && db.Page(n) == Success(PageOf(d.config, image, n))
  {
    hide EncryptPage, DecryptPage, EncryptImage, AcceptsPageSize, WellFormedPage, Seal.Fits;
    StoredPageOfEncrypted(d, salt, image, seals, n);
    assert HasWellFormedPage(d.config, image, n);
    RoundTrip(d, n, PageOf(d.config, image, n), salt, seals[n - 1]);
  }

  lemma PlainPageOfEncrypted(d: PageDecryptor, salt: Block, image: seq<byte>, seals: seq<Seal>, i: nat)
    requires WellFormedImage(d.config, image, |seals|) && SealsFit(d.config, seals) && i < |seals|
    ensures var db := Database(d, EncryptImage(d, salt, image, seals), |seals|);
            db.Valid() && db.HasPage(i + 1) && db.Page(i + 1).Success?
            && PageIs(image, d.config.pageSize, i, db.PlainPages()[i])
  {
    hide EncryptImage, AcceptsPageSize, WellFormedPage, Seal.Fits, Database.Page, Join;
    PageOfEncrypted(d, salt, image, seals, i + 1);
    MulMonotone(i + 1, |seals|, d.config.pageSize);
  }

  lemma PagesOfEncrypted(d: PageDecryptor, salt: Block, image: seq<byte>, seals: seq<Seal>)
    requires WellFormedImage(d.config, image, |seals|) && SealsFit(d.config, seals)
    ensures var db := Database(d, EncryptImage(d, salt, image, seals), |seals|);
            db.Valid() && Covers(image, d.config.pageSize, db.PlainPages(), |seals|)
  {
    hide EncryptImage, AcceptsPageSize, WellFormedImage, Database.Valid, Database.Page, Database.PlainPages, PageAt;
    ImageLength(d.config, image, |seals|);
    var db := Database(d, EncryptImage(d, salt, image, seals), |seals|);
    PlainPageOfEncrypted(d, salt, image, seals, 0);
    var pages := db.PlainPages();
    forall i | 0 <= i < |seals|
      ensures PageIs(image, d.config.pageSize, i, pages[i])
    {
      PlainPageOfEncrypted(d, salt, image, seals, i);
    }
  }

  lemma EncryptedDecrypts(d: PageDecryptor, salt: Block, image: seq<byte>, seals: seq<Seal>)
    requires WellFormedImage(d.config, image, |seals|) && SealsFit(d.config, seals)
    ensures var db := Database(d, EncryptImage(d, salt, image, seals), |seals|);
            db.Valid() && AllDecrypt(db, 1, db.pageCount)
  {
    hide EncryptImage, AcceptsPageSize, WellFormedImage, Database.Valid, Database.Page, Database.PlainPages, PageAt;
    ImageLength(d.config, image, |seals|);
    var db := Database(d, EncryptImage(d, salt, image, seals), |seals|);
    PlainPageOfEncrypted(d, salt, image, seals, 0);
    forall n {:trigger db.HasPage(n)} | 1 <= n <= |seals| && db.HasPage(n) ensures db.Page(n).Success? {
      PlainPageOfEncrypted(d, salt, image, seals, n - 1);
    }
  }

  lemma ImageOfEncrypted(d: PageDecryptor, salt: Block, image: seq<byte>, seals: seq<Seal>)
    requires WellFormedImage(d.config, image, |seals|) && SealsFit(d.config, seals)
    ensures var db := Database(d, EncryptImage(d, salt, image, seals), |seals|);
            db.Valid() && AllDecrypt(db, 1, db.pageCount) && db.Image() == image
  {
    hide EncryptImage, AcceptsPageSize, WellFormedImage, SealsFit, Covers, AllDecrypt, Database.Valid,
         Database.PlainPages, Join;
    ImageLength(d.config, image, |seals|);
    PagesOfEncrypted(d, salt, image, seals);
    EncryptedDecrypts(d, salt, image, seals);
    JoinOfPages(image, d.config.pageSize, Database(d, EncryptImage(d, salt, image, seals), |seals|).PlainPages());
  }

  lemma ImageLength(config: CipherConfig, image: seq<byte>, count: nat)
    requires WellFormedImage(config, image, count)
    ensures |image| == count * config.pageSize && 1 <= count <= U32_MAX
  {
  }

  lemma SaltOfFirstPage(d: PageDecryptor, plain: seq<byte>, salt: Block, seal: Seal)
    requires IsPage(d.config, plain) && seal.Fits(d.config)
    ensures var page := EncryptPage(d, 1, plain, salt, seal); |page| >= 16 && page[..16] == salt
  {
    hide EncryptPage, AcceptsPageSize, PageHmac, Cbc.Encrypt;
    LayoutFits(d.config);
    StoredParts(d, 1, plain, salt, seal);
  }

  lemma SaltOfEncrypted(d: PageDecryptor, salt: Block, image: seq<byte>, seals: seq<Seal>)
    requires WellFormedImage(d.config, image, |seals|) && SealsFit(d.config, seals)
    ensures |EncryptImage(d, salt, image, seals)| >= 16 && EncryptImage(d, salt, image, seals)[..16] == salt
  {
    hide EncryptPage, EncryptImage, AcceptsPageSize, WellFormedImage, PageOf, Seal.Fits, Database.Valid,
         Database.StoredPage;
    ImageLength(d.config, image, |seals|);
    StoredPageOfEncrypted(d, salt, image, seals, 1);
    SaltOfFirstPage(d, PageOf(d.config, image, 1), salt, seals[0]);
    SaltIsOnFirstPage(Database(d, EncryptImage(d, salt, image, seals), |seals|));
  }

  /** Opening an encrypted image with its passphrase and reading any range returns that slice of the image. */
  lemma DatabaseRoundTrip(p: Primitives, config: CipherConfig, passphrase: seq<byte>, salt: Block, image: seq<byte>,
                          seals: seq<Seal>, faults: Faults, offset: u64, length: nat)
    requires passphrase != [] && FaultFree(faults)
    requires WellFormedImage(config, image, |seals|) && SealsFit(config, seals)
    requires offset + length <= |image|
    ensures var d := NewDecryptor(p, config, passphrase, salt).value;
            var bytes := EncryptImage(d, salt, image, seals);
            var outcome := OpenOutcome(p, config, passphrase, bytes, faults);
            && outcome == Success(Database(d, bytes, |seals|))
            && ReadRange(outcome.value, faults, offset, length).result == Success(image[offset..offset + length])
  {
    hide EncryptImage, AcceptsPageSize, WellFormedPage, RangeDecrypts;
    var d := NewDecryptor(p, config, passphrase, salt).value;
    var bytes := EncryptImage(d, salt, image, seals);
    var db := Database(d, bytes, |seals|);
    ImageOfEncrypted(d, salt, image, seals);
    SaltOfEncrypted(d, salt, image, seals);
    OpenAccepts(p, config, passphrase, bytes, |seals|, faults);
    ReadsOfVerified(db, faults, offset, length);
  }

  /** Whatever fails in between, a read of an encrypted image that succeeds returns nothing but the image. */
  lemma OnlyTheImageIsRead(p: Primitives, config: CipherConfig, passphrase: seq<byte>, salt: Block, image: seq<byte>,
                           seals: seq<Seal>, openFaults: Faults, faults: Faults, offset: u64, length: nat)
    requires passphrase != []
    requires WellFormedImage(config, image, |seals|) && SealsFit(config, seals)
    ensures var bytes := EncryptImage(NewDecryptor(p, config, passphrase, salt).value, salt, image, seals);
            var outcome := OpenOutcome(p, config, passphrase, bytes, openFaults);
            outcome.Success? ==>
              var read := ReadRange(outcome.value, faults, offset, length).result;
              read.Success? && length > 0 ==> offset + length <= |image| && read.value == image[offset..offset + length]
  {
    hide EncryptImage, AcceptsPageSize, WellFormedPage, RangeDecrypts, NewDecryptor, Database.Image;
    NeedsPassphrase(p, config, passphrase, salt);
    var d := NewDecryptor(p, config, passphrase, salt).value;
    DerivedConfig(p, config, passphrase, salt);
    var bytes := EncryptImage(d, salt, image, seals);
    ImageOfEncrypted(d, salt, image, seals);
    SaltOfEncrypted(d, salt, image, seals);
    SameCount(bytes, config.pageSize, |seals|);
  }

  lemma DerivedConfig(p: Primitives, config: CipherConfig, passphrase: seq<byte>, salt: Block)
    requires passphrase != []
    ensures NewDecryptor(p, config, passphrase, salt).Success?
    ensures NewDecryptor(p, config, passphrase, salt).value.config == config
  {
  }

  lemma SameCount(bytes: seq<byte>, pageSize: nat, count: nat)
    requires pageSize > 0 && |bytes| == count * pageSize && count <= U32_MAX
    ensures CheckLength(|bytes|, pageSize).Success? ==> CheckLength(|bytes|, pageSize).value == count
  {
    DivModUnique(|bytes|, pageSize, count, 0);
  }

  lemma OpenAccepts(p: Primitives, config: CipherConfig, passphrase: seq<byte>, bytes: seq<byte>, count: nat,
                    faults: Faults)
    requires |bytes| <= U64_MAX && passphrase != [] && FaultFree(faults)
    requires |bytes| == count * config.pageSize && 1 <= count <= U32_MAX
    ensures |bytes| >= 16
    ensures OpenOutcome(p, config, passphrase, bytes, faults)
         == Success(Database(NewDecryptor(p, config, passphrase, bytes[..16]).value, bytes, count))
  {
    hide AcceptsPageSize;
    LayoutFits(config);
    DivModUnique(|bytes|, config.pageSize, count, 0);
    MulMonotone(1, count, config.pageSize);
  }

  /** If every page decrypts, every in-bounds read succeeds, and one read of the whole file returns the image. */
  lemma ReadsOfVerified(db: Database, faults: Faults, offset: u64, length: nat)
    requires db.Valid() && FaultFree(faults) && AllDecrypt(db, 1, db.pageCount)
    requires offset + length <= |db.bytes|
    ensures ReadRange(db, faults, offset, length).result == Success(db.Image()[offset..offset + length])
  {
    hide Database.Image, Database.Page, FaultFree;
    if length > 0 {
      TouchedPages(db, offset, length);
      assert RangeDecrypts(db, offset, length);
      FaultFreeRange(db, faults, offset, length);
    } else {
      assert db.Image()[offset..offset] == [];
    }
  }

  // ----- reading, then encrypting

  function SealsOf(db: Database): (seals: seq<Seal>)
    requires db.Valid()
    ensures |seals| == db.pageCount && SealsFit(db.decryptor.config, seals)
  {
    seq(db.pageCount, i requires 0 <= i < db.pageCount => SealOf(db.decryptor.config, db.StoredPage(i + 1)))
  }

  function SaltOf(db: Database): (salt: seq<byte>)
    requires db.Valid()
    ensures |salt| == 16
  {
    MulMonotone(1, db.pageCount, db.PageSize());
    db.bytes[..16]
  }

  lemma SaltIsOnFirstPage(db: Database)
    requires db.Valid()
    ensures db.HasPage(1) && db.StoredPage(1)[..16] == SaltOf(db)
  {
    hide AcceptsPageSize;
  }

  lemma ImagePageOf(db: Database, n: nat)
    requires db.Valid() && db.HasPage(n)
    ensures PageOf(db.decryptor.config, db.Image(), n) == db.PlainPage(n)
  {
    hide Database.PlainPage, Database.Image, AcceptsPageSize;
    db.ImagePage(n);
  }

  lemma PageIsEncryption(db: Database, n: nat)
    requires db.Valid() && db.HasPage(n) && db.Page(n).Success?
    ensures var config := db.decryptor.config;
            var plain := PageOf(config, db.Image(), n);
            && WellFormedPage(config, n, plain)
            && db.StoredPage(n) == EncryptPage(db.decryptor, n, plain, SaltOf(db), SealsOf(db)[n - 1])
  {
    hide Database.Image, DecryptPage, EncryptPage, AcceptsPageSize, WellFormedPage;
    ImagePageOf(db, n);
    EncryptOfDecrypted(db.decryptor, n, db.StoredPage(n));
    if n == 1 {
      SaltIsOnFirstPage(db);
    } else {
      LaterPagesIgnoreSalt(db.decryptor, n, db.PlainPage(n), db.StoredPage(n)[..16], SaltOf(db), SealsOf(db)[n - 1]);
    }
  }

  lemma LaterPagesIgnoreSalt(d: PageDecryptor, n: PageNumber, plain: seq<byte>, salt: Block, other: Block, seal: Seal)
    requires n > 1 && IsPage(d.config, plain) && seal.Fits(d.config)
    ensures EncryptPage(d, n, plain, salt, seal) == EncryptPage(d, n, plain, other, seal)
  {
  }

  lemma DecryptedPage(db: Database, n: nat)
    requires db.Valid() && AllDecrypt(db, 1, db.pageCount) && db.HasPage(n)
    ensures HasWellFormedPage(db.decryptor.config, db.Image(), n)
    ensures db.StoredPage(n) == EncryptedPages(db.decryptor, SaltOf(db), db.Image(), SealsOf(db))[n - 1]
  {
    hide Database.Image, Database.Page, EncryptPage, AcceptsPageSize, WellFormedPage, PageOf, SealsOf, SaltOf;
    MulMonotone(n, db.pageCount, db.PageSize());
    PageIsEncryption(db, n);
  }

  lemma DecryptedIsWellFormed(db: Database)
    requires db.Valid() && AllDecrypt(db, 1, db.pageCount)
    ensures WellFormedImage(db.decryptor.config, db.Image(), db.pageCount)
  {
    hide AllDecrypt, HasWellFormedPage, AcceptsPageSize, Database.Image, Database.StoredPage, EncryptedPages;
    forall n: PageNumber | n <= db.pageCount ensures HasWellFormedPage(db.decryptor.config, db.Image(), n) {
      DecryptedPage(db, n);
    }
  }

  lemma DecryptedIsCovered(db: Database)
    requires db.Valid() && AllDecrypt(db, 1, db.pageCount)
    ensures var pages := EncryptedPages(db.decryptor, SaltOf(db), db.Image(), SealsOf(db));
            Covers(db.bytes, db.PageSize(), pages, db.pageCount)
  {
    hide AllDecrypt, HasWellFormedPage, AcceptsPageSize, Database.Image, EncryptedPages, SealsOf, SaltOf, PageAt;
    var pages := EncryptedPages(db.decryptor, SaltOf(db), db.Image(), SealsOf(db));
    forall i | 0 <= i < db.pageCount
      ensures PageIs(db.bytes, db.PageSize(), i, pages[i])
    {
      MulMonotone(i + 1, db.pageCount, db.PageSize());
      DecryptedPage(db, i + 1);
    }
  }

  /** A file whose pages all decrypt is the encryption of a well-formed image, namely of what reading it returns. */
  lemma VerifiedIsEncryption(db: Database)
    requires db.Valid() && AllDecrypt(db, 1, db.pageCount)
    ensures WellFormedImage(db.decryptor.config, db.Image(), db.pageCount)
    ensures db.bytes == EncryptImage(db.decryptor, SaltOf(db), db.Image(), SealsOf(db))
  {
    hide WellFormedImage, Covers, AllDecrypt, EncryptedPages, SealsOf, SaltOf, AcceptsPageSize, Database.Image, Join;
    DecryptedIsWellFormed(db);
    DecryptedIsCovered(db);
    JoinOfPages(db.bytes, db.PageSize(), EncryptedPages(db.decryptor, SaltOf(db), db.Image(), SealsOf(db)));
  }

  /** All pages decrypt exactly when the file is an encryption, under its own salt, of a well-formed image. */
  lemma VerifiedExactly(db: Database)
    requires db.Valid()
    ensures AllDecrypt(db, 1, db.pageCount) <==>
            exists image, seals ::
              && |seals| == db.pageCount && SealsFit(db.decryptor.config, seals)
              && WellFormedImage(db.decryptor.config, image, db.pageCount)
              && db.bytes == EncryptImage(db.decryptor, SaltOf(db), image, seals)
  {
    hide EncryptImage, AllDecrypt, WellFormedImage, SealsFit, SealsOf, Database.Image;
    if AllDecrypt(db, 1, db.pageCount) {
      VerifiedIsEncryption(db);
    }
    forall image, seals |
      && |seals| == db.pageCount && SealsFit(db.decryptor.config, seals)
      && WellFormedImage(db.decryptor.config, image, db.pageCount)
      && db.bytes == EncryptImage(db.decryptor, SaltOf(db), image, seals)
      ensures AllDecrypt(db, 1, db.pageCount)
    {
      ImageOfEncrypted(db.decryptor, SaltOf(db), image, seals);
    }
  }

  // ----- bytes that do not matter

  /** The two files agree on the salt and on all that the page MACs cover. */
  ghost predicate SameAuthenticatedBytes(db: Database, other: Database)
    requires db.Valid() && other.Valid()
  {
    && db.pageCount == other.pageCount && SaltOf(db) == SaltOf(other)
    && db.decryptor == other.decryptor
    && forall n {:trigger db.HasPage(n)} :: 1 <= n <= db.pageCount && db.HasPage(n) ==>
         SameAuthenticated(db.decryptor.config, n, db.StoredPage(n), other.StoredPage(n))
  }

  /** Files that differ only in filler behind the MACs give the same pages and range reads, errors included. */
  lemma OnlyAuthenticatedBytesAreRead(db: Database, other: Database, faults: Faults, offset: u64, length: nat, n: nat,
                                      fault: Option<Fault>)
    requires db.Valid() && other.Valid() && SameAuthenticatedBytes(db, other)
    ensures ReadRange(db, faults, offset, length) == ReadRange(other, faults, offset, length)
    ensures db.HasPage(n) ==> ReadPage(db, n, fault) == ReadPage(other, n, fault)
  {
    hide AcceptsPageSize, DecryptPage, SameAuthenticated, ReadRange;
    forall k {:trigger db.HasPage(k)} | 1 <= k <= db.pageCount && db.HasPage(k) ensures db.Page(k) == other.Page(k) {
      Encryptor.OnlyAuthenticatedBytesMatter(db.decryptor, k, db.StoredPage(k), other.StoredPage(k));
    }
    EmptyRange(db, faults, offset);
    EmptyRange(other, faults, offset);
    if length > 0 {
      if offset + length <= |db.bytes| {
        TouchedPages(db, offset, length);
        assert SameTouchedPages(db, other, offset, length);
      }
      ReadsAreLocal(db, other, faults, offset, length);
    }
  }

  /** Opening looks only at the length and the salt. */
  lemma OpeningIgnoresPages(p: Primitives, config: CipherConfig, passphrase: seq<byte>, bytes: Contents,
                            other: Contents, faults: Faults)
    requires |bytes| == |other| && (|bytes| >= 16 ==> bytes[..16] == other[..16])
    ensures var (r, r') := (OpenOutcome(p, config, passphrase, bytes, faults),
                            OpenOutcome(p, config, passphrase, other, faults));
            && r.Success? == r'.Success?
            && (r.Failure? ==> r.error == r'.error)
            && (r.Success? ==> r.value.decryptor == r'.value.decryptor && r.value.pageCount == r'.value.pageCount)
  {
    hide AcceptsPageSize;
  }
}
