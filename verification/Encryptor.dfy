/** The page encryptor that decryption inverts, and which stored pages decrypt at all. */
module Encryptor {
  import opened Outcomes
  import opened Bytes
  import opened Config
  import opened Primitives
  import opened Decryptor
  import Cbc

  /** What a writer chooses freely: the IV, and the padding after the MAC. */
  datatype Seal = Seal(iv: seq<byte>, filler: seq<byte>) {
    predicate Fits(config: CipherConfig) {
      |iv| == 16 && |filler| == config.pageSize - HmacEnd(config)
    }
  }

  function PlainBody(config: CipherConfig, n: PageNumber, plain: seq<byte>): (body: seq<byte>)
    requires IsPage(config, plain)
    ensures |body| == UsableEnd(config) - CiphertextOffset(n) && |body| % 16 == 0
  {
    StoredBody(config, n, plain)
  }

  /** The stored form of a page; the first sixteen bytes of page 1 hold the database salt. */
  function EncryptPage(d: PageDecryptor, n: PageNumber, plain: seq<byte>, salt: Block, seal: Seal): (page: seq<byte>)
    requires IsPage(d.config, plain) && seal.Fits(d.config)
    ensures IsPage(d.config, page)
  {
    var body := Cbc.Encrypt(d.primitives, d.encryptionKey, seal.iv, PlainBody(d.config, n, plain));
    (if n == 1 then salt else []) + body + seal.iv + PageHmac(d, n, body, seal.iv) + seal.filler
  }

  /** A page a SQLCipher writer encrypts: zero reserve and, on page 1, a header that fits the configuration. */
  predicate WellFormedPage(config: CipherConfig, n: PageNumber, plain: seq<byte>) {
    && IsPage(config, plain)
    && plain[UsableEnd(config)..] == Zeros(config.ReserveSize())
    && (n == 1 ==> plain[..16] == SQLITE_HEADER_MAGIC && CheckHeader(config, plain[16], plain[17], plain[20]).Success?)
  }

  /** Page 1 of an otherwise empty database, as a writer with this configuration would produce it. */
  function FirstPage(config: CipherConfig): (page: seq<byte>)
    ensures IsPage(config, page)
  {
    LayoutFits(config);
    var (high, low) := EncodeSqlitePageSize(config.pageSize);
    SQLITE_HEADER_MAGIC + [high, low, 0, 0, config.ReserveSize()] + Zeros(config.pageSize - 21)
  }

  lemma FirstPageIsWellFormed(config: CipherConfig)
    ensures WellFormedPage(config, 1, FirstPage(config))
  {
    hide UsableEnd, AcceptsPageSize;
    LayoutFits(config);
    var (high, low) := EncodeSqlitePageSize(config.pageSize);
    PageSizeFieldIsUnique(config.pageSize, high, low);
  }

  // ----- encryption in place

  method EncryptPageInPlace(d: PageDecryptor, n: PageNumber, page: array<byte>, salt: Block, seal: Seal)
    requires page.Length == d.config.pageSize && seal.Fits(d.config)
    modifies page
    ensures page[..] == EncryptPage(d, n, old(page[..]), salt, seal)
  {
    hide Cbc.Encrypt, UsableEnd, HmacEnd, Splice, PageHmac, PlainBody, EncryptPage;
    ghost var plain := page[..];
    BodyUntouched(d.config, n, plain, salt, seal.iv);
    AssembleStoredPage(d, n, plain, salt, seal);
    var ciphertextOffset := CiphertextOffset(n);
    var ciphertextEnd := UsableEnd(d.config);
    var ivEnd := ciphertextEnd + AES_BLOCK_SIZE;
    if n == 1 {
      CopyInto(page, 0, salt);
    }
    CopyInto(page, ciphertextEnd, seal.iv);
    ghost var withIv := page[..];
    Cbc.EncryptInPlace(d.primitives, d.encryptionKey, seal.iv, page, ciphertextOffset, ciphertextEnd);
    ghost var body := Cbc.Encrypt(d.primitives, d.encryptionKey, seal.iv, PlainBody(d.config, n, plain));
    SpliceParts(withIv, ciphertextOffset, body, ciphertextOffset, ciphertextEnd);
    var tag := PageHmac(d, n, page[ciphertextOffset..ciphertextEnd], seal.iv);
    CopyInto(page, ivEnd, tag);
    CopyInto(page, HmacEnd(d.config), seal.filler);
  }

  /** Salt and IV leave the body to be encrypted as it is. */
  lemma BodyUntouched(config: CipherConfig, n: PageNumber, plain: seq<byte>, salt: Block, iv: Block)
    requires IsPage(config, plain)
    ensures var (lo, hi) := (CiphertextOffset(n), UsableEnd(config));
            var salted := if n == 1 then Splice(plain, 0, salt) else plain;
            hi + 16 <= |plain| && Splice(salted, hi, iv)[lo..hi] == PlainBody(config, n, plain)
  {
    hide UsableEnd, Splice;
    var (lo, hi) := (CiphertextOffset(n), UsableEnd(config));
    var _ := HmacEnd(config);
    var salted := if n == 1 then Splice(plain, 0, salt) else plain;
    if n == 1 {
      SpliceParts(plain, 0, salt, lo, hi);
    }
    SpliceParts(salted, hi, iv, lo, hi);
  }

  lemma AssembleStoredPage(d: PageDecryptor, n: PageNumber, plain: seq<byte>, salt: Block, seal: Seal)
    requires IsPage(d.config, plain) && seal.Fits(d.config)
    ensures var (lo, hi, end) := (CiphertextOffset(n), UsableEnd(d.config), HmacEnd(d.config));
            var salted := if n == 1 then Splice(plain, 0, salt) else plain;
            var body := Cbc.Encrypt(d.primitives, d.encryptionKey, seal.iv, PlainBody(d.config, n, plain));
            && end == hi + 16 + d.config.hmacAlgorithm.OutputLen() <= |plain|
            && Splice(Splice(Splice(Splice(salted, hi, seal.iv), lo, body), hi + 16, PageHmac(d, n, body, seal.iv)),
                      end, seal.filler) == EncryptPage(d, n, plain, salt, seal)
  {
    hide Cbc.Encrypt, PageHmac, UsableEnd, PlainBody, Splice;
    var (lo, hi) := (CiphertextOffset(n), UsableEnd(d.config));
    var salted := if n == 1 then Splice(plain, 0, salt) else plain;
    if n == 1 {
      SpliceParts(plain, 0, salt, 0, 0);
    }
    var body := Cbc.Encrypt(d.primitives, d.encryptionKey, seal.iv, PlainBody(d.config, n, plain));
    OverwriteAll(salted, lo, hi, HmacEnd(d.config), seal.iv, body, PageHmac(d, n, body, seal.iv), seal.filler);
    assert salted[..lo] == if n == 1 then salt else [];
  }

  /** Four writes that together cover everything from `lo` on leave nothing else of the original there. */
  lemma OverwriteAll(s: seq<byte>, lo: nat, hi: nat, end: nat, iv: seq<byte>, body: seq<byte>, tag: seq<byte>,
                     filler: seq<byte>)
    requires lo <= hi && hi + 16 <= end <= |s|
    requires |iv| == 16 && |body| == hi - lo && |tag| == end - hi - 16 && |filler| == |s| - end
    ensures Splice(Splice(Splice(Splice(s, hi, iv), lo, body), hi + 16, tag), end, filler)
            == s[..lo] + body + iv + tag + filler
  {
    var s1 := Splice(s, hi, iv);
    var s2 := Splice(s1, lo, body);
    assert s2 == s[..lo] + body + s1[hi..];
    var s3 := Splice(s2, hi + 16, tag);
    assert s2[..hi + 16] == s[..lo] + body + iv;
    assert s3 == s2[..hi + 16] + tag + s2[end..];
    assert s3[..end] == s2[..hi + 16] + tag;
  }

  // ----- round trips

  lemma FiveParts(a: seq<byte>, b: seq<byte>, c: seq<byte>, d: seq<byte>, e: seq<byte>)
    ensures var s := a + b + c + d + e;
            var (i, j, k, l) := (|a|, |a| + |b|, |a| + |b| + |c|, |a| + |b| + |c| + |d|);
            s[..i] == a && s[i..j] == b && s[j..k] == c && s[k..l] == d && s[l..] == e
  {
  }

  lemma StoredParts(d: PageDecryptor, n: PageNumber, plain: seq<byte>, salt: Block, seal: Seal)
    requires IsPage(d.config, plain) && seal.Fits(d.config)
    ensures var page := EncryptPage(d, n, plain, salt, seal);
            && StoredBody(d.config, n, page)
               == Cbc.Encrypt(d.primitives, d.encryptionKey, seal.iv, PlainBody(d.config, n, plain))
            && StoredIv(d.config, page) == seal.iv
            && StoredHmac(d.config, page) == PageHmac(d, n, StoredBody(d.config, n, page), seal.iv)
            && StoredFiller(d.config, page) == seal.filler
            && (n == 1 ==> page[..16] == salt)
  {
    hide Cbc.Encrypt, PageHmac, UsableEnd, PlainBody;
    var body := Cbc.Encrypt(d.primitives, d.encryptionKey, seal.iv, PlainBody(d.config, n, plain));
    FiveParts(if n == 1 then salt else [], body, seal.iv, PageHmac(d, n, body, seal.iv), seal.filler);
  }

  /** Decryption recovers the body of any page that was encrypted, and then applies exactly the two header checks. */
  lemma DecryptOfEncrypted(d: PageDecryptor, n: PageNumber, plain: seq<byte>, salt: Block, seal: Seal)
    requires IsPage(d.config, plain) && seal.Fits(d.config)
    ensures var header := if n == 1 then SQLITE_HEADER_MAGIC else [];
            var plain' := header + PlainBody(d.config, n, plain) + Zeros(d.config.ReserveSize());
            DecryptPage(d, n, EncryptPage(d, n, plain, salt, seal)) ==
            if n == 1 && CheckHeader(d.config, plain[16], plain[17], plain[20]).Failure?
            then Failure(CheckHeader(d.config, plain[16], plain[17], plain[20]).error)
            else Success(plain')
  {
    hide Cbc.Encrypt, Cbc.Decrypt, PageHmac, UsableEnd, EncryptPage, CheckHeader;
    StoredParts(d, n, plain, salt, seal);
    Cbc.DecryptUndoesEncrypt(d.primitives, d.encryptionKey, seal.iv, PlainBody(d.config, n, plain));
  }

  lemma ThreeParts(s: seq<byte>, lo: nat, hi: nat)
    requires lo <= hi <= |s|
    ensures s[..lo] + s[lo..hi] + s[hi..] == s
  {
  }

  lemma RoundTrip(d: PageDecryptor, n: PageNumber, plain: seq<byte>, salt: Block, seal: Seal)
    requires WellFormedPage(d.config, n, plain) && seal.Fits(d.config)
    ensures DecryptPage(d, n, EncryptPage(d, n, plain, salt, seal)) == Success(plain)
  {
    hide DecryptPage, EncryptPage, CheckHeader, UsableEnd;
    DecryptOfEncrypted(d, n, plain, salt, seal);
    ThreeParts(plain, CiphertextOffset(n), UsableEnd(d.config));
  }

  function SealOf(config: CipherConfig, page: seq<byte>): (seal: Seal)
    requires IsPage(config, page)
    ensures seal.Fits(config)
  {
    Seal(StoredIv(config, page), StoredFiller(config, page))
  }

  /** An authentic page is the encryption of its plaintext, whether or not the header fits. */
  lemma EncryptOfPlaintext(d: PageDecryptor, n: PageNumber, page: seq<byte>)
    requires IsPage(d.config, page)
    requires PageHmac(d, n, StoredBody(d.config, n, page), StoredIv(d.config, page)) == StoredHmac(d.config, page)
    ensures page == EncryptPage(d, n, Plaintext(d, n, page), page[..16], SealOf(d.config, page))
  {
    hide Cbc.Encrypt, Cbc.Decrypt, PageHmac, UsableEnd;
    var plain := Plaintext(d, n, page);
    Cbc.EncryptUndoesDecrypt(d.primitives, d.encryptionKey, StoredIv(d.config, page), StoredBody(d.config, n, page));
    assert PlainBody(d.config, n, plain)
           == Cbc.Decrypt(d.primitives, d.encryptionKey, StoredIv(d.config, page), StoredBody(d.config, n, page));
    assert page == page[..CiphertextOffset(n)] + StoredBody(d.config, n, page) + StoredIv(d.config, page)
                   + StoredHmac(d.config, page) + StoredFiller(d.config, page);
  }

  /** Authentication fails for exactly those pages that are no encryption of any page, under any salt, IV and filler. */
  lemma AuthenticationFailsExactly(d: PageDecryptor, n: PageNumber, page: seq<byte>)
    requires IsPage(d.config, page)
    ensures DecryptPage(d, n, page) == Failure(AuthenticationFailed(n)) <==>
            !exists plain, salt: Block, seal: Seal ::
              IsPage(d.config, plain) && seal.Fits(d.config) && page == EncryptPage(d, n, plain, salt, seal)
  {
    hide EncryptPage, PageHmac, UsableEnd, StoredBody, StoredIv, StoredHmac, StoredFiller, Plaintext, SealOf, Seal.Fits;
    if PageHmac(d, n, StoredBody(d.config, n, page), StoredIv(d.config, page)) == StoredHmac(d.config, page) {
      EncryptOfPlaintext(d, n, page);
      var salt: Block := page[..16];
      assert page == EncryptPage(d, n, Plaintext(d, n, page), salt, SealOf(d.config, page));
    }
    forall plain, salt: Block, seal: Seal |
      IsPage(d.config, plain) && seal.Fits(d.config) && page == EncryptPage(d, n, plain, salt, seal)
      ensures DecryptPage(d, n, page) != Failure(AuthenticationFailed(n))
    {
      DecryptOfEncrypted(d, n, plain, salt, seal);
    }
  }

  /** A page that decrypts is the encryption of what it decrypts to. */
  lemma EncryptOfDecrypted(d: PageDecryptor, n: PageNumber, page: seq<byte>)
    requires DecryptPage(d, n, page).Success?
    ensures WellFormedPage(d.config, n, DecryptPage(d, n, page).value)
    ensures page == EncryptPage(d, n, DecryptPage(d, n, page).value, page[..16], SealOf(d.config, page))
  {
    hide Cbc.Decrypt, PageHmac, UsableEnd, CheckHeader, EncryptPage;
    EncryptOfPlaintext(d, n, page);
  }

  /** The pages that decrypt to `plain` are exactly its encryptions, one for each IV, filler and salt. */
  lemma AcceptedPages(d: PageDecryptor, n: PageNumber, page: seq<byte>, plain: seq<byte>)
    requires IsPage(d.config, page)
    ensures DecryptPage(d, n, page) == Success(plain) <==>
            && WellFormedPage(d.config, n, plain)
            && page == EncryptPage(d, n, plain, page[..16], SealOf(d.config, page))
  {
    hide DecryptPage, EncryptPage, CheckHeader, UsableEnd;
    if DecryptPage(d, n, page) == Success(plain) {
      EncryptOfDecrypted(d, n, page);
    }
    if WellFormedPage(d.config, n, plain) && page == EncryptPage(d, n, plain, page[..16], SealOf(d.config, page)) {
      RoundTrip(d, n, plain, page[..16], SealOf(d.config, page));
    }
  }

  /** Two stored pages agree on every byte the MAC covers and on the MAC itself. */
  predicate SameAuthenticated(config: CipherConfig, n: PageNumber, page: seq<byte>, other: seq<byte>) {
    && |page| == |other|
    && (IsPage(config, page) ==>
          page[CiphertextOffset(n)..HmacEnd(config)] == other[CiphertextOffset(n)..HmacEnd(config)])
  }

  lemma AuthenticatedParts(config: CipherConfig, n: PageNumber, page: seq<byte>, other: seq<byte>)
    requires SameAuthenticated(config, n, page, other) && IsPage(config, page)
    ensures StoredBody(config, n, page) == StoredBody(config, n, other)
    ensures StoredIv(config, page) == StoredIv(config, other)
    ensures StoredHmac(config, page) == StoredHmac(config, other)
  {
    hide UsableEnd;
    var (lo, end) := (CiphertextOffset(n), HmacEnd(config));
    forall i | lo <= i < end ensures page[i] == other[i] {
      assert page[lo..end][i - lo] == other[lo..end][i - lo];
    }
  }

  /** Neither the filler behind the MAC nor, on page 1, the salt bytes influence the result. */
  lemma OnlyAuthenticatedBytesMatter(d: PageDecryptor, n: PageNumber, page: seq<byte>, other: seq<byte>)
    requires SameAuthenticated(d.config, n, page, other)
    ensures DecryptPage(d, n, page) == DecryptPage(d, n, other)
  {
    hide Cbc.Decrypt, PageHmac, CheckHeader, StoredBody, StoredIv, StoredHmac;
    if IsPage(d.config, page) {
      AuthenticatedParts(d.config, n, page, other);
      assert Plaintext(d, n, page) == Plaintext(d, n, other);
    }
  }

  /**
   * Changing one byte of the body or IV of a page that decrypts is noticed: authentication fails, unless the HMAC of
   * the two different inputs collides.
   */
  lemma ChangedByteIsNoticed(d: PageDecryptor, n: PageNumber, page: seq<byte>, i: nat, v: byte)
    requires DecryptPage(d, n, page).Success?
    requires CiphertextOffset(n) <= i < UsableEnd(d.config) + AES_BLOCK_SIZE && i < |page| && v != page[i]
    ensures IsPage(d.config, page[i := v])
    ensures HmacInput(d.config, n, page) != HmacInput(d.config, n, page[i := v])
    ensures || DecryptPage(d, n, page[i := v]) == Failure(AuthenticationFailed(n))
            || Hmac(d.primitives, d.config.hmacAlgorithm, d.hmacKey, HmacInput(d.config, n, page))
               == Hmac(d.primitives, d.config.hmacAlgorithm, d.hmacKey, HmacInput(d.config, n, page[i := v]))
  {
    hide UsableEnd, Hmac, Plaintext, CheckHeader, ToLe32;
    var (lo, hi) := (CiphertextOffset(n), UsableEnd(d.config));
    if i < hi {
      assert StoredBody(d.config, n, page[i := v])[i - lo] == v != StoredBody(d.config, n, page)[i - lo];
    } else {
      assert StoredIv(d.config, page[i := v])[i - hi] == v != StoredIv(d.config, page)[i - hi];
    }
    HmacInputDetermines(d.config, n, page, n, page[i := v]);
    assert StoredHmac(d.config, page[i := v]) == StoredHmac(d.config, page);
  }

  /** Changing one byte of the MAC of a page that decrypts always makes authentication fail. */
  lemma ChangedMacIsNoticed(d: PageDecryptor, n: PageNumber, page: seq<byte>, i: nat, v: byte)
    requires DecryptPage(d, n, page).Success?
    requires UsableEnd(d.config) + AES_BLOCK_SIZE <= i < HmacEnd(d.config) && i < |page| && v != page[i]
    ensures DecryptPage(d, n, page[i := v]) == Failure(AuthenticationFailed(n))
  {
    hide UsableEnd, PageHmac, Plaintext, CheckHeader;
    var start := UsableEnd(d.config) + AES_BLOCK_SIZE;
    assert StoredHmac(d.config, page[i := v])[i - start] == v != StoredHmac(d.config, page)[i - start];
    assert StoredBody(d.config, n, page[i := v]) == StoredBody(d.config, n, page);
    assert StoredIv(d.config, page[i := v]) == StoredIv(d.config, page);
  }
}
