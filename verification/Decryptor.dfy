/** Authenticated decryption of one page, as a value and in place. */
module Decryptor {
  import opened Outcomes
  import opened Bytes
  import opened Config
  import opened Primitives
  import Cbc

  type PageNumber = n: int | 1 <= n <= U32_MAX witness 1

  /** The sixteen bytes "SQLite format 3" with the terminating zero. */
  const SQLITE_HEADER_MAGIC: seq<byte> :=
    [0x53, 0x51, 0x4C, 0x69, 0x74, 0x65, 0x20, 0x66, 0x6F, 0x72, 0x6D, 0x61, 0x74, 0x20, 0x33, 0x00]

  datatype PageDecryptor = PageDecryptor(primitives: Primitives, config: CipherConfig, encryptionKey: Key,
                                         hmacKey: Key) {
    function PageSize(): (size: nat)
      ensures 1024 <= size <= 65_536
    {
      LayoutFits(config);
      config.pageSize
    }
  }

  datatype DecryptError =
    | InvalidPageLength(expected: nat, actual: nat)
    | EmptyPassphrase
    | InvalidSqlitePageSize(expectedSize: nat, actualSize: nat)
    | InvalidSqliteReserveSize(expectedReserve: nat, actualReserve: nat)
    | AuthenticationFailed(pageNo: PageNumber)

  function HmacSalt(salt: Block): (r: seq<byte>)
    ensures |r| == 16
  {
    seq(16, i requires 0 <= i < 16 => Xor(salt[i], 0x3a))
  }

  function NewDecryptor(p: Primitives, config: CipherConfig, passphrase: seq<byte>, salt: Block)
    : Result<PageDecryptor, DecryptError>
  {
    if passphrase == [] then Failure(EmptyPassphrase) else
    var encryptionKey := Pbkdf2(p, config.kdfAlgorithm, passphrase, salt, config.kdfIterations);
    var hmacKey := Pbkdf2(p, config.kdfAlgorithm, encryptionKey, HmacSalt(salt), 2);
    Success(PageDecryptor(p, config, encryptionKey, hmacKey))
  }

  /** The HMAC key's salt differs from the database salt in every byte, and determines it. */
  lemma HmacSaltIsDistinct(salt: Block)
    ensures HmacSalt(HmacSalt(salt)) == salt
    ensures forall i :: 0 <= i < 16 ==> HmacSalt(salt)[i] != salt[i]
  {
    forall i | 0 <= i < 16 ensures Xor(Xor(salt[i], 0x3a), 0x3a) == salt[i] && Xor(salt[i], 0x3a) != salt[i] {
      XorCancels(salt[i], 0x3a);
      XorChanges(salt[i], 0x3a);
    }
  }

  /** Both keys depend on the KDF settings alone, not on the page layout or the HMAC algorithm. */
  lemma KeysIgnoreLayout(p: Primitives, config: CipherConfig, other: CipherConfig, passphrase: seq<byte>, salt: Block)
    requires passphrase != []
    requires config.kdfAlgorithm == other.kdfAlgorithm && config.kdfIterations == other.kdfIterations
    ensures var (d, d') := (NewDecryptor(p, config, passphrase, salt).value,
                            NewDecryptor(p, other, passphrase, salt).value);
            d.encryptionKey == d'.encryptionKey && d.hmacKey == d'.hmacKey
  {
  }

  lemma NeedsPassphrase(p: Primitives, config: CipherConfig, passphrase: seq<byte>, salt: Block)
    ensures NewDecryptor(p, config, passphrase, salt).Success? <==> passphrase != []
  {
  }

  // ----- page layout

  function CiphertextOffset(n: PageNumber): nat {
    if n == 1 then 16 else 0
  }

  function HmacEnd(config: CipherConfig): (end: nat)
    ensures UsableEnd(config) + 16 < end <= config.pageSize
  {
    LayoutFits(config);
    UsableEnd(config) + AES_BLOCK_SIZE + config.hmacAlgorithm.OutputLen()
  }

  predicate IsPage(config: CipherConfig, page: seq<byte>) {
    |page| == config.pageSize
  }

  function StoredBody(config: CipherConfig, n: PageNumber, page: seq<byte>): (body: seq<byte>)
    requires IsPage(config, page)
    ensures |body| == UsableEnd(config) - CiphertextOffset(n) && |body| % 16 == 0
  {
    LayoutFits(config);
    page[CiphertextOffset(n)..UsableEnd(config)]
  }

  function StoredIv(config: CipherConfig, page: seq<byte>): (iv: seq<byte>)
    requires IsPage(config, page)
    ensures |iv| == 16
  {
    var _ := HmacEnd(config);
    page[UsableEnd(config)..UsableEnd(config) + AES_BLOCK_SIZE]
  }

  function StoredHmac(config: CipherConfig, page: seq<byte>): (tag: seq<byte>)
    requires IsPage(config, page)
    ensures |tag| == config.hmacAlgorithm.OutputLen()
  {
    page[UsableEnd(config) + AES_BLOCK_SIZE..HmacEnd(config)]
  }

  /** Bytes behind the MAC that round the reserve up to a whole block. */
  function StoredFiller(config: CipherConfig, page: seq<byte>): (filler: seq<byte>)
    requires IsPage(config, page)
    ensures |filler| == config.pageSize - HmacEnd(config)
  {
    page[HmacEnd(config)..]
  }

  // ----- authentication and header checks

  function PageHmac(d: PageDecryptor, n: PageNumber, body: seq<byte>, iv: seq<byte>): (tag: seq<byte>)
    ensures |tag| == d.config.hmacAlgorithm.OutputLen()
  {
    Hmac(d.primitives, d.config.hmacAlgorithm, d.hmacKey, body + iv + ToLe32(n))
  }

  function VerifyPageHmac(d: PageDecryptor, body: seq<byte>, iv: seq<byte>, n: PageNumber, storedHmac: seq<byte>)
    : Result<(), DecryptError>
  {
    if PageHmac(d, n, body, iv) == storedHmac then Success(()) else Failure(AuthenticationFailed(n))
  }

  /** What the MAC of a stored page is computed over. */
  function HmacInput(config: CipherConfig, n: PageNumber, page: seq<byte>): seq<byte>
    requires IsPage(config, page)
  {
    StoredBody(config, n, page) + StoredIv(config, page) + ToLe32(n)
  }

  /** The MAC input determines the body, the IV and the page number it was made from. */
  lemma HmacInputDetermines(config: CipherConfig, n: PageNumber, page: seq<byte>, m: PageNumber, other: seq<byte>)
    requires IsPage(config, page) && IsPage(config, other)
    ensures HmacInput(config, n, page) == HmacInput(config, m, other) <==>
            n == m && StoredBody(config, n, page) == StoredBody(config, m, other)
            && StoredIv(config, page) == StoredIv(config, other)
  {
    hide UsableEnd, StoredBody, StoredIv, ToLe32;
    var (body, body') := (StoredBody(config, n, page), StoredBody(config, m, other));
    var (input, input') := (HmacInput(config, n, page), HmacInput(config, m, other));
    if input == input' {
      assert ToLe32(n) == input[|input| - 4..] == input'[|input'| - 4..] == ToLe32(m);
      Le32RoundTrip(n);
      Le32RoundTrip(m);
      assert StoredIv(config, page) == input[|body|..|body| + 16];
      assert StoredIv(config, other) == input'[|body'|..|body'| + 16];
      assert body == input[..|body|] && body' == input'[..|body'|];
    }
  }

  /** Moving a stored page, or changing its body or IV, under its MAC is accepted only if the HMAC collides. */
  lemma SameMacMeansCollision(d: PageDecryptor, n: PageNumber, page: seq<byte>, m: PageNumber, other: seq<byte>)
    requires DecryptPage(d, n, page).Success? && DecryptPage(d, m, other).Success?
    requires StoredHmac(d.config, page) == StoredHmac(d.config, other)
    requires !(n == m && StoredBody(d.config, n, page) == StoredBody(d.config, m, other)
               && StoredIv(d.config, page) == StoredIv(d.config, other))
    ensures var (input, input') := (HmacInput(d.config, n, page), HmacInput(d.config, m, other));
            && input != input'
            && Hmac(d.primitives, d.config.hmacAlgorithm, d.hmacKey, input)
               == Hmac(d.primitives, d.config.hmacAlgorithm, d.hmacKey, input')
  {
    hide UsableEnd, StoredBody, StoredIv, StoredHmac, ToLe32, Hmac, Plaintext;
    HmacInputDetermines(d.config, n, page, m, other);
  }

  /** SQLite Database File Format, section 1.3.2: the value 1 stands for 65,536. */
  function DecodeSqlitePageSize(high: byte, low: byte): nat {
    var pageSize := high as int * 0x100 + low;
    if pageSize == 1 then 65_536 else pageSize
  }

  function EncodeSqlitePageSize(pageSize: nat): (r: (byte, byte))
    requires pageSize <= 65_536
  {
    if pageSize == 65_536 then (0, 1) else (pageSize / 0x100, pageSize % 0x100)
  }

  /** Exactly one two-byte field stands for each accepted page size. */
  lemma PageSizeFieldIsUnique(pageSize: nat, high: byte, low: byte)
    requires AcceptsPageSize(pageSize)
    ensures DecodeSqlitePageSize(high, low) == pageSize <==> (high, low) == EncodeSqlitePageSize(pageSize)
  {
    AcceptedPageSizes(pageSize);
  }

  function CheckHeader(config: CipherConfig, high: byte, low: byte, reserve: byte): Result<(), DecryptError> {
    if DecodeSqlitePageSize(high, low) != config.pageSize then
      Failure(InvalidSqlitePageSize(config.pageSize, DecodeSqlitePageSize(high, low)))
    else if reserve != config.ReserveSize() then
      Failure(InvalidSqliteReserveSize(config.ReserveSize(), reserve))
    else
      Success(())
  }

  /** The header fits for exactly one size field and reserve byte; a wrong size field is reported first. */
  lemma HeaderErrors(config: CipherConfig, high: byte, low: byte, reserve: byte)
    ensures var r := CheckHeader(config, high, low, reserve);
            var sizeFits := config.pageSize <= 65_536 && (high, low) == EncodeSqlitePageSize(config.pageSize);
            && (r.Success? <==> sizeFits && reserve == config.ReserveSize())
            && (r.Failure? && sizeFits ==> r.error == InvalidSqliteReserveSize(config.ReserveSize(), reserve))
            && (r.Failure? && !sizeFits ==>
                  r.error.InvalidSqlitePageSize? && r.error.expectedSize == config.pageSize != r.error.actualSize)
  {
    hide IsPowerOfTwo, DecodeSqlitePageSize, EncodeSqlitePageSize;
    PageSizeFieldIsUnique(config.pageSize, high, low);
  }

  // ----- decryption as a value

  /** The page the stored bytes stand for, if they are authentic and the header fits. */
  function Plaintext(d: PageDecryptor, n: PageNumber, page: seq<byte>): (plain: seq<byte>)
    requires IsPage(d.config, page)
    ensures IsPage(d.config, plain)
  {
    LayoutFits(d.config);
    (if n == 1 then SQLITE_HEADER_MAGIC else [])
    + Cbc.Decrypt(d.primitives, d.encryptionKey, StoredIv(d.config, page), StoredBody(d.config, n, page))
    + Zeros(d.config.ReserveSize())
  }

  function DecryptPage(d: PageDecryptor, n: PageNumber, page: seq<byte>): (r: Result<seq<byte>, DecryptError>)
    ensures r.Success? ==> IsPage(d.config, r.value)
  {
    if !IsPage(d.config, page) then Failure(InvalidPageLength(d.config.pageSize, |page|)) else
    var _ :- VerifyPageHmac(d, StoredBody(d.config, n, page), StoredIv(d.config, page), n, StoredHmac(d.config, page));
    var plain := Plaintext(d, n, page);
    LayoutFits(d.config);
    var _ :- if n == 1 then CheckHeader(d.config, plain[16], plain[17], plain[20]) else Success(());
    Success(plain)
  }

  // ----- decryption in place

  method DecryptPageInPlace(d: PageDecryptor, n: PageNumber, page: array<byte>) returns (r: Result<(), DecryptError>)
    modifies page
    ensures match DecryptPage(d, n, old(page[..]))
            case Success(plain) => r == Success(()) && page[..] == plain
            case Failure(e) => r == Failure(e) && page[..] == Zeros(page.Length)
  {
    if page.Length != d.config.pageSize {
      Zeroize(page);
      return Failure(InvalidPageLength(d.config.pageSize, page.Length));
    }
    r := DecryptPageInPlaceInner(d, n, page);
    if r.Failure? {
      Zeroize(page);
    }
  }

  method DecryptPageInPlaceInner(d: PageDecryptor, n: PageNumber, page: array<byte>)
    returns (r: Result<(), DecryptError>)
    requires page.Length == d.config.pageSize
    modifies page
    ensures match DecryptPage(d, n, old(page[..]))
            case Success(plain) => r == Success(()) && page[..] == plain
            case Failure(e) => r == Failure(e)
  {
    hide Cbc.Decrypt, VerifyPageHmac, CheckHeader, UsableEnd, HmacEnd, Splice, Plaintext;
    ghost var stored := page[..];
    var ciphertextOffset := CiphertextOffset(n);
    var ciphertextEnd := UsableEnd(d.config);
    var ivEnd := ciphertextEnd + AES_BLOCK_SIZE;
    var iv := page[ciphertextEnd..ivEnd];
    var _ :- VerifyPageHmac(d, page[ciphertextOffset..ciphertextEnd], iv, n, page[ivEnd..HmacEnd(d.config)]);
    AssemblePlaintext(d, n, stored);
    Cbc.DecryptInPlace(d.primitives, d.encryptionKey, iv, page, ciphertextOffset, ciphertextEnd);
    if n == 1 {
      CopyInto(page, 0, SQLITE_HEADER_MAGIC);
      ghost var decrypted := page[..];
      assert decrypted[16] == page[16] && decrypted[17] == page[17] && decrypted[20] == page[20];
      var _ :- CheckHeader(d.config, page[16], page[17], page[20]);
    }
    ghost var decrypted := page[..];
    ZeroizeFrom(page, ciphertextEnd);
    assert page[..] == decrypted[..ciphertextEnd] + Zeros(d.config.ReserveSize());
    return Success(());
  }

  /** The successive in-place writes produce the plaintext page. */
  lemma AssemblePlaintext(d: PageDecryptor, n: PageNumber, stored: seq<byte>)
    requires IsPage(d.config, stored)
    ensures var lo := CiphertextOffset(n);
            var hi := UsableEnd(d.config);
            var (iv, cipher) := (StoredIv(d.config, stored), StoredBody(d.config, n, stored));
            var body := Cbc.Decrypt(d.primitives, d.encryptionKey, iv, cipher);
            var decrypted := Splice(stored, lo, body);
            var restored := if n == 1 then Splice(decrypted, 0, SQLITE_HEADER_MAGIC) else decrypted;
            var plain := Plaintext(d, n, stored);
            && restored[..hi] + Zeros(d.config.ReserveSize()) == plain
            && restored[16] == plain[16] && restored[17] == plain[17] && restored[20] == plain[20]
  {
    hide Cbc.Decrypt, UsableEnd, StoredBody, StoredIv, Splice;
    var (lo, hi) := (CiphertextOffset(n), UsableEnd(d.config));
    var body := Cbc.Decrypt(d.primitives, d.encryptionKey, StoredIv(d.config, stored), StoredBody(d.config, n, stored));
    var decrypted := Splice(stored, lo, body);
    if n == 1 {
      OverwriteFront(stored, body, SQLITE_HEADER_MAGIC);
      var restored := Splice(decrypted, 0, SQLITE_HEADER_MAGIC);
      assert forall i {:trigger restored[i]} :: 0 <= i < hi ==> restored[..hi][i] == restored[i];
    } else {
      SpliceParts(stored, lo, body, 0, 0);
      assert [] + body == body == decrypted[..hi];
    }
  }

  lemma OverwriteFront(s: seq<byte>, body: seq<byte>, header: seq<byte>)
    requires |header| + |body| <= |s|
    ensures Splice(Splice(s, |header|, body), 0, header)[..|header| + |body|] == header + body
  {
  }
}
