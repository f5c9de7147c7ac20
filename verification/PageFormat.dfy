/** The stored page in plain numbers: where its parts lie, what is authenticated, and what it decrypts to. */
module PageFormat {
  import opened Outcomes
  import opened Bytes
  import opened Config
  import opened Decryptor
  import Cbc

  function Reserve(h: HashAlgorithm): nat {
    match h
    case Sha1 => 48
    case Sha256 => 48
    case Sha512 => 80
  }

  function MacLength(h: HashAlgorithm): nat {
    match h
    case Sha1 => 20
    case Sha256 => 32
    case Sha512 => 64
  }

  function BodyStart(n: PageNumber): nat {
    if n == 1 then 16 else 0
  }

  /** "SQLite format 3" and a zero byte. */
  function Magic(): seq<byte> {
    ['S' as int, 'Q' as int, 'L' as int, 'i' as int, 't' as int, 'e' as int, ' ' as int, 'f' as int,
     'o' as int, 'r' as int, 'm' as int, 'a' as int, 't' as int, ' ' as int, '3' as int, 0]
  }

  function NumberBytes(n: PageNumber): seq<byte> {
    [n % 0x100, n / 0x100 % 0x100, n / 0x1_0000 % 0x100, n / 0x100_0000]
  }

  lemma Layout(config: CipherConfig)
    ensures config.hmacAlgorithm.OutputLen() == MacLength(config.hmacAlgorithm)
    ensures config.ReserveSize() == Reserve(config.hmacAlgorithm)
    ensures 944 <= config.pageSize - Reserve(config.hmacAlgorithm) == UsableEnd(config)
    ensures UsableEnd(config) % 16 == 0
    ensures 16 + MacLength(config.hmacAlgorithm) <= Reserve(config.hmacAlgorithm)
  {
    hide AcceptsPageSize, ReserveSizeFor;
    ReserveSizes(config.hmacAlgorithm);
    LayoutFits(config);
  }

  lemma LittleEndian(n: PageNumber)
    ensures ToLe32(n) == NumberBytes(n)
  {
    assert n / 0x100 / 0x100 == n / 0x1_0000 && n / 0x1_0000 / 0x100 == n / 0x100_0000;
  }

  /** The MAC behind the IV is that of the body, the IV, and the page number with its lowest byte first. */
  predicate Authentic(d: PageDecryptor, n: PageNumber, page: seq<byte>)
    requires |page| == d.config.pageSize
  {
    Layout(d.config);
    var end := |page| - Reserve(d.config.hmacAlgorithm);
    page[end + 16..end + 16 + MacLength(d.config.hmacAlgorithm)]
    == d.primitives.hmac(d.config.hmacAlgorithm, d.hmacKey, page[BodyStart(n)..end + 16] + NumberBytes(n))
  }

  function DecryptedBody(d: PageDecryptor, n: PageNumber, page: seq<byte>): (body: seq<byte>)
    requires |page| == d.config.pageSize
    ensures |body| == |page| - Reserve(d.config.hmacAlgorithm) - BodyStart(n) >= 928
  {
    Layout(d.config);
    var end := |page| - Reserve(d.config.hmacAlgorithm);
    Cbc.Decrypt(d.primitives, d.encryptionKey, page[end..end + 16], page[BodyStart(n)..end])
  }

  lemma AuthenticExactly(d: PageDecryptor, n: PageNumber, page: seq<byte>)
    requires |page| == d.config.pageSize
    ensures VerifyPageHmac(d, StoredBody(d.config, n, page), StoredIv(d.config, page), n, StoredHmac(d.config, page))
         == if Authentic(d, n, page) then Success(()) else Failure(AuthenticationFailed(n))
  {
    hide UsableEnd, ToLe32, NumberBytes, Reserve, MacLength;
    Layout(d.config);
    LittleEndian(n);
    var end := UsableEnd(d.config);
    assert page[BodyStart(n)..end] + page[end..end + 16] == page[BodyStart(n)..end + 16];
  }

  /** The page size in the header of page 1: a field of 1 stands for 65,536 bytes. */
  function HeaderPageSize(body: seq<byte>): nat
    requires |body| >= 5
  {
    if body[0] == 0 && body[1] == 1 then 65_536 else 0x100 * body[0] as int + body[1]
  }

  /** What is wrong with the header of page 1, the page size first. */
  function HeaderProblem(config: CipherConfig, body: seq<byte>): Option<DecryptError>
    requires |body| >= 5
  {
    if HeaderPageSize(body) != config.pageSize then
      Some(InvalidSqlitePageSize(config.pageSize, HeaderPageSize(body)))
    else if body[4] != Reserve(config.hmacAlgorithm) then
      Some(InvalidSqliteReserveSize(Reserve(config.hmacAlgorithm), body[4]))
    else
      None
  }

  lemma HeaderExactly(config: CipherConfig, body: seq<byte>)
    requires |body| >= 5
    ensures var r := CheckHeader(config, body[0], body[1], body[4]);
            if HeaderProblem(config, body).Some? then r == Failure(HeaderProblem(config, body).value) else r.Success?
  {
    hide AcceptsPageSize;
    Layout(config);
  }

  /**
   * What becomes of a page of the right length: a wrong MAC is reported as such, then, on page 1, a header that does
   * not fit; otherwise the page is the decrypted body between the magic string (on page 1) and a zero reserve.
   */
  lemma DecryptsExactly(d: PageDecryptor, n: PageNumber, page: seq<byte>)
    requires |page| == d.config.pageSize
    ensures var (r, body) := (DecryptPage(d, n, page), DecryptedBody(d, n, page));
            r == if !Authentic(d, n, page) then Failure(AuthenticationFailed(n))
                 else if n == 1 && HeaderProblem(d.config, body).Some? then
                   Failure(HeaderProblem(d.config, body).value)
                 else
                   Success((if n == 1 then Magic() else []) + body + Zeros(Reserve(d.config.hmacAlgorithm)))
  {
    hide UsableEnd, VerifyPageHmac, Cbc.Decrypt, CheckHeader, StoredHmac, Authentic, HeaderProblem, Reserve;
    Layout(d.config);
    AuthenticExactly(d, n, page);
    MagicBytes();
    var body := DecryptedBody(d, n, page);
    assert Plaintext(d, n, page) == (if n == 1 then Magic() else []) + body + Zeros(Reserve(d.config.hmacAlgorithm));
    if n == 1 {
      HeaderExactly(d.config, body);
      HeaderBytes(d, page, body);
    }
  }

  lemma MagicBytes()
    ensures SQLITE_HEADER_MAGIC == Magic()
  {
  }

  lemma HeaderBytes(d: PageDecryptor, page: seq<byte>, body: seq<byte>)
    requires |page| == d.config.pageSize && |body| >= 5
    requires Plaintext(d, 1, page) == Magic() + body + Zeros(Reserve(d.config.hmacAlgorithm))
    ensures var plain := Plaintext(d, 1, page);
            |plain| > 20 && plain[16] == body[0] && plain[17] == body[1] && plain[20] == body[4]
  {
    hide Plaintext;
  }
}
