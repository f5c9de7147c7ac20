/** What the codec decodes, for main-file and WAL pages alike: exactly the encryptions of well-formed pages in range. */
module CodecPages {
  import opened Outcomes
  import opened Bytes
  import opened Config
  import opened Primitives
  import opened Decryptor
  import opened Encryptor
  import opened Codec

  /** The largest page number at a location: the main file's page count, or that and the WAL's frames, capped. */
  function Limit(location: PageLocation, pageCount: u32, walPages: Option<u32>): int {
    match location
    case MainFile => pageCount
    case Wal =>
      if walPages.None? then -1
      else if pageCount as int + walPages.value > 0xFFFF_FFFF then 0xFFFF_FFFF
      else pageCount as int + walPages.value
  }

  /** `input` is what a writer stores for the well-formed page `plain` under number `n`, with some salt and seal. */
  ghost predicate Encrypts(d: PageDecryptor, n: PageNumber, plain: seq<byte>, input: seq<byte>) {
    && WellFormedPage(d.config, n, plain)
    && exists salt: Block, seal: Seal :: seal.Fits(d.config) && input == EncryptPage(d, n, plain, salt, seal)
  }

  lemma EncryptsExactly(d: PageDecryptor, n: PageNumber, plain: seq<byte>, input: seq<byte>)
    requires IsPage(d.config, input)
    ensures DecryptPage(d, n, input) == Success(plain) <==> Encrypts(d, n, plain, input)
  {
    hide DecryptPage, EncryptPage, CheckHeader, UsableEnd, Seal.Fits, SealOf;
    LayoutFits(d.config);
    if DecryptPage(d, n, input) == Success(plain) {
      AcceptedPages(d, n, input, plain);
      var (salt: Block, seal) := (input[..16], SealOf(d.config, input));
      assert seal.Fits(d.config) && input == EncryptPage(d, n, plain, salt, seal);
    }
    if Encrypts(d, n, plain, input) {
      var salt: Block, seal: Seal :| seal.Fits(d.config) && input == EncryptPage(d, n, plain, salt, seal);
      RoundTrip(d, n, plain, salt, seal);
    }
  }

  /**
   * Decoding gives `plain` exactly when the number is from 1 to the location's limit, input and output have one page,
   * and the input is an encryption of the well-formed page `plain` under that number.
   */
  lemma DecodesExactly(d: PageDecryptor, pageCount: u32, walPages: Option<u32>, n: u32, location: PageLocation,
                       input: seq<byte>, outputLength: nat, plain: seq<byte>)
    ensures var codec := NewCodec(d, d.config, pageCount, walPages);
            codec.Decode(n, location, input, outputLength) == Success(plain) <==>
            && 1 <= n <= Limit(location, pageCount, walPages)
            && |input| == outputLength == d.config.pageSize
            && Encrypts(d, n, plain, input)
  {
    hide DecryptPage, Encrypts, AcceptsPageSize;
    if n >= 1 && |input| == d.config.pageSize {
      EncryptsExactly(d, n, plain, input);
    }
  }

  /** What comes out otherwise: beyond the limit or with other lengths, page zero, or the decryption error. */
  lemma DecodeErrors(d: PageDecryptor, pageCount: u32, walPages: Option<u32>, n: u32, location: PageLocation,
                     input: seq<byte>, outputLength: nat)
    ensures var r := NewCodec(d, d.config, pageCount, walPages).Decode(n, location, input, outputLength);
            var fits := n <= Limit(location, pageCount, walPages) && |input| == outputLength == d.config.pageSize;
            && (r == Failure(UnsupportedContext) <==> !fits)
            && (r == Failure(PageZero) <==> fits && n == 0)
            && (r.Failure? && fits && n >= 1 ==>
                  DecryptPage(d, n, input).Failure? && r.error == Undecodable(DecryptPage(d, n, input).error))
  {
    hide DecryptPage, AcceptsPageSize;
  }

  /** A page that no writer stored under this number is never decoded, wherever it comes from. */
  lemma ForeignPagesAreRefused(d: PageDecryptor, pageCount: u32, walPages: Option<u32>, n: u32, location: PageLocation,
                               input: seq<byte>, outputLength: nat)
    requires n >= 1 && forall plain :: !Encrypts(d, n, plain, input)
    ensures NewCodec(d, d.config, pageCount, walPages).Decode(n, location, input, outputLength).Failure?
  {
    hide SqlCipherCodec.Decode, Encrypts;
    var r := NewCodec(d, d.config, pageCount, walPages).Decode(n, location, input, outputLength);
    if r.Success? {
      DecodesExactly(d, pageCount, walPages, n, location, input, outputLength, r.value);
    }
  }
}
