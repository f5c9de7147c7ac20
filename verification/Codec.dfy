/** The storage-engine adapter: page codec, connection set-up, and their agreement with the reader. */
module Codec {
  import opened Outcomes
  import opened Bytes
  import opened Config
  import opened Primitives
  import opened Decryptor
  import opened Sources
  import opened Pages
  import opened Databases

  datatype PageLocation = MainFile | Wal

  datatype CodecError = ReadOnly | UnsupportedContext | PageZero | Undecodable(reason: DecryptError)

  datatype SqlCipherCodec = SqlCipherCodec(decoder: PageDecryptor, config: CipherConfig, pageCount: u32,
                                            walPageLimit: Option<u32>) {
    predicate InRange(n: u32, location: PageLocation) {
      match location
      case MainFile => n <= pageCount
      case Wal => walPageLimit.Some? && n <= walPageLimit.value
    }

    /** The value of `decode_page` for an output buffer of the given length. */
    function Decode(n: u32, location: PageLocation, input: seq<byte>, outputLength: nat)
      : Result<seq<byte>, CodecError>
    {
      if !InRange(n, location) || |input| != config.pageSize || outputLength != |input| then Failure(UnsupportedContext)
      else if n == 0 then Failure(PageZero)
      else
        match DecryptPage(decoder, n, input)
        case Success(page) => Success(page)
        case Failure(e) => Failure(Undecodable(e))
    }

    method DecodePage(n: u32, location: PageLocation, input: seq<byte>, output: array<byte>)
      returns (r: Result<(), CodecError>)
      modifies output
      ensures match Decode(n, location, input, output.Length)
              case Success(page) => r == Success(()) && output[..] == page
              case Failure(e) => r == Failure(e) && output[..] == Zeros(output.Length)
    {
      hide DecryptPage, AcceptsPageSize;
      Zeroize(output);
      if !InRange(n, location) || |input| != config.pageSize || output.Length != |input| {
        return Failure(UnsupportedContext);
      }
      if n == 0 {
        return Failure(PageZero);
      }
      CopyInto(output, 0, input);
      assert output[..] == input;
      var decrypted := DecryptPageInPlace(decoder, n, output);
      r := if decrypted.Success? then Success(()) else Failure(Undecodable(decrypted.error));
    }

    method EncodePage(output: array<byte>) returns (r: Result<(), CodecError>)
      modifies output
      ensures r == Failure(ReadOnly) && output[..] == Zeros(output.Length)
    {
      Zeroize(output);
      return Failure(ReadOnly);
    }

    /** The cast to one byte loses nothing. */
    function RequiredReservedBytes(): (reserved: byte)
      ensures reserved == config.ReserveSize()
    {
      LayoutFits(config);
      config.ReserveSize() % 0x100
    }
  }

  function NewCodec(decoder: PageDecryptor, config: CipherConfig, pageCount: u32, walPages: Option<u32>)
    : SqlCipherCodec
  {
    SqlCipherCodec(decoder, config, pageCount,
                   if walPages.Some? then Some(SaturatingAdd32(pageCount, walPages.value)) else None)
  }

  datatype Connection = Connection(codec: SqlCipherCodec, maximum: u32)

  /** Setting up a connection: the checks before the engine is entered, with page 1 decrypted eagerly. */
  function ConnectOutcome(p: Primitives, config: CipherConfig, passphrase: seq<byte>, bytes: Contents, faults: Faults,
                          walPages: Option<u32>)
    : Result<Connection, ReaderError>
  {
    LayoutFits(config);
    if passphrase == [] then Failure(Decrypt(EmptyPassphrase)) else
    if Head(faults).Some? then Failure(Source(Head(faults).value.error)) else
    var pageCount :- CheckLength(|bytes|, config.pageSize);
    if Head(Tail(faults)).Some? then Failure(Source(Head(Tail(faults)).value.error)) else
    assert |bytes| >= config.pageSize by { MulMonotone(1, pageCount, config.pageSize); }
    var decoder :- FromDecrypt(NewDecryptor(p, config, passphrase, bytes[..16]));
    var _ :- FromDecrypt(DecryptPage(decoder, 1, bytes[..config.pageSize]));
    Success(Connection(NewCodec(decoder, config, pageCount, walPages),
                       SaturatingAdd32(pageCount, if walPages.Some? then walPages.value else 0)))
  }

  method OpenConnection(p: Primitives, source: ReadSource, config: CipherConfig, passphrase: seq<byte>,
                        walPages: Option<u32>)
    returns (r: Result<Connection, ReaderError>)
    modifies source
    ensures r == ConnectOutcome(p, config, passphrase, source.bytes, old(source.faults), walPages)
    ensures source.faults ==
            if passphrase == [] then old(source.faults)
            else if Head(old(source.faults)).None? && CheckLength(|source.bytes|, config.pageSize).Success?
            then Tail(Tail(old(source.faults))) else Tail(old(source.faults))
  {
    hide DecryptPage, NewDecryptor, AcceptsPageSize;
    if passphrase == [] {
      return Failure(Decrypt(EmptyPassphrase));
    }
    LayoutFits(config);
    var length := source.Len();
    var size :- FromSource(length);
    if size == 0 {
      return Failure(EmptyFile);
    }
    if size < config.pageSize {
      return Failure(FileTooSmall(size, config.pageSize));
    }
    if size % config.pageSize != 0 {
      return Failure(InvalidFileSize(size, config.pageSize));
    }
    var count := size / config.pageSize;
    var pageCount :- TryFromU32(count).OkOr(TooManyPages(count));
    var firstPage := new byte[config.pageSize];
    var read := source.ReadExactAt(0, firstPage);
    var _ :- FromSource(read);
    assert firstPage[..] == source.bytes[..config.pageSize];
    var salt := firstPage[..16];
    assert salt == source.bytes[..16];
    var decoder :- FromDecrypt(NewDecryptor(p, config, passphrase, salt));
    var decrypted := DecryptPageInPlace(decoder, 1, firstPage);
    var _ :- FromDecrypt(decrypted);
    return Success(Connection(NewCodec(decoder, config, pageCount, walPages),
                              SaturatingAdd32(pageCount, if walPages.Some? then walPages.value else 0)));
  }

  /** The first problem decides, and the passphrase comes before anything is read. */
  lemma ConnectErrors(p: Primitives, config: CipherConfig, passphrase: seq<byte>, bytes: Contents, faults: Faults,
                      walPages: Option<u32>)
    ensures config.pageSize > 0
    ensures var r := ConnectOutcome(p, config, passphrase, bytes, faults, walPages);
            var length := CheckLength(|bytes|, config.pageSize);
            && (passphrase == [] ==> r == Failure(Decrypt(EmptyPassphrase)))
            && (passphrase != [] && FaultAt(faults, 0).Some? ==> r == Failure(Source(FaultAt(faults, 0).value.error)))
            && (passphrase != [] && Quiet(faults, 1) && length.Failure? ==> r == Failure(length.error))
            && (passphrase != [] && Quiet(faults, 1) && length.Success? && FaultAt(faults, 1).Some? ==>
                  r == Failure(Source(FaultAt(faults, 1).value.error)))
            && (r.Success? ==> passphrase != [] && Quiet(faults, 2) && length.Success?)
  {
    hide AcceptsPageSize, CheckLength, DecryptPage, NewDecryptor;
    LayoutFits(config);
    FirstTwoFaults(faults);
  }

  // ----- agreement with the reader

  /** On the source's bytes for a main-file page, the codec and the reader return the same page or the same reason. */
  lemma CodecAgreesWithReader(db: Database, walPages: Option<u32>, n: u32)
    requires db.Valid()
    ensures var codec := NewCodec(db.decryptor, db.decryptor.config, db.pageCount, walPages);
            if db.HasPage(n) then
              match ReadPage(db, n, None)
              case Success(page) => codec.Decode(n, MainFile, db.StoredPage(n), db.PageSize()) == Success(page)
              case Failure(e) => e.Decrypt? && codec.Decode(n, MainFile, db.StoredPage(n), db.PageSize())
                                 == Failure(Undecodable(e.reason))
            else
              forall input: seq<byte>, length: nat :: codec.Decode(n, MainFile, input, length).Failure?
  {
    hide DecryptPage, AcceptsPageSize;
  }

  /** A connection is refused exactly when opening a reader or reading its page 1 fails; both derive the same keys. */
  lemma ConnectAgreesWithOpen(p: Primitives, config: CipherConfig, passphrase: seq<byte>, bytes: Contents,
                              faults: Faults, walPages: Option<u32>)
    requires FaultFree(faults)
    ensures var (connected, r) := (ConnectOutcome(p, config, passphrase, bytes, faults, walPages),
                                   OpenOutcome(p, config, passphrase, bytes, faults));
            && (r.Success? ==> r.value.HasPage(1))
            && (connected.Success? <==> r.Success? && r.value.Page(1).Success?)
            && (connected.Success? ==>
                  && connected.value.codec == NewCodec(r.value.decryptor, config, r.value.pageCount, walPages)
                  && connected.value.maximum ==
                        if walPages.Some? then connected.value.codec.walPageLimit.value else r.value.pageCount)
            && (connected.Failure? && r.Success? ==> connected.error == Decrypt(r.value.Page(1).error))
            && (r.Failure? && passphrase != [] ==> connected == Failure(r.error))
  {
    hide DecryptPage, NewDecryptor, AcceptsPageSize;
    var r := OpenOutcome(p, config, passphrase, bytes, faults);
    if r.Success? {
      assert r.value.HasPage(1);
      NeedsPassphrase(p, config, passphrase, bytes[..16]);
      MulMonotone(1, r.value.pageCount, config.pageSize);
      assert r.value.StoredPage(1) == bytes[..config.pageSize];
    }
  }
}
