/** The verify command and the reading of a passphrase line. */
module CommandLine {
  import opened Outcomes
  import opened Bytes
  import opened Config
  import opened Sources
  import opened Pages
  import opened Databases
  import opened Reader
  import opened RangeReads
  import opened EncryptedDatabases

  // ----- verify

  /** Reads every page into one buffer; `seen` records what passed through it. */
  method Verify(reader: SqlCipherReader) returns (r: Result<(), ReaderError>, ghost seen: seq<byte>)
    requires reader.Valid()
    modifies reader.source
    ensures Outcome(r, reader.source.faults) == Scan(reader.View(), old(reader.source.faults), 1, reader.pageCount)
    ensures r.Success? ==> seen == reader.View().Image()
  {
    hide AcceptsPageSize, Database.Page, Database.PlainPage, ReadPage, Scan, Join;
    ghost var db := reader.View();
    ghost var pages: seq<seq<byte>> := [];
    seen := [];
    assert Join([]) == [] by { JoinNothing(); }
    var plaintextPage := new byte[reader.PageSize()];
    var done := 0;
    while done < reader.pageCount
      invariant 0 <= done <= reader.pageCount
      invariant seen == Join(pages) && pages == db.PlainPages()[..done]
      invariant Scan(db, reader.source.faults, done + 1, reader.pageCount)
                == Scan(db, old(reader.source.faults), 1, reader.pageCount)
    {
      ScanStep(db, reader.source.faults, done + 1, reader.pageCount);
      r := reader.ReadPageInto(done + 1, plaintextPage);
      if r.Failure? {
        return;
      }
      JoinExtends(pages, plaintextPage[..]);
      seen, pages := seen + plaintextPage[..], pages + [plaintextPage[..]];
      done := done + 1;
    }
    ScanEnds(db, reader.source.faults, reader.pageCount);
    assert db.PlainPages()[..reader.pageCount] == db.PlainPages();
    r := Success(());
  }

  lemma JoinNothing()
    ensures Join([]) == []
  {
  }

  /** After a verification that succeeds, every in-bounds read succeeds, and the file is the encryption of its image. */
  lemma VerifyIsComplete(db: Database, faults: Faults, later: Faults, offset: u64, length: nat)
    requires db.Valid() && Scan(db, faults, 1, db.pageCount).result.Success?
    requires FaultFree(later) && offset + length <= |db.bytes|
    ensures ReadRange(db, later, offset, length).result == Success(db.Image()[offset..offset + length])
    ensures ReadRange(db, later, 0, |db.bytes|).result == Success(db.Image())
    ensures WellFormedImage(db.decryptor.config, db.Image(), db.pageCount)
         && db.bytes == EncryptImage(db.decryptor, SaltOf(db), db.Image(), SealsOf(db))
  {
    hide Database.Page, Database.Image, Scan, ReadRange, AllDecrypt, WellFormedImage, EncryptImage;
    ScanSound(db, faults, 1, db.pageCount);
    ReadsOfVerified(db, later, offset, length);
    ReadsOfVerified(db, later, 0, |db.bytes|);
    assert db.Image()[0..|db.bytes|] == db.Image();
    VerifiedIsEncryption(db);
  }

  // ----- the passphrase line

  const LF: byte := 10
  const CR: byte := 13
  const BUFFER_SIZE := 4096

  /** The result of one read call: bytes (none at end of input), an interruption, or an error. */
  datatype ReadCall = Data(bytes: seq<byte>) | Interruption | Broken(error: IoError)

  type Script = s: seq<ReadCall> | forall i :: 0 <= i < |s| ==>
    (s[i].Data? ==> |s[i].bytes| <= BUFFER_SIZE) && (s[i].Broken? ==> s[i].error != Interrupted)

  /** An input stream; beyond the script it is at its end. */
  class Input {
    const script: Script
    var calls: nat

    constructor (script: Script)
      ensures this.script == script && calls == 0
    {
      this.script, calls := script, 0;
    }

    method Read(buffer: array<byte>) returns (r: Result<nat, IoError>)
      requires buffer.Length == BUFFER_SIZE
      modifies this, buffer
      ensures calls == old(calls) + 1
      ensures match CallAt(script, old(calls))
              case Data(bytes) => r == Success(|bytes|) && buffer[..|bytes|] == bytes
              case Interruption => r == Failure(Interrupted)
              case Broken(e) => r == Failure(e)
    {
      var call := CallAt(script, calls);
      calls := calls + 1;
      match call
      case Data(bytes) =>
        CopyInto(buffer, 0, bytes);
        r := Success(|bytes|);
      case Interruption => r := Failure(Interrupted);
      case Broken(e) => r := Failure(e);
    }
  }

  function CallAt(script: Script, i: nat): (call: ReadCall)
    ensures call.Data? ==> |call.bytes| <= BUFFER_SIZE
    ensures call.Broken? ==> call.error != Interrupted
  {
    if i < |script| then script[i] else Data([])
  }

  predicate HasLine(bytes: seq<byte>) {
    LF in bytes
  }

  /** The bytes before the first LF, or all of them. */
  function FirstLine(bytes: seq<byte>): (line: seq<byte>)
    ensures LF !in line && line <= bytes
    ensures HasLine(bytes) ==> |line| < |bytes| && bytes[|line|] == LF
    ensures !HasLine(bytes) ==> line == bytes
  {
    if bytes == [] || bytes[0] == LF then [] else [bytes[0]] + FirstLine(bytes[1..])
  }

  function TrimCr(line: seq<byte>): seq<byte> {
    if line != [] && line[|line| - 1] == CR then line[..|line| - 1] else line
  }

  /** All bytes up to the end of input or the first error, and that error; interruptions leave no trace. */
  datatype Stream = Stream(bytes: seq<byte>, ending: Option<IoError>)

  function StreamFrom(script: Script, i: nat): Stream
    decreases SaturatingSub(|script|, i)
  {
    match CallAt(script, i)
    case Interruption => StreamFrom(script, i + 1)
    case Broken(e) => Stream([], Some(e))
    case Data(bytes) =>
      if bytes == [] then Stream([], None) else
      var rest := StreamFrom(script, i + 1);
      Stream(bytes + rest.bytes, rest.ending)
  }

  /** What a passphrase is, said of the stream alone. */
  function PassphraseOf(stream: Stream): Result<seq<byte>, IoError> {
    if stream.ending.Some? && !HasLine(stream.bytes) then Failure(stream.ending.value)
    else Success(TrimCr(FirstLine(stream.bytes)))
  }

  /** The bytes gathered before a CR is removed. */
  function LineOf(stream: Stream): Result<seq<byte>, IoError> {
    if stream.ending.Some? && !HasLine(stream.bytes) then Failure(stream.ending.value)
    else Success(FirstLine(stream.bytes))
  }

  /** This call is the last one that is made: it fails, ends the input, or brings the LF. */
  predicate Decides(call: ReadCall) {
    call.Broken? || (call.Data? && (call.bytes == [] || HasLine(call.bytes)))
  }

  predicate Undecided(script: Script, from: nat, to: nat) {
    forall i :: from <= i < to ==> !Decides(CallAt(script, i))
  }

  lemma NothingDecidedYet(script: Script, from: nat)
    ensures Undecided(script, from, from)
  {
  }

  lemma StillUndecided(script: Script, from: nat, to: nat)
    requires from <= to && Undecided(script, from, to)
    ensures !Decides(CallAt(script, to)) ==> Undecided(script, from, to + 1)
  {
  }

  method ReadPassphraseLine(input: Input) returns (r: Result<seq<byte>, IoError>)
    modifies input
    ensures r == PassphraseOf(StreamFrom(input.script, old(input.calls)))
    ensures input.calls > old(input.calls) && Decides(CallAt(input.script, input.calls - 1))
    ensures Undecided(input.script, old(input.calls), input.calls - 1)
  {
    hide StreamFrom, FirstLine, Undecided, Decides, HasLine;
    var passphrase :- GatherLine(input);
    if passphrase != [] && passphrase[|passphrase| - 1] == CR {
      passphrase := passphrase[..|passphrase| - 1];
    }
    return Success(passphrase);
  }

  method GatherLine(input: Input) returns (r: Result<seq<byte>, IoError>)
    modifies input
    ensures r == LineOf(StreamFrom(input.script, old(input.calls)))
    ensures input.calls > old(input.calls) && Decides(CallAt(input.script, input.calls - 1))
    ensures Undecided(input.script, old(input.calls), input.calls - 1)
  {
    hide StreamFrom, FirstLine, Undecided, HasLine;
    NothingDecidedYet(input.script, input.calls);
    EmptyHasNoLine();
    var passphrase: seq<byte> := [];
    var buffer := new byte[BUFFER_SIZE];
    ghost var stream := StreamFrom(input.script, input.calls);
    while true
      invariant input.calls >= old(input.calls) && !HasLine(passphrase)
      invariant Undecided(input.script, old(input.calls), input.calls)
      invariant stream == Prepend(passphrase, StreamFrom(input.script, input.calls))
      decreases SaturatingSub(|input.script|, input.calls)
    {
      StreamStep(input.script, input.calls);
      StillUndecided(input.script, old(input.calls), input.calls);
      ghost var rest := StreamFrom(input.script, input.calls + 1);
      StreamEnds(passphrase);
      ghost var made := input.calls;
      var read := input.Read(buffer);
      assert input.calls - 1 == made;
      if read.Failure? {
        if read.error == Interrupted {
          continue;
        }
        return Failure(read.error);
      }
      var count := read.value;
      if count == 0 {
        return Success(passphrase);
      }
      var chunk := buffer[..count];
      var lineEnd := FindLf(chunk);
      if lineEnd.Some? {
        LineInChunk(passphrase, chunk, rest, lineEnd.value);
        return Success(passphrase + chunk[..lineEnd.value]);
      }
      ChunkWithoutLine(passphrase, chunk, rest);
      passphrase := passphrase + chunk;
    }
  }

  lemma EmptyHasNoLine()
    ensures !HasLine([])
  {
  }

  lemma StreamEnds(before: seq<byte>)
    requires !HasLine(before)
    ensures before + [] == before && FirstLine(before) == before
  {
  }

  lemma ChunkWithoutLine(before: seq<byte>, chunk: seq<byte>, rest: Stream)
    requires !HasLine(before) && !HasLine(chunk)
    ensures !HasLine(before + chunk)
    ensures Prepend(before, Prepend(chunk, rest)) == Prepend(before + chunk, rest)
  {
    assert before + (chunk + rest.bytes) == (before + chunk) + rest.bytes;
  }

  /** Position of the first LF. */
  method FindLf(chunk: seq<byte>) returns (r: Option<nat>)
    ensures r.None? <==> !HasLine(chunk)
    ensures r.Some? ==> r.value < |chunk| && chunk[r.value] == LF && !HasLine(chunk[..r.value])
  {
    for i := 0 to |chunk|
      invariant !HasLine(chunk[..i])
    {
      if chunk[i] == LF {
        return Some(i);
      }
    }
    return None;
  }

  ghost function Prepend(bytes: seq<byte>, stream: Stream): Stream {
    Stream(bytes + stream.bytes, stream.ending)
  }

  lemma StreamStep(script: Script, i: nat)
    ensures i >= |script| ==> CallAt(script, i) == Data([])
    ensures StreamFrom(script, i) ==
            match CallAt(script, i)
            case Interruption => StreamFrom(script, i + 1)
            case Broken(e) => Stream([], Some(e))
            case Data(bytes) => if bytes == [] then Stream([], None) else Prepend(bytes, StreamFrom(script, i + 1))
  {
  }

  /** A line is characterised by where the first LF stands. */
  lemma {:induction false} FirstLineIs(bytes: seq<byte>, end: nat)
    requires end < |bytes| && bytes[end] == LF && LF !in bytes[..end]
    ensures FirstLine(bytes) == bytes[..end]
  {
    assert LF in bytes;
  }

  lemma LineInChunk(before: seq<byte>, chunk: seq<byte>, rest: Stream, end: nat)
    requires !HasLine(before) && end < |chunk| && chunk[end] == LF && !HasLine(chunk[..end])
    ensures HasLine(chunk)
    ensures var bytes := before + (chunk + rest.bytes); HasLine(bytes) && FirstLine(bytes) == before + chunk[..end]
  {
    hide FirstLine;
    var bytes := before + (chunk + rest.bytes);
    assert bytes[|before| + end] == LF && bytes[..|before| + end] == before + chunk[..end];
    FirstLineIs(bytes, |before| + end);
  }

  // ----- independence of chunking

  /** The script cuts `bytes` into non-empty chunks, with interruptions anywhere, and then ends or breaks. */
  predicate Splits(script: Script, i: nat, bytes: seq<byte>, ending: Option<IoError>)
    decreases SaturatingSub(|script|, i)
  {
    match CallAt(script, i)
    case Interruption => Splits(script, i + 1, bytes, ending)
    case Broken(e) => bytes == [] && ending == Some(e)
    case Data(chunk) =>
      if chunk == [] then bytes == [] && ending == None
      else chunk <= bytes && Splits(script, i + 1, bytes[|chunk|..], ending)
  }

  lemma {:induction false} SplitsGiveStream(script: Script, i: nat, bytes: seq<byte>, ending: Option<IoError>)
    requires Splits(script, i, bytes, ending)
    ensures StreamFrom(script, i) == Stream(bytes, ending)
    decreases SaturatingSub(|script|, i)
  {
    match CallAt(script, i)
    case Interruption => SplitsGiveStream(script, i + 1, bytes, ending);
    case Broken(_) =>
    case Data(chunk) =>
      if chunk != [] {
        SplitsGiveStream(script, i + 1, bytes[|chunk|..], ending);
        assert chunk + bytes[|chunk|..] == bytes;
      }
  }

  /** However the same bytes are cut and interrupted, the passphrase is the same. */
  lemma ChunkingIsIrrelevant(script: Script, other: Script, bytes: seq<byte>, ending: Option<IoError>)
    requires Splits(script, 0, bytes, ending) && Splits(other, 0, bytes, ending)
    ensures PassphraseOf(StreamFrom(script, 0)) == PassphraseOf(StreamFrom(other, 0))
            == PassphraseOf(Stream(bytes, ending))
  {
    SplitsGiveStream(script, 0, bytes, ending);
    SplitsGiveStream(other, 0, bytes, ending);
  }

  /** An error counts only when no LF came before it, and then it is what is returned. */
  lemma ErrorsAfterLineAreUnseen(bytes: seq<byte>, ending: Option<IoError>, later: seq<byte>)
    requires HasLine(bytes)
    ensures PassphraseOf(Stream(bytes + later, ending)) == PassphraseOf(Stream(bytes, None))
  {
    var end := |FirstLine(bytes)|;
    assert bytes[..end] == FirstLine(bytes) && (bytes + later)[..end] == bytes[..end] && (bytes + later)[end] == LF;
    FirstLineIs(bytes + later, end);
  }

  /** Reading fails exactly when the stream breaks before any LF, and then with the error that broke it. */
  lemma BrokenStreams(stream: Stream)
    ensures PassphraseOf(stream).Failure? <==> stream.ending.Some? && LF !in stream.bytes
    ensures PassphraseOf(stream).Failure? ==> PassphraseOf(stream).error == stream.ending.value
  {
  }

  /** LF, CR LF and CR at the end of input all end a line, and exactly one CR is removed. */
  lemma LineTerminators(line: seq<byte>, later: seq<byte>, ending: Option<IoError>)
    requires LF !in line
    ensures PassphraseOf(Stream(line + [CR, LF] + later, ending)) == Success(line)
    ensures PassphraseOf(Stream(line + [CR], None)) == Success(line)
    ensures line == [] || line[|line| - 1] != CR ==>
              && PassphraseOf(Stream(line + [LF] + later, ending)) == Success(line)
              && PassphraseOf(Stream(line, None)) == Success(line)
  {
    hide FirstLine;
    var (crLf, lf) := (line + [CR, LF] + later, line + [LF] + later);
    assert crLf[..|line| + 1] == line + [CR] && crLf[|line| + 1] == LF;
    FirstLineIs(crLf, |line| + 1);
    assert lf[..|line|] == line && lf[|line|] == LF;
    FirstLineIs(lf, |line|);
    assert !HasLine(line + [CR]) && (line + [CR])[..|line|] == line;
  }
}
