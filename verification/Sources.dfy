/** Random-access byte sources: the contract readers rely on, and the two implementations. */
module Sources {
  import opened Outcomes
  import opened Bytes

  datatype IoError = UnexpectedEof | InvalidInput | AlreadyExists | NotFound | Interrupted | Other(code: nat)

  /** One failing operation, with the bytes it leaves at the front of the buffer. */
  datatype Fault = Fault(error: IoError, partial: seq<byte>)

  /** What happens to the coming operations, in order; operations after the last entry succeed. */
  type Faults = seq<Option<Fault>>

  function Head<T>(steps: seq<Option<T>>): Option<T> {
    if steps == [] then None else steps[0]
  }

  function Tail<T>(steps: seq<T>): seq<T> {
    if steps == [] then [] else steps[1..]
  }

  predicate FaultFree<T>(steps: seq<Option<T>>) {
    forall i :: 0 <= i < |steps| ==> steps[i].None?
  }

  function FaultAt<T>(steps: seq<Option<T>>, i: nat): Option<T> {
    if i < |steps| then steps[i] else None
  }

  function Drop<T>(steps: seq<T>, i: nat): seq<T> {
    if i < |steps| then steps[i..] else []
  }

  /** The first `i` operations succeed. */
  predicate Quiet<T>(steps: seq<Option<T>>, i: nat) {
    forall j :: 0 <= j < i ==> FaultAt(steps, j).None?
  }

  lemma DropStep<T>(steps: seq<Option<T>>, i: nat)
    ensures Head(Drop(steps, i)) == FaultAt(steps, i) && Tail(Drop(steps, i)) == Drop(steps, i + 1)
  {
  }

  type Contents = s: seq<byte> | |s| <= U64_MAX

  /** What a reader may rely on: the requested bytes, the end of the source, or the operation's fault. */
  function SourceRead(bytes: Contents, fault: Option<Fault>, offset: u64, length: nat): Result<seq<byte>, IoError> {
    match fault
    case Some(f) => Failure(f.error)
    case None =>
      if offset + length <= |bytes| then Success(bytes[offset..offset + length]) else Failure(UnexpectedEof)
  }

  /** Any source over immutable bytes whose operations may fail. */
  class ReadSource {
    const bytes: Contents
    var faults: Faults

    constructor (bytes: Contents, faults: Faults)
      ensures this.bytes == bytes && this.faults == faults
    {
      this.bytes, this.faults := bytes, faults;
    }

    method Len() returns (r: Result<u64, IoError>)
      modifies this
      ensures faults == Tail(old(faults))
      ensures match Head(old(faults))
              case Some(fault) => r == Failure(fault.error)
              case None => r == Success(|bytes|)
    {
      var fault := Head(faults);
      faults := Tail(faults);
      r := if fault.Some? then Failure(fault.value.error) else Success(|bytes|);
    }

    method ReadExactAt(offset: u64, output: array<byte>) returns (r: Result<(), IoError>)
      modifies this, output
      ensures faults == Tail(old(faults))
      ensures match SourceRead(bytes, Head(old(faults)), offset, output.Length)
              case Success(range) => r == Success(()) && output[..] == range
              case Failure(e) => r == Failure(e)
    {
      var fault := Head(faults);
      faults := Tail(faults);
      if fault.Some? {
        var partial := fault.value.partial;
        CopyInto(output, 0, partial[..Min(|partial|, output.Length)]);
        return Failure(fault.value.error);
      }
      if offset + output.Length > |bytes| {
        return Failure(UnexpectedEof);
      }
      CopyInto(output, 0, bytes[offset..offset + output.Length]);
      return Success(());
    }
  }

  // ----- SliceSource

  function SliceRead(bytes: Contents, offset: u64, length: nat): Result<seq<byte>, IoError> {
    var end :- CheckedAdd(offset, length).OkOr(InvalidInput);
    if end <= |bytes| then Success(bytes[offset..end]) else Failure(UnexpectedEof)
  }

  method SliceReadExactAt(bytes: Contents, offset: u64, output: array<byte>) returns (r: Result<(), IoError>)
    modifies output
    ensures match SliceRead(bytes, offset, output.Length)
            case Success(range) => r == Success(()) && output[..] == range
            case Failure(e) => r == Failure(e) && output[..] == old(output[..])
  {
    var range :- SliceRead(bytes, offset, output.Length);
    CopyInto(output, 0, range);
    return Success(());
  }

  // ----- FileSource where the system call may return short counts

  datatype ReadStep = Short(limit: nat) | Fail(error: IoError)

  function Available(size: nat, offset: nat): nat {
    SaturatingSub(size, offset)
  }

  function ShortCount(steps: seq<ReadStep>, available: nat, wanted: nat): nat {
    var whole := Min(available, wanted);
    if steps == [] || steps[0].Fail? then whole else Min(steps[0].limit, whole)
  }

  class FileSource {
    const bytes: Contents
    var steps: seq<ReadStep>

    constructor (bytes: Contents, steps: seq<ReadStep>)
      ensures this.bytes == bytes && this.steps == steps
    {
      this.bytes, this.steps := bytes, steps;
    }

    /** One system call: it fills some prefix of `output[from..]`. */
    method SeekRead(output: array<byte>, from: nat, offset: u64) returns (r: Result<nat, IoError>)
      requires from <= output.Length
      modifies this, output
      ensures steps == Tail(old(steps))
      ensures if old(steps) != [] && old(steps)[0].Fail?
              then r == Failure(old(steps)[0].error) && output[..] == old(output[..])
              else
                && r == Success(ShortCount(old(steps), Available(|bytes|, offset), output.Length - from))
                && (r.value > 0 ==> output[..] == Splice(old(output[..]), from, bytes[offset..offset + r.value]))
                && (r.value == 0 ==> output[..] == old(output[..]))
    {
      if steps != [] && steps[0].Fail? {
        r := Failure(steps[0].error);
      } else {
        var count := ShortCount(steps, Available(|bytes|, offset), output.Length - from);
        if count > 0 {
          var chunk := bytes[offset..offset + count];
          CopyInto(output, from, chunk);
        }
        r := Success(count);
      }
      steps := Tail(steps);
    }

    method ReadExactAt(offset: u64, output: array<byte>) returns (r: Result<(), IoError>)
      modifies this, output
      ensures r == FileRun(old(steps), Available(|bytes|, offset), output.Length)
      ensures r.Success? && output.Length > 0 ==>
                offset + output.Length <= |bytes| && output[..] == bytes[offset..offset + output.Length]
    {
      hide FileRun, ShortCount, Available, Splice, Holds;
      var bytesRead := 0;
      while bytesRead < output.Length
        invariant 0 <= bytesRead <= output.Length
        invariant bytesRead > 0 ==>
                    offset + bytesRead <= |bytes| && Holds(output[..], bytesRead, bytes, offset)
        invariant FileRun(steps, Available(|bytes|, offset + bytesRead), output.Length - bytesRead)
               == FileRun(old(steps), Available(|bytes|, offset), output.Length)
      {
        var currentOffset := CheckedAdd(offset, bytesRead);
        if currentOffset.None? {
          return Failure(InvalidInput);
        }
        FileStep(steps, |bytes|, offset + bytesRead, output.Length - bytesRead);
        ghost var soFar := output[..];
        var count :- SeekRead(output, bytesRead, currentOffset.value);
        if count == 0 {
          return Failure(UnexpectedEof);
        }
        ReadMore(soFar, bytesRead, bytes, offset, count);
        bytesRead := bytesRead + count;
      }
      FileDone(steps, |bytes|, offset + bytesRead);
      if bytesRead > 0 {
        AllHeld(output[..], bytes, offset);
      }
      return Success(());
    }
  }

  /** The outcome of filling `wanted` bytes when `available` remain in the file. */
  function FileRun(steps: seq<ReadStep>, available: nat, wanted: nat): Result<(), IoError>
    decreases wanted
  {
    if wanted == 0 then Success(())
    else if steps != [] && steps[0].Fail? then Failure(steps[0].error)
    else
      var count := ShortCount(steps, available, wanted);
      if count == 0 then Failure(UnexpectedEof) else FileRun(Tail(steps), available - count, wanted - count)
  }

  lemma FileDone(steps: seq<ReadStep>, size: nat, offset: nat)
    ensures FileRun(steps, Available(size, offset), 0) == Success(())
  {
  }

  /** One turn of the loop: the call fails, or its count is what the run goes on with. */
  lemma FileStep(steps: seq<ReadStep>, size: nat, offset: nat, wanted: nat)
    requires wanted > 0
    ensures var run := FileRun(steps, Available(size, offset), wanted);
            if steps != [] && steps[0].Fail? then run == Failure(steps[0].error) else
            var count := ShortCount(steps, Available(size, offset), wanted);
            && count <= wanted && (count > 0 ==> offset + count <= size)
            && run == if count == 0 then Failure(UnexpectedEof)
                      else FileRun(Tail(steps), Available(size, offset + count), wanted - count)
  {
  }

  lemma ReadMore(output: seq<byte>, done: nat, bytes: seq<byte>, offset: nat, count: nat)
    requires done > 0 ==> Holds(output, done, bytes, offset)
    requires done + count <= |output| && offset + done + count <= |bytes|
    ensures Holds(Splice(output, done, bytes[offset + done..offset + done + count]), done + count, bytes, offset)
  {
    NothingHeld(output, bytes, offset);
    PieceAppended(output, done, bytes, offset, bytes[offset + done..offset + done + count]);
  }

  predicate MakesProgress(steps: seq<ReadStep>) {
    forall i :: 0 <= i < |steps| ==> steps[i].Short? && steps[i].limit > 0
  }

  /** Every step before `k` makes progress and together they deliver fewer than `wanted` bytes. */
  predicate Unfinished(steps: seq<ReadStep>, k: nat, available: nat, wanted: nat)
    decreases k
  {
    && wanted > 0
    && (k > 0 ==>
          && |steps| >= k && steps[0].Short?
          && ShortCount(steps, available, wanted) > 0
          && Unfinished(Tail(steps), k - 1, available - ShortCount(steps, available, wanted),
                        wanted - ShortCount(steps, available, wanted)))
  }

  /** Step `k` comes before the range is complete, and it fails or reads nothing. */
  predicate StopsAt(steps: seq<ReadStep>, k: nat, available: nat, wanted: nat) {
    k < |steps| && Unfinished(steps, k, available, wanted) && (steps[k].Fail? || steps[k].limit == 0)
  }

  predicate NeverStops(steps: seq<ReadStep>, available: nat, wanted: nat) {
    forall k :: 0 <= k < |steps| ==> !StopsAt(steps, k, available, wanted)
  }

  /** A zero count, or a failing call, that comes before the range is complete decides the result. */
  lemma {:induction false} FirstStopDecides(steps: seq<ReadStep>, k: nat, available: nat, wanted: nat)
    requires StopsAt(steps, k, available, wanted)
    ensures FileRun(steps, available, wanted) == Failure(if steps[k].Fail? then steps[k].error else UnexpectedEof)
    decreases k
  {
    if k > 0 {
      var count := ShortCount(steps, available, wanted);
      FirstStopDecides(Tail(steps), k - 1, available - count, wanted - count);
    }
  }

  /** If nothing stops it, however the system cuts the reads, the loop succeeds exactly when the bytes are there. */
  lemma {:induction false} NoStopDecides(steps: seq<ReadStep>, available: nat, wanted: nat)
    requires NeverStops(steps, available, wanted)
    ensures FileRun(steps, available, wanted) == if wanted <= available then Success(()) else Failure(UnexpectedEof)
    decreases wanted
  {
    if wanted > 0 {
      assert steps != [] ==> !StopsAt(steps, 0, available, wanted);
      var count := ShortCount(steps, available, wanted);
      if count > 0 {
        LaterStop(steps, available, wanted);
        NoStopDecides(Tail(steps), available - count, wanted - count);
      }
    }
  }

  lemma LaterStop(steps: seq<ReadStep>, available: nat, wanted: nat)
    requires wanted > 0 && (steps != [] ==> steps[0].Short?) && ShortCount(steps, available, wanted) > 0
    requires NeverStops(steps, available, wanted)
    ensures var count := ShortCount(steps, available, wanted);
            count <= available && count <= wanted && NeverStops(Tail(steps), available - count, wanted - count)
  {
    var (tail, count) := (Tail(steps), ShortCount(steps, available, wanted));
    var (available', wanted') := (available - count, wanted - count);
    forall k | 0 <= k < |tail| ensures !StopsAt(tail, k, available', wanted') {
      assert !StopsAt(steps, k + 1, available, wanted);
    }
  }

  /** A read succeeds exactly when the bytes are there and no step fails or reads nothing before it is complete. */
  lemma FileSucceedsExactly(steps: seq<ReadStep>, available: nat, wanted: nat)
    ensures FileRun(steps, available, wanted).Success? <==> wanted <= available && NeverStops(steps, available, wanted)
  {
    hide FileRun, StopsAt;
    if NeverStops(steps, available, wanted) {
      NoStopDecides(steps, available, wanted);
    } else {
      var k: nat :| k < |steps| && StopsAt(steps, k, available, wanted);
      FirstStopDecides(steps, k, available, wanted);
    }
  }

  /** With positive counts, however the system cuts the reads, the loop succeeds exactly when the bytes are there. */
  lemma ProgressDecides(steps: seq<ReadStep>, available: nat, wanted: nat)
    requires MakesProgress(steps)
    ensures FileRun(steps, available, wanted) == if wanted <= available then Success(()) else Failure(UnexpectedEof)
  {
    hide FileRun, Unfinished;
    NoStopDecides(steps, available, wanted);
  }

  // ----- the implementations and the contract

  lemma AvailableExactly(size: nat, offset: nat, length: nat)
    ensures length <= Available(size, offset) <==> length == 0 || offset + length <= size
  {
  }

  /** The slice source meets the contract; an overflowing range is a fault of its own. */
  lemma SliceMeetsContract(bytes: Contents, offset: u64, length: nat)
    ensures var fault := if offset + length > U64_MAX then Some(Fault(InvalidInput, [])) else None;
            SliceRead(bytes, offset, length) == SourceRead(bytes, fault, offset, length)
  {
  }

  /** The contract's outcome without the bytes. */
  function Completed(r: Result<seq<byte>, IoError>): Result<(), IoError> {
    if r.Success? then Success(()) else Failure(r.error)
  }

  /**
   * The file source meets the contract under some fault, and under none if nothing stops it, except that an empty read
   * beyond its end succeeds, which the contract never allows.
   */
  lemma FileMeetsContract(steps: seq<ReadStep>, bytes: Contents, offset: u64, length: nat)
    ensures var run := FileRun(steps, Available(|bytes|, offset), length);
            && ((exists fault :: run == Completed(SourceRead(bytes, fault, offset, length))) <==>
                length > 0 || offset <= |bytes|)
            && (NeverStops(steps, Available(|bytes|, offset), length) && (length > 0 || offset <= |bytes|) ==>
                  run == Completed(SourceRead(bytes, None, offset, length)))
  {
    hide FileRun, NeverStops, Available;
    var run := FileRun(steps, Available(|bytes|, offset), length);
    FileSucceedsExactly(steps, Available(|bytes|, offset), length);
    if NeverStops(steps, Available(|bytes|, offset), length) {
      NoStopDecides(steps, Available(|bytes|, offset), length);
    }
    if length == 0 {
      FileDone(steps, |bytes|, offset);
    }
    if length > 0 || offset <= |bytes| {
      AvailableExactly(|bytes|, offset, length);
      var fault := if run.Success? then None else Some(Fault(run.error, []));
      assert run == Completed(SourceRead(bytes, fault, offset, length));
    }
  }

  /** File and slice sources agree unless a step stops an in-bounds read, or an empty read lies beyond the end. */
  lemma FileAgreesWithSlice(steps: seq<ReadStep>, bytes: Contents, offset: u64, length: nat)
    ensures var (run, slice) := (FileRun(steps, Available(|bytes|, offset), length), SliceRead(bytes, offset, length));
            var goesOn := NeverStops(steps, Available(|bytes|, offset), length);
            && (run.Success? == slice.Success? <==>
                if length == 0 then offset <= |bytes| else offset + length <= |bytes| ==> goesOn)
            && (goesOn && length > 0 && offset + length <= U64_MAX && slice.Failure? ==> run == Failure(slice.error))
  {
    hide FileRun, NeverStops, Available;
    AvailableExactly(|bytes|, offset, length);
    FileSucceedsExactly(steps, Available(|bytes|, offset), length);
    if length == 0 {
      FileDone(steps, |bytes|, offset);
    }
    if NeverStops(steps, Available(|bytes|, offset), length) {
      NoStopDecides(steps, Available(|bytes|, offset), length);
    }
  }
}
