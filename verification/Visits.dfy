/** Ordered traversal of a snapshot's pages with a callback that may fail. */
module Visits {
  import opened Outcomes
  import opened Bytes
  import opened Config
  import opened Decryptor
  import opened Sources
  import opened Disks

  /** What the engine returns for the pages of the selected image, in order. */
  type Engine = pages: seq<Result<seq<byte>, nat>> | |pages| <= U32_MAX

  datatype VisitError = EngineRead(code: nat) | PageLength(expected: nat, actual: nat) | Callback(error: IoError)

  function EnginePage(engine: Engine, config: CipherConfig, i: nat): (r: Result<seq<byte>, VisitError>)
    requires i < |engine|
    ensures r.Success? ==> |r.value| == config.pageSize
    ensures r.Failure? ==> !r.error.Callback?
  {
    match engine[i]
    case Failure(code) => Failure(EngineRead(code))
    case Success(bytes) =>
      if |bytes| != config.pageSize then Failure(PageLength(config.pageSize, |bytes|)) else Success(bytes)
  }

  /** A merged standalone image must not ask for a WAL: read and write version become 1. */
  function StandalonePage(n: PageNumber, page: seq<byte>): (r: seq<byte>)
    requires |page| >= 20
    ensures |r| == |page|
  {
    if n == 1 then page[18 := 1][19 := 1] else page
  }

  // ----- the callbacks

  datatype CallbackState =
    | Recording(seen: seq<(PageNumber, seq<byte>)>, script: seq<Option<IoError>>)
    | Exporting(disk: Disk, path: string)
  {
    predicate Ready() {
      Exporting? ==> path in disk.files
    }
  }

  datatype CallOutcome = CallOutcome(result: Result<(), IoError>, state: CallbackState)

  /** A recorder notes the page and then succeeds or fails as scripted; an exporter writes the page to its file. */
  function CallStep(s: CallbackState, n: PageNumber, page: seq<byte>): (r: CallOutcome)
    requires s.Ready() && |page| >= 20
    ensures r.state.Ready()
  {
    match s
    case Recording(seen, script) =>
      CallOutcome(if Head(script).Some? then Failure(Head(script).value) else Success(()),
                  Recording(seen + [(n, page)], Tail(script)))
    case Exporting(disk, path) =>
      var step := disk.WriteAll(path, StandalonePage(n, page));
      CallOutcome(step.result, Exporting(step.disk, path))
  }

  class Recorder {
    var seen: seq<(PageNumber, seq<byte>)>
    var script: seq<Option<IoError>>
  }

  datatype PageCallback = Record(recorder: Recorder) | ExportTo(fs: FileSystem, path: string) {
    ghost function Target(): object {
      match this
      case Record(recorder) => recorder
      case ExportTo(fs, _) => fs
    }

    ghost function State(): CallbackState
      reads Target()
    {
      match this
      case Record(recorder) => Recording(recorder.seen, recorder.script)
      case ExportTo(fs, path) => Exporting(fs.disk, path)
    }

    method Call(n: PageNumber, page: seq<byte>) returns (r: Result<(), IoError>)
      requires State().Ready() && |page| >= 20
      modifies Target()
      ensures CallOutcome(r, State()) == CallStep(old(State()), n, page)
    {
      match this
      case Record(recorder) =>
        var next := Head(recorder.script);
        recorder.seen := recorder.seen + [(n, page)];
        recorder.script := Tail(recorder.script);
        r := if next.Some? then Failure(next.value) else Success(());
      case ExportTo(fs, path) =>
        if n == 1 {
          var header := page[18 := 1];
          header := header[19 := 1];
          r := fs.WriteAll(path, header);
        } else {
          r := fs.WriteAll(path, page);
        }
    }
  }

  // ----- the traversal

  datatype VisitOutcome = VisitOutcome(result: Result<(), VisitError>, state: CallbackState)

  /** The traversal after its first `k` pages; the first failure ends it. */
  function VisitTo(engine: Engine, config: CipherConfig, s: CallbackState, k: nat): (r: VisitOutcome)
    requires k <= |engine| && s.Ready()
    ensures r.state.Ready()
  {
    if k == 0 then VisitOutcome(Success(()), s) else
    var before := VisitTo(engine, config, s, k - 1);
    if before.result.Failure? then before else VisitPage(engine, config, before.state, k - 1)
  }

  function VisitPage(engine: Engine, config: CipherConfig, s: CallbackState, i: nat): (r: VisitOutcome)
    requires i < |engine| && s.Ready()
    ensures r.state.Ready()
  {
    LayoutFits(config);
    match EnginePage(engine, config, i)
    case Failure(e) => VisitOutcome(Failure(e), s)
    case Success(page) =>
      var call := CallStep(s, i + 1, page);
      VisitOutcome(if call.result.Failure? then Failure(Callback(call.result.error)) else Success(()), call.state)
  }

  lemma {:induction false} FailureEndsVisit(engine: Engine, config: CipherConfig, s: CallbackState, k: nat, last: nat)
    requires k <= last <= |engine| && s.Ready()
    requires VisitTo(engine, config, s, k).result.Failure?
    ensures VisitTo(engine, config, s, last) == VisitTo(engine, config, s, k)
    decreases last
  {
    hide VisitPage;
    if k < last {
      FailureEndsVisit(engine, config, s, k, last - 1);
    }
  }

  class WalSnapshot {
    const engine: Engine
    const config: CipherConfig
    var transactionOpen: bool

    constructor (engine: Engine, config: CipherConfig)
      ensures this.engine == engine && this.config == config && transactionOpen
    {
      this.engine, this.config, transactionOpen := engine, config, true;
    }

    /** Visits the pages in order and releases the read transaction whatever happens. */
    method VisitPages(callback: PageCallback) returns (r: Result<(), VisitError>)
      requires callback.State().Ready() && callback.Target() != this
      modifies this, callback.Target()
      ensures VisitOutcome(r, callback.State()) == VisitTo(engine, config, old(callback.State()), |engine|)
      ensures !transactionOpen
    {
      hide VisitPage, AcceptsPageSize;
      r := TraversePages(callback);
      transactionOpen := false;
    }

    method TraversePages(callback: PageCallback) returns (r: Result<(), VisitError>)
      requires callback.State().Ready() && callback.Target() != this
      modifies callback.Target()
      ensures VisitOutcome(r, callback.State()) == VisitTo(engine, config, old(callback.State()), |engine|)
    {
      hide AcceptsPageSize, CallStep;
      LayoutFits(config);
      var number := 0;
      while number < |engine|
        invariant 0 <= number <= |engine| && callback.State().Ready()
        invariant VisitOutcome(Success(()), callback.State()) == VisitTo(engine, config, old(callback.State()), number)
      {
        if engine[number].Failure? {
          r := Failure(EngineRead(engine[number].error));
          FailureEndsVisit(engine, config, old(callback.State()), number + 1, |engine|);
          return;
        }
        var bytes := engine[number].value;
        if |bytes| != config.pageSize {
          r := Failure(PageLength(config.pageSize, |bytes|));
          FailureEndsVisit(engine, config, old(callback.State()), number + 1, |engine|);
          return;
        }
        var called := callback.Call(number + 1, bytes);
        if called.Failure? {
          r := Failure(Callback(called.error));
          FailureEndsVisit(engine, config, old(callback.State()), number + 1, |engine|);
          return;
        }
        number := number + 1;
      }
      return Success(());
    }
  }

  // ----- what a recorder sees

  /** The engine returned a page of the configured size. */
  predicate Whole(page: Result<seq<byte>, nat>, config: CipherConfig) {
    page.Success? && |page.value| == config.pageSize
  }

  /** The trace lists pages 1, 2, 3, ... as the engine returned them. */
  predicate IsTrace(engine: Engine, config: CipherConfig, seen: seq<(PageNumber, seq<byte>)>) {
    && |seen| <= |engine|
    && forall i :: 0 <= i < |seen| ==> Whole(engine[i], config) && seen[i] == (i + 1, engine[i].value)
  }

  /** Why a page that was not delivered stopped the traversal. */
  predicate Stops(page: Result<seq<byte>, nat>, config: CipherConfig, error: VisitError) {
    match page
    case Failure(code) => error == EngineRead(code)
    case Success(bytes) => |bytes| != config.pageSize && error == PageLength(config.pageSize, |bytes|)
  }

  /** After `k` pages: a prefix of the pages was seen, and the result says why it is no longer. */
  predicate TraceExplains(engine: Engine, config: CipherConfig, script: seq<Option<IoError>>, k: nat,
                          outcome: VisitOutcome)
    requires k <= |engine|
  {
    && outcome.state.Recording? && IsTrace(engine, config, outcome.state.seen)
    && var m := |outcome.state.seen|;
       if outcome.result.Success? then
         m == k && Quiet(script, k) && outcome.state.script == Drop(script, k)
       else if outcome.result.error.Callback? then
         1 <= m <= k && Quiet(script, m - 1) && FaultAt(script, m - 1) == Some(outcome.result.error.error)
       else
         m < k && Quiet(script, m) && Stops(engine[m], config, outcome.result.error)
  }

  /** Whatever the callback does, it sees a prefix of the pages in order, and never the page that failed. */
  lemma {:induction false} VisitTrace(engine: Engine, config: CipherConfig, script: seq<Option<IoError>>, k: nat)
    requires k <= |engine|
    ensures TraceExplains(engine, config, script, k, VisitTo(engine, config, Recording([], script), k))
  {
    hide EnginePage, VisitPage;
    if k == 0 {
      assert Drop(script, 0) == script;
    } else {
      VisitTrace(engine, config, script, k - 1);
      var before := VisitTo(engine, config, Recording([], script), k - 1);
      if before.result.Success? {
        TraceStep(engine, config, script, k - 1, before.state);
      }
    }
  }

  lemma TraceStep(engine: Engine, config: CipherConfig, script: seq<Option<IoError>>, i: nat, s: CallbackState)
    requires i < |engine| && TraceExplains(engine, config, script, i, VisitOutcome(Success(()), s))
    ensures TraceExplains(engine, config, script, i + 1, VisitPage(engine, config, s, i))
  {
    DropStep(script, i);
  }

  /** Verifying a snapshot, with a callback that does nothing, succeeds exactly when every page has the right size. */
  lemma SnapshotVerifies(engine: Engine, config: CipherConfig)
    ensures VisitTo(engine, config, Recording([], []), |engine|).result.Success? <==>
            forall i :: 0 <= i < |engine| ==> Whole(engine[i], config)
  {
    hide VisitTo;
    VisitTrace(engine, config, [], |engine|);
  }
}
