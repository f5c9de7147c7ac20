/** Plaintext export: pages written in order to a new file, which is removed again when anything fails. */
module Export {
  import opened Outcomes
  import opened Bytes
  import opened Config
  import opened Sources
  import opened Databases
  import opened Reader
  import opened Disks
  import opened Visits

  datatype PageError = Read(reason: ReaderError) | Visit(failure: VisitError)

  datatype ExportError =
    | Create(error: IoError)
    | Page(pageError: PageError)
    | Write(writeError: IoError)
    | Sync(syncError: IoError)
    | CleanupFailed(cause: ExportError, cleanup: IoError)

  /** What each page of the export yields before it is written. */
  type PageStream = seq<Result<seq<byte>, PageError>>

  // ----- writing the pages

  datatype Delivery = Delivery(result: Result<(), ExportError>, disk: Disk)

  /** The file after the first `k` pages; the first failure ends the writing. */
  function DeliverTo(stream: PageStream, disk: Disk, path: string, k: nat): (r: Delivery)
    requires k <= |stream| && path in disk.files
    ensures path in r.disk.files
  {
    if k == 0 then Delivery(Success(()), disk) else
    var before := DeliverTo(stream, disk, path, k - 1);
    if before.result.Failure? then before else DeliverPage(stream[k - 1], before.disk, path)
  }

  function DeliverPage(page: Result<seq<byte>, PageError>, disk: Disk, path: string): (r: Delivery)
    requires path in disk.files
    ensures path in r.disk.files
  {
    match page
    case Failure(e) => Delivery(Failure(Page(e)), disk)
    case Success(bytes) =>
      var step := disk.WriteAll(path, bytes);
      Delivery(if step.result.Failure? then Failure(Write(step.result.error)) else Success(()), step.disk)
  }

  lemma {:induction false} FailureEndsDelivery(stream: PageStream, disk: Disk, path: string, k: nat, last: nat)
    requires k <= last <= |stream| && path in disk.files
    requires DeliverTo(stream, disk, path, k).result.Failure?
    ensures DeliverTo(stream, disk, path, last) == DeliverTo(stream, disk, path, k)
    decreases last
  {
    hide DeliverPage;
    if k < last {
      FailureEndsDelivery(stream, disk, path, k, last - 1);
    }
  }

  // ----- the whole export

  function Cleanup(disk: Disk, path: string, cause: ExportError): Delivery {
    var removal := disk.RemoveFile(path);
    if removal.result.Success? || removal.result.error == NotFound then Delivery(Failure(cause), removal.disk)
    else Delivery(Failure(CleanupFailed(cause, removal.result.error)), removal.disk)
  }

  function ExportRun(stream: PageStream, disk: Disk, path: string): Delivery {
    var created := disk.CreateNew(path);
    if created.result.Failure? then Delivery(Failure(Create(created.result.error)), created.disk) else
    var written := DeliverTo(stream, created.disk, path, |stream|);
    if written.result.Failure? then Cleanup(written.disk, path, written.result.error) else
    var synced := written.disk.SyncAll();
    if synced.result.Failure? then Cleanup(synced.disk, path, Sync(synced.result.error))
    else Delivery(Success(()), synced.disk)
  }

  function ReaderStream(db: Database, faults: Faults): (stream: PageStream)
    requires db.Valid()
    ensures |stream| == db.pageCount
  {
    seq(db.pageCount, i requires 0 <= i < db.pageCount => ReaderPage(db, faults, i + 1))
  }

  function ReaderPage(db: Database, faults: Faults, n: nat): Result<seq<byte>, PageError>
    requires db.Valid() && db.HasPage(n)
  {
    match ReadPage(db, n, FaultAt(faults, n - 1))
    case Success(page) => Success(page)
    case Failure(e) => Failure(Read(e))
  }

  function SnapshotStream(engine: Engine, config: CipherConfig): (stream: PageStream)
    ensures |stream| == |engine|
  {
    seq(|engine|, i requires 0 <= i < |engine| => SnapshotPage(engine, config, i))
  }

  function SnapshotPage(engine: Engine, config: CipherConfig, i: nat): Result<seq<byte>, PageError>
    requires i < |engine|
  {
    LayoutFits(config);
    match EnginePage(engine, config, i)
    case Success(page) => Success(StandalonePage(i + 1, page))
    case Failure(e) => Failure(Visit(e))
  }

  /** The closures that the two export commands hand to the file writer. */
  datatype PageWriter = FromReader(reader: SqlCipherReader) | FromSnapshot(snapshot: WalSnapshot) {
    ghost predicate Valid() {
      FromReader? ==> reader.Valid()
    }

    ghost function Target(): object {
      match this
      case FromReader(reader) => reader.source
      case FromSnapshot(snapshot) => snapshot
    }

    ghost function Stream(): PageStream
      requires Valid()
      reads Target()
    {
      match this
      case FromReader(reader) => ReaderStream(reader.View(), reader.source.faults)
      case FromSnapshot(snapshot) => SnapshotStream(snapshot.engine, snapshot.config)
    }

    method WritePages(fs: FileSystem, path: string) returns (r: Result<(), ExportError>)
      requires Valid() && path in fs.disk.files
      modifies fs, Target()
      ensures Delivery(r, fs.disk) == DeliverTo(old(Stream()), old(fs.disk), path, |old(Stream())|)
    {
      match this
      case FromReader(reader) => r := WriteReaderPages(reader, fs, path);
      case FromSnapshot(snapshot) => r := WriteSnapshotPages(snapshot, fs, path);
    }
  }

  method WriteReaderPages(reader: SqlCipherReader, fs: FileSystem, path: string) returns (r: Result<(), ExportError>)
    requires reader.Valid() && path in fs.disk.files
    modifies fs, reader.source
    ensures Delivery(r, fs.disk)
            == DeliverTo(ReaderStream(reader.View(), old(reader.source.faults)), old(fs.disk), path, reader.pageCount)
  {
    hide DeliverTo, DeliverPage, ReadPage, ReaderStream, Drop, FaultAt, Disk.WriteAll, Database.Valid;
    ghost var (faults, disk) := (reader.source.faults, fs.disk);
    ghost var stream := ReaderStream(reader.View(), faults);
    var plaintextPage := new byte[reader.PageSize()];
    NothingDelivered(stream, disk, path);
    NothingDropped(faults);
    var done := 0;
    while done < reader.pageCount
      invariant 0 <= done <= reader.pageCount && path in fs.disk.files
      invariant reader.source.faults == Drop(faults, done)
      invariant Delivery(Success(()), fs.disk) == DeliverTo(stream, disk, path, done)
    {
      DropStep(faults, done);
      ReaderPageAt(reader.View(), faults, done);
      var read := reader.ReadPageInto(done + 1, plaintextPage);
      DeliverStep(stream, disk, path, done);
      if read.Failure? {
        return Failure(Page(Read(read.error)));
      }
      var written := fs.WriteAll(path, plaintextPage[..]);
      if written.Failure? {
        return Failure(Write(written.error));
      }
      done := done + 1;
    }
    return Success(());
  }

  lemma NothingDelivered(stream: PageStream, disk: Disk, path: string)
    requires path in disk.files
    ensures DeliverTo(stream, disk, path, 0) == Delivery(Success(()), disk)
  {
  }

  lemma NothingDropped<T>(steps: seq<T>)
    ensures Drop(steps, 0) == steps
  {
  }

  lemma ReaderPageAt(db: Database, faults: Faults, k: nat)
    requires db.Valid() && k < db.pageCount
    ensures db.HasPage(k + 1) && ReaderStream(db, faults)[k] == ReaderPage(db, faults, k + 1)
  {
    hide ReaderPage, Database.Valid;
  }

  /** One turn of the writing loop, with what a failure means for the whole run. */
  lemma DeliverStep(stream: PageStream, disk: Disk, path: string, k: nat)
    requires k < |stream| && path in disk.files && DeliverTo(stream, disk, path, k).result.Success?
    ensures var before := DeliverTo(stream, disk, path, k).disk;
            var after := DeliverTo(stream, disk, path, k + 1);
            && after == (match stream[k]
                         case Failure(e) => Delivery(Failure(Page(e)), before)
                         case Success(bytes) =>
                           var step := before.WriteAll(path, bytes);
                           Delivery(if step.result.Failure? then Failure(Write(step.result.error)) else Success(()),
                                    step.disk))
            && (after.result.Failure? ==> DeliverTo(stream, disk, path, |stream|) == after)
  {
    if DeliverTo(stream, disk, path, k + 1).result.Failure? {
      FailureEndsDelivery(stream, disk, path, k + 1, |stream|);
    }
  }

  method WriteSnapshotPages(snapshot: WalSnapshot, fs: FileSystem, path: string) returns (r: Result<(), ExportError>)
    requires path in fs.disk.files
    modifies fs, snapshot
    ensures Delivery(r, fs.disk)
            == DeliverTo(SnapshotStream(snapshot.engine, snapshot.config), old(fs.disk), path, |snapshot.engine|)
    ensures !snapshot.transactionOpen
  {
    hide VisitTo, DeliverTo;
    VisitIsDelivery(snapshot.engine, snapshot.config, fs.disk, path, |snapshot.engine|);
    var visited := snapshot.VisitPages(ExportTo(fs, path));
    r := if visited.Success? then Success(()) else Failure(AsExportError(visited.error));
  }

  /** A failing callback of the export is a failed write. */
  function AsExportError(e: VisitError): ExportError {
    if e.Callback? then Write(e.error) else Page(Visit(e))
  }

  /** The outcome of a visit, told as that of a delivery. */
  predicate Corresponds(visit: VisitOutcome, delivery: Delivery, path: string) {
    && visit.state == Exporting(delivery.disk, path)
    && delivery.result == if visit.result.Success? then Success(()) else Failure(AsExportError(visit.result.error))
  }

  lemma PageVisitIsDelivery(engine: Engine, config: CipherConfig, disk: Disk, path: string, i: nat)
    requires i < |engine| && path in disk.files
    ensures Corresponds(VisitPage(engine, config, Exporting(disk, path), i),
                        DeliverPage(SnapshotStream(engine, config)[i], disk, path), path)
  {
    hide EnginePage, StandalonePage, AcceptsPageSize, Disk.WriteAll;
  }

  lemma {:induction false} VisitIsDelivery(engine: Engine, config: CipherConfig, disk: Disk, path: string, k: nat)
    requires k <= |engine| && path in disk.files
    ensures Corresponds(VisitTo(engine, config, Exporting(disk, path), k),
                        DeliverTo(SnapshotStream(engine, config), disk, path, k), path)
  {
    hide VisitPage, DeliverPage, SnapshotStream, AcceptsPageSize;
    if k > 0 {
      VisitIsDelivery(engine, config, disk, path, k - 1);
      var before := DeliverTo(SnapshotStream(engine, config), disk, path, k - 1).disk;
      PageVisitIsDelivery(engine, config, before, path, k - 1);
    }
  }

  method WritePlaintextFile(fs: FileSystem, path: string, writer: PageWriter) returns (r: Result<(), ExportError>)
    requires writer.Valid()
    modifies fs, writer.Target()
    ensures Delivery(r, fs.disk) == ExportRun(old(writer.Stream()), old(fs.disk), path)
  {
    hide DeliverTo;
    var created := fs.CreateNew(path);
    if created.Failure? {
      return Failure(Create(created.error));
    }
    r := writer.WritePages(fs, path);
    if r.Success? {
      var synced := fs.SyncAll();
      if synced.Success? {
        return Success(());
      }
      r := Failure(Sync(synced.error));
    }
    var error := CleanupFailedExport(fs, path, r.error);
    return Failure(error);
  }

  method CleanupFailedExport(fs: FileSystem, path: string, exportError: ExportError) returns (error: ExportError)
    modifies fs
    ensures Delivery(Failure(error), fs.disk) == Cleanup(old(fs.disk), path, exportError)
    ensures || (error == exportError && fs.disk.files == old(fs.disk.files) - {path})
            || (error.CleanupFailed? && error.cause == exportError && error.cleanup != NotFound
                && fs.disk.files == old(fs.disk.files))
  {
    assert path !in fs.disk.files ==> fs.disk.files - {path} == fs.disk.files;
    var removed := fs.RemoveFile(path);
    if removed.Success? || removed.error == NotFound {
      return exportError;
    }
    return CleanupFailed(exportError, removed.error);
  }
}
