/** What any run of an export leaves on disk. */
module ExportRuns {
  import opened Outcomes
  import opened Bytes
  import opened Config
  import opened Sources
  import opened Pages
  import opened Databases
  import opened RangeReads
  import opened Disks
  import opened Visits
  import opened Export

  predicate Good(stream: PageStream, k: nat)
    requires k <= |stream|
  {
    forall i :: 0 <= i < k ==> stream[i].Success?
  }

  function Values(stream: PageStream, k: nat): (pages: seq<seq<byte>>)
    requires k <= |stream| && Good(stream, k)
    ensures |pages| == k
  {
    seq(k, i requires 0 <= i < k => stream[i].value)
  }

  /** `m` whole pages and then `tail` were written before the run ended with `result`. */
  predicate Written(stream: PageStream, k: nat, m: nat, tail: seq<byte>, result: Result<(), ExportError>)
    requires k <= |stream|
  {
    && m <= k && Good(stream, m)
    && match result
       case Success(_) => m == k && tail == []
       case Failure(e) =>
         && m < k
         && if stream[m].Failure? then e == Page(stream[m].error) && tail == []
            else e.Write? && tail <= stream[m].value
  }

  /** Writing puts pages 1, 2, 3, ... into the file until the first page that fails, and touches no other file. */
  lemma {:induction false} DeliveredPages(stream: PageStream, disk: Disk, path: string, k: nat)
    returns (m: nat, tail: seq<byte>)
    requires k <= |stream| && path in disk.files
    ensures var r := DeliverTo(stream, disk, path, k);
            && Written(stream, k, m, tail, r.result)
            && r.disk.files == disk.files[path := disk.files[path] + (Join(Values(stream, m)) + tail)]
  {
    if k == 0 {
      m, tail := 0, [];
      assert disk.files[path] + (Join(Values(stream, 0)) + []) == disk.files[path];
    } else {
      m, tail := DeliveredPages(stream, disk, path, k - 1);
      var before := DeliverTo(stream, disk, path, k - 1);
      if before.result.Success? {
        if stream[k - 1].Success? {
          assert m == k - 1 && tail == [];
          m, tail := OnePageMore(stream, k - 1, before.disk, path, disk);
        }
      }
    }
  }

  lemma OnePageMore(stream: PageStream, i: nat, before: Disk, path: string, disk: Disk)
    returns (m: nat, tail: seq<byte>)
    requires i < |stream| && Good(stream, i) && stream[i].Success? && path in before.files && path in disk.files
    requires before.files == disk.files[path := disk.files[path] + (Join(Values(stream, i)) + [])]
    ensures var r := DeliverPage(stream[i], before, path);
            && Written(stream, i + 1, m, tail, r.result)
            && r.disk.files == disk.files[path := disk.files[path] + (Join(Values(stream, m)) + tail)]
  {
    hide Join;
    var bytes := stream[i].value;
    var (start, joined) := (disk.files[path], Join(Values(stream, i)));
    assert before.files[path] == start + (joined + []);
    if Head(before.faults).Some? {
      m, tail := i, bytes[..Min(Head(before.faults).value.written, |bytes|)];
      assert (start + (joined + [])) + tail == start + (joined + tail);
    } else {
      m, tail := i + 1, [];
      assert Values(stream, i + 1) == Values(stream, i) + [bytes];
      JoinExtends(Values(stream, i), bytes);
      assert (start + (joined + [])) + bytes == start + ((joined + bytes) + []);
    }
  }

  /**
   * However its operations fail, an export never changes an existing file; success means that the destination is new
   * and holds every page in order; failure leaves no destination behind, unless removing it failed, and then the error
   * says so.
   */
  lemma ExportOutcome(stream: PageStream, disk: Disk, path: string) returns (m: nat, tail: seq<byte>)
    ensures var r := ExportRun(stream, disk, path);
            && (path in disk.files ==> r.result.Failure? && r.result.error.Create? && r.disk.files == disk.files)
            && (r.result.Success? ==>
                  && path !in disk.files && Good(stream, |stream|)
                  && r.disk.files == disk.files[path := Join(Values(stream, |stream|))])
            && (r.result.Failure? && !r.result.error.CleanupFailed? ==> r.disk.files == disk.files)
            && (r.result.Failure? && r.result.error.CleanupFailed? ==>
                  && path !in disk.files
                  && Written(stream, |stream|, m, tail,
                             if r.result.error.cause.Sync? then Success(()) else Failure(r.result.error.cause))
                  && r.disk.files == disk.files[path := Join(Values(stream, m)) + tail])
  {
    hide DeliverTo, Join;
    var created := disk.CreateNew(path);
    if created.result.Success? {
      m, tail := DeliveredPages(stream, created.disk, path, |stream|);
      var content := Join(Values(stream, m)) + tail;
      assert [] + content == content && Join(Values(stream, m)) + [] == Join(Values(stream, m));
      var written := DeliverTo(stream, created.disk, path, |stream|);
      assert written.disk.files == disk.files[path := content];
      assert disk.files[path := content] - {path} == disk.files;
    } else {
      m, tail := 0, [];
    }
  }

  // ----- export of a main file

  lemma ReaderValues(db: Database, faults: Faults)
    requires db.Valid() && Good(ReaderStream(db, faults), db.pageCount)
    ensures AllDecrypt(db, 1, db.pageCount)
    ensures Join(Values(ReaderStream(db, faults), db.pageCount)) == db.Image()
  {
    hide Database.Page, Join;
    var stream := ReaderStream(db, faults);
    forall n {:trigger db.HasPage(n)} | 1 <= n <= db.pageCount && db.HasPage(n)
      ensures db.Page(n).Success? && stream[n - 1] == Success(db.PlainPage(n))
    {
      assert stream[n - 1] == ReaderPage(db, faults, n);
    }
    assert forall i :: 0 <= i < db.pageCount ==>
                         db.HasPage(i + 1) && Values(stream, db.pageCount)[i] == db.PlainPages()[i];
    assert Values(stream, db.pageCount) == db.PlainPages();
  }

  /** A successful export of a main file holds the whole image, and every page of it was authenticated. */
  lemma ReaderExport(db: Database, faults: Faults, disk: Disk, path: string)
    requires db.Valid() && ExportRun(ReaderStream(db, faults), disk, path).result.Success?
    ensures path !in disk.files && AllDecrypt(db, 1, db.pageCount)
    ensures ExportRun(ReaderStream(db, faults), disk, path).disk.files == disk.files[path := db.Image()]
  {
    hide ExportRun, Database.Image, Database.Page;
    var m, tail := ExportOutcome(ReaderStream(db, faults), disk, path);
    ReaderValues(db, faults);
  }

  lemma {:induction false} FaultFreeDelivery(stream: PageStream, disk: Disk, path: string, k: nat)
    requires k <= |stream| && path in disk.files && FaultFree(disk.faults)
    ensures var r := DeliverTo(stream, disk, path, k);
            && FaultFree(r.disk.faults) && (r.result.Success? <==> Good(stream, k))
  {
    if k > 0 {
      FaultFreeDelivery(stream, disk, path, k - 1);
    }
  }

  lemma FirstBadPage(stream: PageStream, disk: Disk, path: string, bad: nat)
    requires bad < |stream| && path in disk.files && FaultFree(disk.faults) && Good(stream, bad) && stream[bad].Failure?
    ensures DeliverTo(stream, disk, path, |stream|).result == Failure(Page(stream[bad].error))
  {
    hide DeliverTo;
    FaultFreeDelivery(stream, disk, path, bad);
    DeliverStep(stream, disk, path, bad);
  }

  /** When only the data can fail, an export succeeds exactly for a new destination and pages that all decrypt. */
  lemma FaultFreeExport(db: Database, faults: Faults, disk: Disk, path: string)
    requires db.Valid() && FaultFree(faults) && FaultFree(disk.faults)
    ensures ExportRun(ReaderStream(db, faults), disk, path).result.Success? <==>
            path !in disk.files && AllDecrypt(db, 1, db.pageCount)
  {
    hide Database.Page, DeliverTo, ReaderStream;
    var stream := ReaderStream(db, faults);
    FaultFreeStream(db, faults);
    if path !in disk.files {
      var created := disk.CreateNew(path);
      FaultFreeDelivery(stream, created.disk, path, |stream|);
    }
  }

  lemma FaultFreeStream(db: Database, faults: Faults)
    requires db.Valid() && FaultFree(faults)
    ensures Good(ReaderStream(db, faults), db.pageCount) <==> AllDecrypt(db, 1, db.pageCount)
    ensures forall n {:trigger db.HasPage(n)} :: 1 <= n <= db.pageCount && db.HasPage(n) && db.Page(n).Failure? ==>
              ReaderStream(db, faults)[n - 1] == Failure(Read(Decrypt(db.Page(n).error)))
  {
    hide Database.Page;
    var stream := ReaderStream(db, faults);
    forall n {:trigger db.HasPage(n)} | 1 <= n <= db.pageCount && db.HasPage(n)
      ensures stream[n - 1].Success? == db.Page(n).Success?
      ensures db.Page(n).Failure? ==> stream[n - 1] == Failure(Read(Decrypt(db.Page(n).error)))
    {
      assert stream[n - 1] == ReaderPage(db, faults, n);
    }
    if AllDecrypt(db, 1, db.pageCount) {
      forall i | 0 <= i < db.pageCount ensures stream[i].Success? {
        assert db.HasPage(i + 1);
      }
    }
  }

  /** A failing export names the lowest-numbered page that does not decrypt and leaves the disk as it was. */
  lemma FaultFreeExportFailure(db: Database, faults: Faults, disk: Disk, path: string, bad: nat)
    requires db.Valid() && FaultFree(faults) && FaultFree(disk.faults) && path !in disk.files
    requires db.HasPage(bad) && db.Page(bad).Failure? && AllDecrypt(db, 1, bad - 1)
    ensures var r := ExportRun(ReaderStream(db, faults), disk, path);
            r.result == Failure(Page(Read(Decrypt(db.Page(bad).error)))) && r.disk.files == disk.files
  {
    hide Database.Page, DeliverTo, ReaderStream;
    var stream := ReaderStream(db, faults);
    FaultFreeStream(db, faults);
    GoodBefore(db, faults, bad);
    var created := disk.CreateNew(path);
    FaultFreeDelivery(stream, created.disk, path, |stream|);
    FirstBadPage(stream, created.disk, path, bad - 1);
    var m, tail := ExportOutcome(stream, disk, path);
  }

  lemma GoodBefore(db: Database, faults: Faults, bad: nat)
    requires db.Valid() && FaultFree(faults) && db.HasPage(bad) && AllDecrypt(db, 1, bad - 1)
    ensures Good(ReaderStream(db, faults), bad - 1)
  {
    hide Database.Page;
    forall i | 0 <= i < bad - 1 ensures ReaderStream(db, faults)[i].Success? {
      assert db.HasPage(i + 1) && ReaderStream(db, faults)[i] == ReaderPage(db, faults, i + 1);
    }
  }

  // ----- export of a snapshot

  /** Every page came back from the engine with the configured size. */
  predicate AllWhole(engine: Engine, config: CipherConfig, k: nat)
    requires k <= |engine|
  {
    forall i :: 0 <= i < k ==> Whole(engine[i], config)
  }

  /** The pages as the engine returned them. */
  function EnginePages(engine: Engine, config: CipherConfig): (pages: seq<seq<byte>>)
    requires AllWhole(engine, config, |engine|)
    ensures |pages| == |engine|
  {
    seq(|engine|, i requires 0 <= i < |engine| => engine[i].value)
  }

  lemma WholeIsGood(engine: Engine, config: CipherConfig, k: nat)
    requires k <= |engine|
    ensures Good(SnapshotStream(engine, config), k) <==> AllWhole(engine, config, k)
  {
    var stream := SnapshotStream(engine, config);
    forall i | 0 <= i < k ensures stream[i].Success? <==> Whole(engine[i], config) {
      assert stream[i] == SnapshotPage(engine, config, i);
    }
  }

  /** Page 1 with bytes 18 and 19 set to 1, every other page as it is. */
  lemma StreamedPage(engine: Engine, config: CipherConfig, i: nat)
    requires i < |engine| && Whole(engine[i], config)
    ensures var page := engine[i].value;
            && |page| >= 20
            && SnapshotStream(engine, config)[i] == Success(if i == 0 then page[18 := 1][19 := 1] else page)
  {
    hide AcceptsPageSize;
    LayoutFits(config);
  }

  lemma {:induction false} JoinWithHeader(pages: seq<seq<byte>>, header: seq<byte>)
    requires pages != [] && |pages[0]| >= 20 && header == pages[0][18 := 1][19 := 1]
    ensures |Join(pages)| >= 20 && Join(pages[0 := header]) == Join(pages)[18 := 1][19 := 1]
  {
    var last := |pages| - 1;
    if last > 0 {
      JoinWithHeader(pages[..last], header);
      assert pages[0 := header][..last] == pages[..last][0 := header];
      var front := Join(pages[..last]);
      assert (front + pages[last])[18 := 1][19 := 1] == front[18 := 1][19 := 1] + pages[last];
    } else {
      assert pages[..0] == [] && pages[0 := header][..0] == [];
      assert Join(pages) == [] + pages[0] == pages[0];
      assert Join(pages[0 := header]) == [] + header == header;
    }
  }

  /** A successful export of a snapshot holds the visited image with only bytes 18 and 19 of page 1 changed, to 1. */
  lemma SnapshotExport(engine: Engine, config: CipherConfig, disk: Disk, path: string)
    requires engine != [] && ExportRun(SnapshotStream(engine, config), disk, path).result.Success?
    ensures path !in disk.files && AllWhole(engine, config, |engine|)
    ensures var image := Join(EnginePages(engine, config));
            && |image| >= 20
            && ExportRun(SnapshotStream(engine, config), disk, path).disk.files
               == disk.files[path := image[18 := 1][19 := 1]]
  {
    hide ExportRun, SnapshotStream, Join;
    var stream := SnapshotStream(engine, config);
    var m, tail := ExportOutcome(stream, disk, path);
    WholeIsGood(engine, config, |engine|);
    var pages := EnginePages(engine, config);
    StreamedPage(engine, config, 0);
    var header := pages[0][18 := 1][19 := 1];
    forall i | 0 <= i < |engine| ensures Values(stream, |engine|)[i] == pages[0 := header][i] {
      assert Whole(engine[i], config);
      StreamedPage(engine, config, i);
    }
    assert Values(stream, |engine|) == pages[0 := header];
    JoinWithHeader(pages, header);
  }

  /** When only the engine can fail, an export succeeds exactly for a new destination and whole pages throughout. */
  lemma FaultFreeSnapshotExport(engine: Engine, config: CipherConfig, disk: Disk, path: string)
    requires FaultFree(disk.faults)
    ensures ExportRun(SnapshotStream(engine, config), disk, path).result.Success? <==>
            path !in disk.files && AllWhole(engine, config, |engine|)
  {
    hide DeliverTo, SnapshotStream;
    WholeIsGood(engine, config, |engine|);
    if path !in disk.files {
      FaultFreeDelivery(SnapshotStream(engine, config), disk.CreateNew(path).disk, path, |engine|);
    }
  }

  /** Otherwise it tells what was wrong with the first page that is not whole, and leaves the disk as it was. */
  lemma FaultFreeSnapshotFailure(engine: Engine, config: CipherConfig, disk: Disk, path: string, bad: nat)
    requires FaultFree(disk.faults) && path !in disk.files
    requires bad < |engine| && AllWhole(engine, config, bad) && !Whole(engine[bad], config)
    ensures var r := ExportRun(SnapshotStream(engine, config), disk, path);
            var error := if engine[bad].Failure? then EngineRead(engine[bad].error)
                         else PageLength(config.pageSize, |engine[bad].value|);
            r.result == Failure(Page(Visit(error))) && r.disk.files == disk.files
  {
    hide DeliverTo;
    var stream := SnapshotStream(engine, config);
    WholeIsGood(engine, config, bad);
    var created := disk.CreateNew(path);
    FaultFreeDelivery(stream, created.disk, path, |stream|);
    FirstBadPage(stream, created.disk, path, bad);
    var m, tail := ExportOutcome(stream, disk, path);
  }

  // ----- failing operations

  /** The pages are all written exactly when all are good and no write fails; then one operation per page is used up. */
  lemma {:induction false} QuietDelivery(stream: PageStream, disk: Disk, path: string, k: nat)
    requires k <= |stream| && path in disk.files
    ensures var r := DeliverTo(stream, disk, path, k);
            && (r.result.Success? <==> Good(stream, k) && Quiet(disk.faults, k))
            && (r.result.Success? ==> r.disk.faults == Drop(disk.faults, k))
  {
    if k == 0 {
      NothingDropped(disk.faults);
    } else {
      QuietDelivery(stream, disk, path, k - 1);
      DropStep(disk.faults, k - 1);
    }
  }

  /** An export succeeds exactly for a new destination, good pages, and no fault in creating, writing and syncing. */
  lemma ExportSucceedsExactly(stream: PageStream, disk: Disk, path: string)
    ensures ExportRun(stream, disk, path).result.Success? <==>
            path !in disk.files && Good(stream, |stream|) && Quiet(disk.faults, |stream| + 2)
  {
    hide DeliverTo, Good;
    var created := disk.CreateNew(path);
    QuietParts(disk.faults, |stream|);
    if created.result.Success? {
      QuietDelivery(stream, created.disk, path, |stream|);
    }
  }

  /** Creation, `k` writes and the sync use up `k + 2` operations. */
  lemma QuietParts(faults: seq<Option<DiskFault>>, k: nat)
    ensures Quiet(faults, k + 2) <==>
            Head(faults).None? && Quiet(Tail(faults), k) && Head(Drop(Tail(faults), k)).None?
    ensures Head(Drop(Tail(faults), k)) == FaultAt(faults, k + 1)
  {
    DropStep(Tail(faults), k);
    forall j | 0 <= j < k + 2
      ensures FaultAt(faults, j) == if j == 0 then Head(faults) else FaultAt(Tail(faults), j - 1)
    {
    }
    if Quiet(faults, k + 2) {
      assert FaultAt(faults, 0).None? && FaultAt(faults, k + 1).None?;
      assert forall j :: 0 <= j < k ==> FaultAt(Tail(faults), j) == FaultAt(faults, j + 1);
    }
  }

  /** The failure is `error`, or the removal failed as well and names it as its cause. */
  predicate FailsWith(r: Delivery, error: ExportError) {
    r.result.Failure? && (r.result.error == error || (r.result.error.CleanupFailed? && r.result.error.cause == error))
  }

  /** The first thing that goes wrong after `m` pages is what is reported: a page, its write, or at the end the sync. */
  lemma FirstProblemIsReported(stream: PageStream, disk: Disk, path: string, m: nat)
    requires path !in disk.files && m <= |stream| && Good(stream, m) && Quiet(disk.faults, m + 1)
    requires (m < |stream| && stream[m].Failure?) || FaultAt(disk.faults, m + 1).Some?
    ensures FailsWith(ExportRun(stream, disk, path),
                      if m < |stream| && stream[m].Failure? then Page(stream[m].error)
                      else if m < |stream| then Write(FaultAt(disk.faults, m + 1).value.error)
                      else Sync(FaultAt(disk.faults, m + 1).value.error))
  {
    hide DeliverTo, Good;
    var created := disk.CreateNew(path);
    QuietParts(disk.faults, m);
    QuietWithoutSync(disk.faults, m);
    QuietDelivery(stream, created.disk, path, m);
    if m < |stream| {
      DeliverStep(stream, created.disk, path, m);
    }
  }

  /** A creation that fails, or finds the path taken, is reported as such. */
  lemma FailingCreationIsReported(stream: PageStream, disk: Disk, path: string)
    requires Head(disk.faults).Some? || path in disk.files
    ensures ExportRun(stream, disk, path).result
         == Failure(Create(if Head(disk.faults).Some? then Head(disk.faults).value.error else AlreadyExists))
  {
  }

  lemma QuietWithoutSync(faults: seq<Option<DiskFault>>, k: nat)
    requires Quiet(faults, k + 1)
    ensures Head(faults).None? && Quiet(Tail(faults), k)
  {
    assert FaultAt(faults, 0) == Head(faults);
    assert forall j: nat :: FaultAt(Tail(faults), j) == FaultAt(faults, j + 1);
  }
}
