/** A file system as a map from paths to contents, whose operations may fail. */
module Disks {
  import opened Outcomes
  import opened Bytes
  import opened Sources

  /** A failing operation; a failing write first stores some of its bytes. */
  datatype DiskFault = DiskFault(error: IoError, written: nat)

  datatype Step = Step(result: Result<(), IoError>, disk: Disk)

  datatype Disk = Disk(files: map<string, seq<byte>>, faults: seq<Option<DiskFault>>) {
    function After(result: Result<(), IoError>, files': map<string, seq<byte>>): Step {
      Step(result, Disk(files', Tail(faults)))
    }

    /** Creates an empty file, and refuses a path that exists. */
    function CreateNew(path: string): Step {
      if Head(faults).Some? then After(Failure(Head(faults).value.error), files)
      else if path in files then After(Failure(AlreadyExists), files)
      else After(Success(()), files[path := []])
    }

    function WriteAll(path: string, data: seq<byte>): Step
      requires path in files
    {
      if Head(faults).Some? then
        After(Failure(Head(faults).value.error),
              files[path := files[path] + data[..Min(Head(faults).value.written, |data|)]])
      else
        After(Success(()), files[path := files[path] + data])
    }

    function SyncAll(): Step {
      After(if Head(faults).Some? then Failure(Head(faults).value.error) else Success(()), files)
    }

    /** A removal that fails because the path is gone leaves it gone. */
    function RemoveFile(path: string): Step {
      if Head(faults).Some? then
        var error := Head(faults).value.error;
        After(Failure(error), if error == NotFound then files - {path} else files)
      else if path in files then After(Success(()), files - {path})
      else After(Failure(NotFound), files)
    }
  }

  class FileSystem {
    var disk: Disk

    constructor (disk: Disk)
      ensures this.disk == disk
    {
      this.disk := disk;
    }

    method CreateNew(path: string) returns (r: Result<(), IoError>)
      modifies this
      ensures Step(r, disk) == old(disk).CreateNew(path)
      ensures path in old(disk.files) ==> r.Failure?
      ensures r.Failure? ==> disk.files == old(disk.files)
      ensures r.Success? ==> disk.files == old(disk.files)[path := []]
    {
      var step := disk.CreateNew(path);
      r, disk := step.result, step.disk;
    }

    method WriteAll(path: string, data: seq<byte>) returns (r: Result<(), IoError>)
      requires path in disk.files
      modifies this
      ensures Step(r, disk) == old(disk).WriteAll(path, data)
    {
      var step := disk.WriteAll(path, data);
      r, disk := step.result, step.disk;
    }

    method SyncAll() returns (r: Result<(), IoError>)
      modifies this
      ensures Step(r, disk) == old(disk).SyncAll()
    {
      var step := disk.SyncAll();
      r, disk := step.result, step.disk;
    }

    method RemoveFile(path: string) returns (r: Result<(), IoError>)
      modifies this
      ensures Step(r, disk) == old(disk).RemoveFile(path)
    {
      var step := disk.RemoveFile(path);
      r, disk := step.result, step.disk;
    }
  }
}
