/** `zipLog` (the same code in `InLogger` and in `Logger`): pack every
    `.log` file of the log directory into `log.zip`, each entry named after
    its file. */
module Archive {
  import opened Text
  import opened Sweep

  /** A directory entry and what reading it yields; `None` when it cannot
      be opened for reading. */
  datatype DirFile = DirFile(name: string, contents: Option<string>)

  /** One entry of the archive. */
  datatype ZipEntry = ZipEntry(name: string, data: string)

  /** `addLogFileToZip` for each `.log` entry of the listing, in listing
      order; a file that cannot be opened adds no entry, and the failure is
      swallowed. */
  function Entries(files: seq<DirFile>): (r: seq<ZipEntry>)
    ensures |r| <= |files|
  {
    if |files| == 0 then []
    else
      var f := files[0];
      (if IsLogName(f.name) && f.contents.Some? then [ZipEntry(f.name, f.contents.value)] else []) +
      Entries(files[1..])
  }

  /** `zipLog()`: `None` (the `null` path) when the archive itself cannot be
      created or closed (`archiveOk` false); otherwise the entries written.
      A missing directory, or one that cannot be listed (`directory` is
      `None`), gives an empty archive. */
  function ZipLog(archiveOk: bool, directory: Option<seq<DirFile>>): (r: Option<seq<ZipEntry>>)
    ensures r.None? <==> !archiveOk
    ensures archiveOk && directory.None? ==> r == Some([])
    ensures r.Some? && directory.Some? ==>
              forall e :: e in r.value <==> DirFile(e.name, Some(e.data)) in directory.value && IsLogName(e.name)
  {
    if !archiveOk then None
    else match directory
      case None => Some([])
      case Some(files) =>
        EntriesAreReadableLogFiles(files);
        Some(Entries(files))
  }

  /** An entry is in the archive exactly when a readable `.log` file of that
      name and contents was listed. */
  lemma {:induction false} InEntries(files: seq<DirFile>, e: ZipEntry)
    ensures e in Entries(files) <==> DirFile(e.name, Some(e.data)) in files && IsLogName(e.name)
  {
    if |files| > 0 {
      InEntries(files[1..], e);
      assert files == [files[0]] + files[1..];
    }
  }

  lemma EntriesAreReadableLogFiles(files: seq<DirFile>)
    ensures forall e :: e in Entries(files) <==> DirFile(e.name, Some(e.data)) in files && IsLogName(e.name)
  {
    forall e
      ensures e in Entries(files) <==> DirFile(e.name, Some(e.data)) in files && IsLogName(e.name)
    {
      InEntries(files, e);
    }
  }

  /** The archive never contains itself. */
  lemma ArchiveExcludesItself(archiveOk: bool, directory: Option<seq<DirFile>>)
    requires ZipLog(archiveOk, directory).Some?
    ensures forall e :: e in ZipLog(archiveOk, directory).value ==> e.name != ZipFileName
  {
    assert !IsLogName(ZipFileName) by {
      assert ZipFileName[|ZipFileName| - |LogSuffix|..] == ".zip";
    }
    if directory.Some? {
      forall e | e in ZipLog(archiveOk, directory).value
        ensures e.name != ZipFileName
      {
        InEntries(directory.value, e);
      }
    }
  }

  function Names(files: seq<DirFile>): (r: seq<string>)
    ensures |r| == |files|
  {
    if |files| == 0 then [] else [files[0].name] + Names(files[1..])
  }

  predicate AllReadable(files: seq<DirFile>) {
    forall i :: 0 <= i < |files| ==> files[i].contents.Some?
  }

  /** When every file can be read, the archive's entries are named exactly
      by the `.log` names the retention pass treats as log files, in
      listing order. */
  lemma {:induction false} ArchiveNamesAreLogNames(files: seq<DirFile>)
    requires AllReadable(files)
    ensures var entries, names := Entries(files), LogNames(Names(files));
            |entries| == |names| && forall i :: 0 <= i < |entries| ==> entries[i].name == names[i]
  {
    if |files| > 0 {
      var f, tail := files[0], files[1..];
      assert AllReadable(tail) by {
        forall i | 0 <= i < |tail|
          ensures tail[i].contents.Some?
        {
          assert tail[i] == files[i + 1];
        }
      }
      ArchiveNamesAreLogNames(tail);
      assert Names(files)[1..] == Names(tail);
      var entries, names := Entries(tail), LogNames(Names(tail));
      if IsLogName(f.name) {
        assert Entries(files) == [ZipEntry(f.name, f.contents.value)] + entries;
        assert LogNames(Names(files)) == [f.name] + names;
      } else {
        assert Entries(files) == [] + entries;
        assert LogNames(Names(files)) == [] + names;
      }
    }
  }
}
