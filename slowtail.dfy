/** One invocation of `slowtail <filename>`: compose the marker path, read the
    marker, scan the target, write the new marker, and exit 0 only when all of
    that succeeded. Also the properties of a series of invocations. */
module SlowTail {
  import opened Os
  import opened MarkerStore
  import opened ResumePolicy
  import opened Scanner

  const MAX_FILE_NAME: nat := 1024
  const OFFSET_EXT: Path := ".offset"

  /** The marker file's path, or `None` when `<filename>.offset` and its NUL
      terminator would not fit the 1024-byte `offset_file` buffer. */
  function MarkerPath(name: Path): (r: Option<Path>)
    ensures r.Some? <==> |name| <= MAX_FILE_NAME - |OFFSET_EXT| - 1
    ensures r.Some? ==> |r.value| < MAX_FILE_NAME
    ensures r.Some? ==> |r.value| == |name| + |OFFSET_EXT|
    ensures r.Some? ==> r.value != name && r.value[..|name|] == name && r.value[|name|..] == OFFSET_EXT
  {
    if |OFFSET_EXT| + |name| + 1 > MAX_FILE_NAME then None
    else
      var path: Path := name + OFFSET_EXT;
      Some(path)
  }

  /** Two targets never share a marker file. */
  lemma MarkerPathInjective(a: Path, b: Path)
    requires MarkerPath(a).Some? && MarkerPath(a) == MarkerPath(b)
    ensures a == b
  {
  }

  /** How an invocation ends; every outcome but `Done` is exit status 1. */
  datatype Exit =
    | Done
    | UsageError                   // not exactly one argument
    | NameTooLong                  // the marker path would not fit
    | MarkerUnreadable(e: Error)   // read_offset failed
    | TargetUnreadable(e: Error)   // print_logs failed
    | MarkerUnwritable(e: Error)   // write_offset failed
  {
    function Code(): (c: int)
      ensures c == 0 <==> this == Done
      ensures c == 0 || c == 1
    {
      if Done? then 0 else 1
    }
  }

  /** The exit status, the filesystem afterwards and what went to standard output. */
  datatype Outcome = Outcome(exit: Exit, fs: FileMap, out: seq<byte>)

  /** The meaning of one invocation with argument vector `args` (`args[0]` is the
      program name); `newIno` is the inode number the system gives a marker
      file that has to be created. */
  function Invocation(fs: FileMap, args: seq<Path>, newIno: Ino): (r: Outcome)
    ensures r.exit != Done ==> r.fs == fs
    ensures r.exit.UsageError? <==> |args| != 2
    ensures r.exit.UsageError? ==> r.out == []
    ensures |args| == 2 && MarkerPath(args[1]).None? ==> r == Outcome(NameTooLong, fs, [])
    ensures r.exit.MarkerUnreadable? || r.exit.TargetUnreadable? ==> r.out == []
    ensures r.exit == Done ==>
              |args| == 2 && MarkerPath(args[1]).Some? && args[1] in fs && args[1] in r.fs && r.fs[args[1]] == fs[args[1]] &&
              MarkerPath(args[1]).value in r.fs &&
              r.fs == fs[MarkerPath(args[1]).value := r.fs[MarkerPath(args[1]).value]] &&
              r.fs[MarkerPath(args[1]).value].data == Encode(Marker(fs[args[1]].ino, |fs[args[1]].data|))
    ensures forall p :: p in fs ==> p in r.fs
  {
    if |args| != 2 then Outcome(UsageError, fs, [])
    else
      var name := args[1];
      match MarkerPath(name)
      case None => Outcome(NameTooLong, fs, [])
      case Some(mp) =>
        match LoadMarker(fs, mp)
        case Err(e) => Outcome(MarkerUnreadable(e), fs, [])
        case Ok(stored) =>
          match Scan(fs, name, stored)
          case Err(e) => Outcome(TargetUnreadable(e), fs, [])
          case Ok(s) =>
            match StoreMarker(fs, mp, s.next, newIno)
            case Err(e) => Outcome(MarkerUnwritable(e), fs, s.out)
            case Ok(fs') => Outcome(Done, fs', s.out)
  }

  /** Each step of `main` decides the exit: a marker that cannot be read is
      `MarkerUnreadable`, then a target that cannot be scanned is
      `TargetUnreadable`, then a marker that cannot be written is
      `MarkerUnwritable` after the scan's bytes were written; a run whose three
      steps all succeed is `Done` and writes exactly the scan's bytes. */
  lemma StepsDecideExit(fs: FileMap, args: seq<Path>, newIno: Ino)
    requires |args| == 2 && MarkerPath(args[1]).Some?
    ensures var r := Invocation(fs, args, newIno);
      var load := LoadMarker(fs, MarkerPath(args[1]).value);
      (r.exit.MarkerUnreadable? <==> load.Err?) &&
      (load.Err? ==> r.exit == MarkerUnreadable(load.error))
    ensures var r := Invocation(fs, args, newIno);
      var mp := MarkerPath(args[1]).value;
      LoadMarker(fs, mp).Ok? ==>
        var scan := Scan(fs, args[1], LoadMarker(fs, mp).value);
        (r.exit.TargetUnreadable? <==> scan.Err?) &&
        (scan.Err? ==> r.exit == TargetUnreadable(scan.error)) &&
        (scan.Ok? ==> r.out == scan.value.out) &&
        (scan.Ok? ==> (r.exit == Done <==> StoreMarker(fs, mp, scan.value.next, newIno).Ok?)) &&
        (scan.Ok? && StoreMarker(fs, mp, scan.value.next, newIno).Err? ==>
           r.exit == MarkerUnwritable(StoreMarker(fs, mp, scan.value.next, newIno).error) && r.exit.Code() == 1)
  {
  }

  /** `main`: the steps in order, each failure ending the run with exit status 1
      before any later step, so the marker is written only after a successful
      scan. */
  method Invoke(fs: FileMap, args: seq<Path>, newIno: Ino) returns (exit: Exit, fs': FileMap, out: seq<byte>)
    ensures Outcome(exit, fs', out) == Invocation(fs, args, newIno)
  {
    fs', out := fs, [];
    if |args| != 2 {
      exit := UsageError;
      return;
    }
    var name := args[1];
    var markerPath := MarkerPath(name);
    if markerPath.None? {
      exit := NameTooLong;
      return;
    }
    var status, marker := ReadOffset(fs, markerPath.value);
    if status.Failure? {
      exit := MarkerUnreadable(status.error);
      return;
    }
    status, marker, out := PrintLogs(fs, name, marker);
    if status.Failure? {
      exit := TargetUnreadable(status.error);
      return;
    }
    status, fs' := WriteOffset(fs, markerPath.value, marker, newIno);
    if status.Failure? {
      exit := MarkerUnwritable(status.error);
      return;
    }
    exit := Done;
  }

  // ---------------------------------------------------------------------------
  // Series of invocations

  /** The state between two runs in which the next run resumes at `k`: either
      no marker yet (`k` is 0), or a marker file that can be read and rewritten
      and records the target's inode and `k`. */
  ghost predicate ResumesAt(fs: FileMap, name: Path, k: nat) {
    name in fs && MarkerPath(name).Some? &&
    var mp := MarkerPath(name).value;
    (k == 0 && mp !in fs) ||
    (mp in fs && fs[mp].readable && fs[mp].writable && fs[mp].data == Encode(Marker(fs[name].ino, k)))
  }

  /** One run from a state that resumes at `k` emits exactly the bytes from `k`
      on, leaves the target alone and leaves a state that resumes at its end. */
  lemma OneRun(fs: FileMap, name: Path, k: nat, newIno: Ino)
    requires ResumesAt(fs, name, k) && fs[name].readable
    requires k <= |fs[name].data| <= LONG_MAX
    ensures var r := Invocation(fs, ["slowtail", name], newIno);
      r.exit == Done && r.out == fs[name].data[k..] &&
      name in r.fs && r.fs[name] == fs[name] && ResumesAt(r.fs, name, |fs[name].data|)
  {
    var mp := MarkerPath(name).value;
    var f := fs[name];
    if mp in fs {
      MarkerRoundTrip(Marker(f.ino, k));
      assert LoadMarker(fs, mp) == Ok(Marker(f.ino, k));
    }
  }

  /** The outputs of a series of runs, where `history[i]` is the content of the
      target at run `i` and nothing else changes between runs. */
  function Replay(fs: FileMap, name: Path, history: seq<seq<byte>>, newIno: Ino): seq<byte>
    decreases |history|
  {
    if history == [] || name !in fs then []
    else
      var r := Invocation(fs[name := fs[name].(data := history[0])], ["slowtail", name], newIno);
      r.out + Replay(r.fs, name, history[1..], newIno)
  }

  /** The target is only ever appended to: each content is a prefix of every later one. */
  ghost predicate AppendOnly(history: seq<seq<byte>>) {
    forall i, j :: 0 <= i <= j < |history| ==> history[i] <= history[j]
  }

  /** The first run of a series, from a state that resumes at `k`. */
  lemma FirstOfSeries(fs: FileMap, name: Path, history: seq<seq<byte>>, newIno: Ino, k: nat) returns (after: FileMap)
    requires ResumesAt(fs, name, k) && fs[name].readable
    requires history != [] && k <= |history[0]| <= LONG_MAX
    ensures Replay(fs, name, history, newIno) == history[0][k..] + Replay(after, name, history[1..], newIno)
    ensures ResumesAt(after, name, |history[0]|) && after[name].readable
  {
    var before := fs[name := fs[name].(data := history[0])];
    Rewritten(fs, name, k, history[0]);
    OneRun(before, name, k, newIno);
    after := Invocation(before, ["slowtail", name], newIno).fs;
  }

  lemma {:induction false} ReplayFrom(fs: FileMap, name: Path, history: seq<seq<byte>>, newIno: Ino, k: nat)
    requires ResumesAt(fs, name, k) && fs[name].readable
    requires history != [] && AppendOnly(history) && k <= |history[0]|
    requires forall i :: 0 <= i < |history| ==> |history[i]| <= LONG_MAX
    ensures Replay(fs, name, history, newIno) == history[|history| - 1][k..]
    decreases |history|
  {
    var after := FirstOfSeries(fs, name, history, newIno, k);
    if |history| > 1 {
      AppendOnlyTail(history);
      ReplayFrom(after, name, history[1..], newIno, |history[0]|);
      PrefixSuffix(history[0], history[|history| - 1], k);
    }
  }

  /** Replacing the target's content keeps the marker state. */
  lemma Rewritten(fs: FileMap, name: Path, k: nat, data: seq<byte>)
    requires ResumesAt(fs, name, k)
    ensures ResumesAt(fs[name := fs[name].(data := data)], name, k)
  {
  }

  /** What a series that is append-only and fits `off_t` says of its tail. */
  lemma AppendOnlyTail(history: seq<seq<byte>>)
    requires |history| > 1 && AppendOnly(history)
    requires forall i :: 0 <= i < |history| ==> |history[i]| <= LONG_MAX
    ensures AppendOnly(history[1..])
    ensures forall i :: 0 <= i < |history[1..]| ==> |history[1..][i]| <= LONG_MAX
    ensures history[0] <= history[1] && history[0] <= history[|history| - 1]
  {
  }

  lemma PrefixSuffix(a: seq<byte>, b: seq<byte>, k: nat)
    requires a <= b && k <= |a|
    ensures b[k..] == a[k..] + b[|a|..]
  {
  }

  /** Every byte exactly once: starting with no marker file, a series of runs
      against a file that is only appended to writes, all outputs together, the
      file's final content from its first byte, without gaps or repeats. */
  lemma AppendOnlyRunsEmitEveryByteOnce(fs: FileMap, name: Path, history: seq<seq<byte>>, newIno: Ino)
    requires name in fs && fs[name].readable
    requires MarkerPath(name).Some? && MarkerPath(name).value !in fs
    requires history != [] && AppendOnly(history)
    requires forall i :: 0 <= i < |history| ==> |history[i]| <= LONG_MAX
    ensures Replay(fs, name, history, newIno) == history[|history| - 1]
  {
    ReplayFrom(fs, name, history, newIno, 0);
  }

  /** A run that finds the target as the last successful run left it writes
      nothing and leaves the filesystem exactly as it was. */
  lemma UnchangedFileIsNoOp(fs: FileMap, name: Path, newIno: Ino)
    requires name in fs && ResumesAt(fs, name, |fs[name].data|) && fs[name].readable
    requires MarkerPath(name).value in fs && |fs[name].data| <= LONG_MAX
    ensures Invocation(fs, ["slowtail", name], newIno) == Outcome(Done, fs, [])
  {
    OneRun(fs, name, |fs[name].data|, newIno);
    var mp := MarkerPath(name).value;
    var r := Invocation(fs, ["slowtail", name], newIno);
    assert r.fs[mp] == fs[mp];
    assert r.fs == fs;
  }

  /** A run after the target was replaced by another file writes the new file
      from its first byte, whatever offset the marker held. */
  lemma RotatedFileIsReadFromStart(fs: FileMap, name: Path, stored: Marker, newIno: Ino)
    requires name in fs && fs[name].readable && MarkerPath(name).Some?
    requires LoadMarker(fs, MarkerPath(name).value) == Ok(stored)
    requires stored.ino != fs[name].ino
    ensures Invocation(fs, ["slowtail", name], newIno).out == fs[name].data
  {
  }

  /** A run after the target was truncated below the stored offset writes the
      file from its first byte. */
  lemma TruncatedFileIsReadFromStart(fs: FileMap, name: Path, stored: Marker, newIno: Ino)
    requires name in fs && fs[name].readable && MarkerPath(name).Some?
    requires LoadMarker(fs, MarkerPath(name).value) == Ok(stored)
    requires stored.ino == fs[name].ino && stored.offset > |fs[name].data|
    ensures Invocation(fs, ["slowtail", name], newIno).out == fs[name].data
  {
  }

  /** A marker file that can be read but not rewritten: the run writes the
      unread bytes, exits 1 and leaves every file as it was, so the next run
      writes the same bytes again. */
  lemma UnwritableMarkerRepeatsOutput(fs: FileMap, name: Path, newIno: Ino)
    requires name in fs && fs[name].readable && MarkerPath(name).Some?
    requires MarkerPath(name).value in fs && !fs[MarkerPath(name).value].writable
    requires LoadMarker(fs, MarkerPath(name).value).Ok?
    ensures var r := Invocation(fs, ["slowtail", name], newIno);
      r.exit == MarkerUnwritable(PermissionDenied) && r.exit.Code() == 1 && r.fs == fs &&
      r.out == Scan(fs, name, LoadMarker(fs, MarkerPath(name).value).value).value.out &&
      Invocation(r.fs, ["slowtail", name], newIno) == r
  {
  }

  /** A run whose target cannot be found or opened leaves the marker file, and
      every other file, exactly as they were, so the next run resumes from the
      same point. */
  lemma FailureLeavesMarker(fs: FileMap, name: Path, newIno: Ino)
    requires MarkerPath(name).Some?
    requires name !in fs || !fs[name].readable
    ensures var r := Invocation(fs, ["slowtail", name], newIno);
      r.exit.Code() == 1 && r.fs == fs && r.out == [] &&
      (LoadMarker(fs, MarkerPath(name).value).Ok? ==> r.exit.TargetUnreadable?)
  {
  }

  // ---------------------------------------------------------------------------
  // The marker format as the source has it

  /** With the source's `(unsigned int)` cast, a run on a target whose inode
      does not fit in 32 bits reads back a different inode, takes the file for
      rotated and writes the whole file again although nothing was appended;
      with the full-width format it resumes at the end and writes nothing. */
  lemma WideInodeIsForgotten(ino: Ino, size: nat)
    requires ino >= UINT_LIMIT && size <= LONG_MAX
    ensures var m := Marker(ino, size);
      ParseAsWritten(FirstLine(EncodeAsWritten(m))).Some? &&
      ResumeOffset(ParseAsWritten(FirstLine(EncodeAsWritten(m))).value, Snapshot(ino, size)) == 0 &&
      Parse(FirstLine(Encode(m))).Some? &&
      ResumeOffset(Parse(FirstLine(Encode(m))).value, Snapshot(ino, size)) == size
  {
    AsWrittenRoundTrip(Marker(ino, size));
    MarkerRoundTrip(Marker(ino, size));
  }
}
