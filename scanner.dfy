/** The scanner, `print_logs`: stat the target, apply the resume policy, open
    it, copy everything from the resume offset to the end to standard output
    with an `fgets` loop, and report the marker to persist. */
module Scanner {
  import opened Os
  import opened MarkerStore
  import opened ResumePolicy

  /** The bytes one scan writes to standard output and the marker it reports. */
  datatype Scanned = Scanned(out: seq<byte>, next: Marker)

  function SnapshotOf(f: Node): Snapshot {
    Snapshot(f.ino, |f.data|)
  }

  /** The outcome of `print_logs` for the target `name` and the stored marker.
      On success the new marker is the target's inode and size whatever the
      resume offset was, and the output is the unread tail of the file. */
  function Scan(fs: FileMap, name: Path, stored: Marker): (r: Result<Scanned>)
    ensures r.Err? <==> name !in fs || !fs[name].readable
    ensures r.Err? ==> r.error == (if name !in fs then NotFound else PermissionDenied)
    ensures r.Ok? ==> r.value.next == Marker(fs[name].ino, |fs[name].data|)
    ensures r.Ok? ==> |r.value.out| <= |fs[name].data| && r.value.out == fs[name].data[|fs[name].data| - |r.value.out|..]
    ensures r.Ok? && stored.ino != fs[name].ino ==> r.value.out == fs[name].data
    ensures r.Ok? && stored.ino == fs[name].ino && stored.offset > |fs[name].data| ==> r.value.out == fs[name].data
    ensures r.Ok? && stored.ino == fs[name].ino && stored.offset <= |fs[name].data| ==>
              r.value.out == fs[name].data[stored.offset..]
    ensures r.Ok? && stored == r.value.next ==> r.value.out == []
  {
    if name !in fs then Err(NotFound)
    else
      var f := fs[name];
      var start := ResumeOffset(stored, SnapshotOf(f));
      if !f.readable then Err(PermissionDenied)
      else Ok(Scanned(f.data[start..], Marker(f.ino, |f.data|)))
  }

  /** `print_logs`. The stored marker comes in through `stored` and the new one
      goes out through `next`, which the failure paths leave as they were. Each
      `fgets` chunk is written out whole, NUL bytes included. */
  method PrintLogs(fs: FileMap, name: Path, stored: Marker) returns (status: Status, next: Marker, out: seq<byte>)
    ensures status.Success? <==> Scan(fs, name, stored).Ok?
    ensures status.Success? ==> Scanned(out, next) == Scan(fs, name, stored).value
    ensures status.Failure? ==> status.error == Scan(fs, name, stored).error && next == stored && out == []
  {
    next, out := stored, [];
    if name !in fs {
      status := Failure(NotFound);
      return;
    }
    var f := fs[name];
    var offset := ResumeOffset(stored, SnapshotOf(f));
    if !f.readable {
      status := Failure(PermissionDenied);
      return;
    }
    var pos := offset;
    while pos < |f.data|
      invariant offset <= pos <= |f.data|
      invariant out == f.data[offset..pos]
    {
      var n := LineLength(f.data[pos..], MAX_BUF - 1);
      out := out + f.data[pos..pos + n];
      pos := pos + n;
    }
    next := Marker(f.ino, |f.data|);
    status := Success;
  }

  // ---------------------------------------------------------------------------
  // The copy loop as the source has it

  /** What `printf("%s", buf)` writes of a chunk: the bytes before its first NUL. */
  function UpToNul(chunk: seq<byte>): (r: seq<byte>)
    ensures r <= chunk && NUL !in r
    ensures NUL !in chunk ==> r == chunk
    ensures |r| < |chunk| ==> chunk[|r|] == NUL
  {
    if chunk == [] || chunk[0] == NUL then [] else [chunk[0]] + UpToNul(chunk[1..])
  }

  /** What the source's `while (fgets(...)) printf("%s", buf)` loop writes when
      it starts at `pos`. It agrees with the verbatim copy on files without NUL
      bytes and never writes a NUL byte. */
  function PrintedAsWritten(data: seq<byte>, pos: nat): (r: seq<byte>)
    requires pos <= |data|
    ensures NUL !in r
    ensures NUL !in data[pos..] ==> r == data[pos..]
    decreases |data| - pos
  {
    if pos == |data| then []
    else
      var n := LineLength(data[pos..], MAX_BUF - 1);
      assert data[pos..pos + n] + data[pos + n..] == data[pos..];
      UpToNul(data[pos..pos + n]) + PrintedAsWritten(data, pos + n)
  }

  /** A NUL byte in the unread part of the target is enough for the source's
      loop to write something else than that part, although the marker then
      moves to the end of the file and those bytes are never read again. */
  lemma NulBytesAreLost(fs: FileMap, name: Path, stored: Marker)
    requires Scan(fs, name, stored).Ok?
    requires NUL in Scan(fs, name, stored).value.out
    ensures PrintedAsWritten(fs[name].data, ResumeOffset(stored, SnapshotOf(fs[name])))
              != Scan(fs, name, stored).value.out
    ensures Scan(fs, name, stored).value.next.offset == |fs[name].data|
  {
  }
}
