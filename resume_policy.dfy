/** The resume policy of `print_logs`: from the stored marker and what `stat`
    says about the target now, decide where reading restarts. */
module ResumePolicy {
  import opened MarkerStore

  /** What one `stat` of the target reports: `st_ino` and `st_size`. */
  datatype Snapshot = Snapshot(ino: nat, size: nat)

  /** The offset reading restarts at. A different inode means the path now
      names another file (it was rotated); an offset beyond the end means the
      file was truncated; either way reading restarts at 0. The inode test comes
      first, so a stale offset that happens to fit the new file is not used. */
  function ResumeOffset(stored: Marker, now: Snapshot): (start: nat)
    ensures start <= now.size
    ensures stored.ino != now.ino ==> start == 0
    ensures stored.ino == now.ino && stored.offset > now.size ==> start == 0
    ensures stored.ino == now.ino && stored.offset <= now.size ==> start == stored.offset
  {
    var offset := if stored.ino != now.ino then 0 else stored.offset;
    if offset > now.size then 0 else offset
  }
}
