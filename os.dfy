/** The part of the operating system that slowtail touches, as values: bytes,
    paths, a snapshot of the filesystem, the C library's `fgets` line reader and
    the `errno`-style status that every step returns. */
module Os {

  newtype byte = b: int | 0 <= b < 256

  const NUL: byte := 0
  const NL: byte := 10
  const SPACE: byte := 32

  /** Largest `long` (and `off_t`) and largest `unsigned long` (and `ino_t`)
      on an LP64 system. */
  const LONG_MAX: nat := 0x7fff_ffff_ffff_ffff
  const ULONG_MAX: nat := 0xffff_ffff_ffff_ffff

  /** Size of the `buf` array that both readers hand to `fgets`. */
  const MAX_BUF: nat := 4096

  /** An inode number: `ino_t` is a 64-bit unsigned integer. */
  type Ino = i: int | 0 <= i <= 0xffff_ffff_ffff_ffff

  /** A path. Each character stands for one byte of the C string, so its
      length is what `strlen` counts; characters above 255 are not used. */
  type Path = string

  /** A regular file: its identity, its bytes and whether the calling process
      may open it for reading and for writing. */
  datatype Node = Node(ino: Ino, data: seq<byte>, readable: bool, writable: bool)

  /** The filesystem as seen by one invocation: the files that exist, by path. */
  type FileMap = map<Path, Node>

  /** The failures the model distinguishes, in place of `errno` values. */
  datatype Error =
    | NotFound          // stat() failed
    | PermissionDenied  // fopen() failed
    | NoData            // fgets() met end of file before reading a byte
    | Malformed         // the marker line is not `digits ' ' digits`

  /** The C convention "0 on success, an errno otherwise". */
  datatype Status = Success | Failure(error: Error)

  datatype Option<T> = None | Some(value: T)

  datatype Result<T> = Ok(value: T) | Err(error: Error)

  /** How many bytes one `fgets(buf, room + 1, f)` call takes from `s`: it stops
      after the first newline, after `room` bytes, or at end of file. */
  function LineLength(s: seq<byte>, room: nat): (n: nat)
    ensures n <= |s| && n <= room
    ensures s != [] && room > 0 ==> n > 0
    ensures forall i :: 0 <= i < n - 1 ==> s[i] != NL
    ensures n < |s| && n < room ==> n > 0 && s[n - 1] == NL
    decreases room
  {
    if s == [] || room == 0 then 0
    else if s[0] == NL then 1
    else 1 + LineLength(s[1..], room - 1)
  }

  /** The bytes a single `fgets(buf, MAX_BUF, f)` puts in `buf`, reading from
      the start of `s` (the terminating NUL aside). */
  function FirstLine(s: seq<byte>): (line: seq<byte>)
    ensures line <= s
  {
    s[..LineLength(s, MAX_BUF - 1)]
  }

  /** A line that ends in its only newline and fits the buffer is read whole. */
  lemma WholeLine(t: seq<byte>)
    requires forall i :: 0 <= i < |t| ==> t[i] != NL
    requires |t| < MAX_BUF - 1
    ensures FirstLine(t + [NL]) == t + [NL]
  {
  }
}
