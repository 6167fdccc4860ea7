# slowtail in Dafny

slowtail tails a log file across separate invocations, for example from a
periodic scheduler. Each run prints only the bytes appended since the
previous run. It remembers where it stopped in a sidecar marker file,
`<filename>.offset`. That file holds one line, the inode of the target and
the byte offset reached.

Each invocation runs four steps in order:

1. Read the marker. A missing marker file means a first run and gives the
   marker `(0, 0)`.
2. `stat` the target and decide where to resume. A different inode means the
   file was rotated, so reading restarts at 0. An offset beyond the end means
   the file was truncated, so reading also restarts at 0. Otherwise reading
   resumes at the stored offset.
3. Copy the rest of the file to standard output with an `fgets` loop.
4. Write the marker `(st_ino, st_size)`.

Any failure ends the run with exit status 1. The marker is written only after
a successful scan.

The model has five modules, one file each:

- `Os` (os.dfy): bytes, paths and the filesystem. The filesystem is a value:
  a map from path to a `Node` holding the inode, the content and whether the
  process may read and write the file. `stat` is a lookup in this map and
  `fopen` is a check of the node's permissions. The module also models how
  much of the input an `fgets` call takes, and the status codes returned in
  place of `errno`.
- `MarkerStore` (marker_store.dfy): the marker line format, plus
  `read_offset` and `write_offset`. Numerals are written as the `printf`
  family writes them. The offset is read as `strtol` reads it. The module has
  two marker formats. The source's format casts the inode to `unsigned int`
  and reads it with `strtol`. The full-width format writes the whole inode
  and reads it with `strtoul`; `LoadMarker`, `StoreMarker` and everything
  built on them use this one (see Findings). `read_offset` and
  `write_offset` are the methods `ReadOffset` and `WriteOffset`, each with
  the C function's early returns. `ReadOffset` is proved against the pure
  function `LoadMarker`, and `WriteOffset` against `StoreMarker`.
- `ResumePolicy` (resume_policy.dfy): the decision of where reading restarts.
- `Scanner` (scanner.dfy): `print_logs`, written as a method with the copy
  loop and proved against the pure function `Scan`. Standard output is the
  sequence of bytes the method returns.
- `SlowTail` (slowtail.dfy): the marker path and its length check, and
  `main` as the method `Invoke`, proved against the pure function
  `Invocation`. The module also holds the properties of a series of runs.

Operating-system choices enter as parameters. The inode number that a newly
created marker file receives is the parameter `newIno`. The program
arguments are `args`.

## Model

| member | source | states |
|---|---|---|
| `Os.LineLength` | slowtail.c:104 | one `fgets` call takes at most `MAX_BUF - 1` bytes and stops right after the first newline or at end of file; it takes at least one byte when input is left |
| `Os.FirstLine` | slowtail.c:39 | the line `read_offset` reads is a prefix of the marker file |
| `MarkerStore.Digits` | slowtail.c:61 | the decimal numeral written for `n` is a non-empty run of digits whose value is `n`, without leading zeros: it starts with `0` only when it is the single digit of 0 |
| `MarkerStore.DigitsLength` | slowtail.c:61 | a number below `10^k` is written in at most `k` digits |
| `MarkerStore.ShortNumeral` | slowtail.c:61 | every 64-bit value is written in at most 20 digits, so a marker line always fits the 4096-byte read buffer |
| `MarkerStore.DigitRun` | slowtail.c:43-44 | `strtol` reads the longest run of leading digits and stops at the first non-digit |
| `MarkerStore.Saturate` | slowtail.c:43-44 | a value too large for the type is replaced by the type's largest value; smaller values are unchanged |
| `MarkerStore.Line` | slowtail.c:61 | the marker line ends in a newline, and for two 64-bit numbers it has at most 42 bytes, so one `fgets` call reads it whole |
| `MarkerStore.Encode` | slowtail.c:61 | the full-width writer's line ends in a newline; `MarkerRoundTrip` states that it reads back as the marker |
| `MarkerStore.EncodeAsWritten` | slowtail.c:61 | the source's writer, with the `(unsigned int)` cast, writes the same line as the full-width writer exactly when the inode is below 2^32 |
| `MarkerStore.LineDeterminesInode` | slowtail.c:61 | two marker lines with the same offset are equal only when their inodes are |
| `MarkerStore.ParseWith` | slowtail.c:42-44 | a line parses exactly when it begins with digits, then a space right after them, then at least one digit; a parsed marker has an inode within the reader's range and an offset of at most `LONG_MAX` |
| `MarkerStore.Parse` | slowtail.c:42-44 | the reader that matches the full-width writer yields values that fit `ino_t` and `off_t` |
| `MarkerStore.ParseAsWritten` | slowtail.c:42-44 | the source's reader, `strtol` for both fields, yields values of at most `LONG_MAX` |
| `MarkerStore.ParsedFields` | slowtail.c:42-44 | a line made of digits, a space, digits and then anything that does not start with a digit reads as the two numbers, each capped at its type's maximum; what follows the second numeral is ignored |
| `MarkerStore.LineRoundTrip` | slowtail.c:42-61 | parsing the first line of `"<inode> <offset>\n"` gives back exactly that pair |
| `MarkerStore.LineIsOneLine` | slowtail.c:39-61 | the line `write_offset` writes has its only newline at its end and fits the 4096-byte buffer, so the single `fgets` call of `read_offset` reads all of it |
| `MarkerStore.MarkerRoundTrip` | slowtail.c:42-61 | with the full-width format, the marker written is the marker read back, for every 64-bit inode and every `off_t` offset; with the source's format this holds only below 2^32 (`AsWrittenRoundTrip`) |
| `MarkerStore.AsWrittenRoundTrip` | slowtail.c:42-61 | with the source's `(unsigned int)` cast, the round trip keeps the offset but only the inode modulo 2^32 |
| `MarkerStore.LoadMarker` | slowtail.c:22-49 | a missing marker file is the zero marker with success; an unopenable one is an error; a readable one fails with `NoData` exactly when its first line is empty, is `Malformed` exactly when that non-empty line does not parse, and otherwise loads as exactly the marker that line parses to; every loaded marker fits `ino_t` and `off_t` |
| `MarkerStore.StoreMarker` | slowtail.c:54-69 | writing fails exactly when the existing marker file cannot be opened for writing; otherwise the marker file holds the encoded marker and no other file changes |
| `MarkerStore.StoreThenLoad` | slowtail.c:22-69 | after a successful `write_offset`, `read_offset` returns the same marker |
| `MarkerStore.ReadOffset` | slowtail.c:22-49 | the method succeeds exactly when `LoadMarker` does, and then returns its marker; on failure it returns that error with the out-parameters left zeroed |
| `MarkerStore.WriteOffset` | slowtail.c:54-69 | the method succeeds exactly when `StoreMarker` does; on failure the filesystem is unchanged |
| `ResumePolicy.ResumeOffset` | slowtail.c:89-98 | a different inode restarts at 0 whatever the stored offset; the same inode with an offset past the end restarts at 0; otherwise reading resumes exactly at the stored offset; the result never exceeds the current size |
| `Scanner.Scan` | slowtail.c:75-116 | a target that is missing or cannot be opened is an error; on success the new marker is `(st_ino, st_size)` whatever the resume offset; the output is a suffix of the file; the output is the whole file after rotation or truncation and is empty when the marker already equals the new one |
| `Scanner.PrintLogs` | slowtail.c:75-116 | the `fgets` loop writes exactly the bytes from the resume offset to the end of the file; on a `stat` or `fopen` failure it returns before updating the marker out-parameters and writes nothing |
| `Scanner.UpToNul` | slowtail.c:105 | `printf("%s")` writes the prefix of the chunk that ends right before its first NUL byte, and the whole chunk when it contains none |
| `Scanner.PrintedAsWritten` | slowtail.c:103-105 | the source's copy loop never writes a NUL byte and equals the verbatim copy on content without NUL bytes |
| `SlowTail.MarkerPath` | slowtail.c:140-148 | a marker path exists exactly when the name has at most 1016 bytes; it is the name followed by `.offset`, it fits the 1024-byte buffer and it is never the target itself |
| `SlowTail.MarkerPathInjective` | slowtail.c:140-148 | two different targets never share a marker file |
| `SlowTail.Exit.Code` | slowtail.c:123-169 | the exit status is 0 exactly on success and 1 otherwise |
| `SlowTail.Invocation` | slowtail.c:123-169 | a failed run changes no file; a usage error prints nothing; a wrong argument count or an over-long name is rejected before any file is read; a marker or target failure prints nothing; a successful run leaves the target alone and writes `(st_ino, st_size)` as the only other change |
| `SlowTail.StepsDecideExit` | slowtail.c:150-168 | an unreadable marker is `MarkerUnreadable` with its error; next a target that cannot be scanned is `TargetUnreadable` with its error; otherwise the run prints the scan's bytes, and it is `Done` exactly when the marker can be written and `MarkerUnwritable` with exit status 1 when it cannot |
| `SlowTail.Invoke` | slowtail.c:123-169 | `main`'s sequence of steps, with its early returns, has exactly the outcome `Invocation` describes |
| `SlowTail.OneRun` | slowtail.c:150-166 | from a marker that records the target's inode and offset `k`, or from no marker with `k` = 0, a run succeeds, prints exactly the bytes from `k` to the end, and leaves a marker recording the new end |
| `SlowTail.FirstOfSeries` | slowtail.c:150-166 | in a series of runs, the first run contributes the bytes of the file from `k` on and leaves a state that resumes at its end |
| `SlowTail.ReplayFrom` | slowtail.c:83-113 | on a file that is only appended to, the runs together print the final content from the first resume offset on |
| `SlowTail.AppendOnlyRunsEmitEveryByteOnce` | slowtail.c:103-113 | with the full-width marker format and starting with no marker file, all runs together on an append-only file print the whole file exactly once, with no gaps and no repeats |
| `SlowTail.UnchangedFileIsNoOp` | slowtail.c:103-113 | with the full-width marker format, a run on a file whose inode and size are unchanged since the last successful run prints nothing and leaves a filesystem identical to the one it started with |
| `SlowTail.RotatedFileIsReadFromStart` | slowtail.c:89-93 | after rotation, a run prints the new file from its first byte |
| `SlowTail.TruncatedFileIsReadFromStart` | slowtail.c:95-98 | when the stored offset lies beyond the end of the same file, a run prints the file from its first byte |
| `SlowTail.UnwritableMarkerRepeatsOutput` | slowtail.c:162-166 | when the marker file can be read but not rewritten, the run prints the unread bytes, exits 1 and changes no file, so the next run prints the same bytes again |
| `SlowTail.FailureLeavesMarker` | slowtail.c:156-160 | a run whose target cannot be `stat`ed or opened exits 1, prints nothing and leaves the marker file unchanged |
| `SlowTail.WideInodeIsForgotten` | slowtail.c:61 | with the source's format, an inode of 2^32 or more reads back wrong, so an unchanged file restarts at 0; the full-width format resumes at the end |
| `Scanner.NulBytesAreLost` | slowtail.c:103-113 | when the unread part contains a NUL byte, the source's loop prints something other than that part, while the marker still advances to the end of the file |

## Left out

- Real `stat`, `fopen`, `fgets`, `fprintf`, `fflush` and `fclose`, `errno` values and `strerror` messages are not modelled. Failures are the four `Error` kinds, and standard output is the returned byte sequence. The usage and diagnostic texts are not modelled either; each failure is an `Exit` kind.
- The race between `stat` and the later open, seek and read is not modelled. Concurrent invocations racing on the marker file are not modelled. The model takes one snapshot of the filesystem per invocation.
- A read error in the middle of the copy loop is not modelled, nor a write error while writing the marker: `ferror` is called after `fclose`, whose behaviour is undefined.
- No error from `fseek` is modelled, because the resume offset never exceeds the size. The `FILE` handle that leaks when `fgets` fails in `read_offset` is not modelled either.
- `WriteOffset`: creating a missing marker file always succeeds. Directory permissions are not modelled. The new file is readable and writable, and its inode number is the parameter `newIno`.
- `ParseWith`: only lines of the form `digits ' ' digits …` are parsed; anything after the second run of digits is ignored, as `strtol` ignores it (`ParsedFields`). `strtol` also accepts leading white space and a sign. Where the first space is not right after the leading digits, it still reads a value (0 when there are no digits). Where the line has no space at all, the source reads through a null pointer. All these lines are a `Malformed` error in the model. The source would go on with whatever values it read.
- `LoadMarker`: an empty marker file is a `NoData` error. The source returns the current `errno` there. Nothing before that point normally sets `errno`, so the source almost always returns 0 with the zero marker. The source then prints the whole file again and rewrites the marker. The model instead exits 1 on every run until the marker file is removed or rewritten.
- `LoadMarker`: the model treats a marker file as absent exactly when it is missing from the filesystem. In the source, any `stat` failure counts as absence, for instance a directory that cannot be searched.
- `ParseWith`: the two fields are split at the first space, as the code does, and not at any white space.
- `StoreMarker` and `LoadMarker` use the full-width marker format (`Encode` and `Parse`), not the source's. So `Invocation`, `Invoke`, `OneRun`, `ReplayFrom`, `AppendOnlyRunsEmitEveryByteOnce` and `UnchangedFileIsNoOp` describe the program with the first finding corrected. On the source, a target whose inode is 2^32 or more is printed whole on every run; `WideInodeIsForgotten` states that case.
- `MarkerPath`: a path is a Dafny string and each character stands for one byte, so `|name|` is what `strlen` counts. The model does not exclude characters above 255.
- `MarkerPath`: this is the intended `filename + ".offset"`. The source concatenates onto an uninitialised buffer, and that is not modelled.
- `PrintLogs` and `Scan`: standard output gets the bytes of each `fgets` chunk verbatim, with no NUL truncation. The source's `printf("%s")` behaviour is modelled separately (see Findings).
- An inode of 0 would defeat rotation detection against the zero marker. That case needs no model: the zero marker's offset is 0, so `ResumeOffset` returns 0 either way.
- Argument handling beyond "not exactly one argument is exit status 1" is command-line glue and is not modelled.

## Findings

| source | as written | input that shows it | evidently intended | confidence | as-written member | corrected member |
|---|---|---|---|---|---|---|
| slowtail.c:61 | `write_offset` casts the inode to `unsigned int` before printing it, so only its low 32 bits reach the marker file; `read_offset` (slowtail.c:43) then reads it back with `strtol`, which also caps it at `LONG_MAX` | a target with inode 4294967296 and 2 unchanged bytes: the second run reads back inode 0, takes the file for rotated and prints both bytes again | store and read the full 64-bit inode (print it as `unsigned long`, read it with `strtoul`) | not executed; high | `MarkerStore.EncodeAsWritten`, `SlowTail.WideInodeIsForgotten` | `MarkerStore.Encode`, `MarkerStore.MarkerRoundTrip` |
| slowtail.c:105 | each `fgets` chunk is printed with `printf("%s")`, which stops at the chunk's first NUL byte | a target holding the bytes `00 0A` and no marker: nothing is printed, but the marker advances to offset 2, so those bytes are never printed | copy the unread bytes verbatim, as the file is binary-safe everywhere else | not executed; medium | `Scanner.PrintedAsWritten`, `Scanner.NulBytesAreLost` | `Scanner.PrintLogs`, `Scanner.Scan` |
