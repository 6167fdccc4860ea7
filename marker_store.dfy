/** The marker store: the sidecar file that remembers, between invocations,
    which file was tailed (its inode) and how far (a byte offset). This module
    holds the marker's text format, `read_offset` and `write_offset`. */
module MarkerStore {
  import opened Os

  /** The persisted pair `(inode, offset)`. */
  datatype Marker = Marker(ino: nat, offset: nat)

  /** What `read_offset` reports when there is no marker file yet. */
  const ZERO: Marker := Marker(0, 0)

  /** One more than the largest `unsigned int`. */
  const UINT_LIMIT: nat := 0x1_0000_0000

  // ---------------------------------------------------------------------------
  // Decimal numerals

  predicate IsDigit(b: byte) {
    '0' as byte <= b <= '9' as byte
  }

  predicate AllDigits(s: seq<byte>) {
    forall i :: 0 <= i < |s| ==> IsDigit(s[i])
  }

  /** The value of a string of decimal digits. */
  function Value(s: seq<byte>): nat
    requires AllDigits(s)
  {
    if s == [] then 0 else 10 * Value(s[..|s| - 1]) + (s[|s| - 1] as int - '0' as int)
  }

  /** The decimal numeral of `n` without leading zeros, as `printf("%u")` and
      `printf("%ld")` write it. */
  function Digits(n: nat): (s: seq<byte>)
    ensures s != [] && AllDigits(s)
    ensures Value(s) == n
    ensures s[0] == '0' as byte ==> n == 0 && |s| == 1
    decreases n
  {
    if n < 10 then [('0' as int + n) as byte]
    else
      var s := Digits(n / 10) + [('0' as int + n % 10) as byte];
      assert s[..|s| - 1] == Digits(n / 10);
      s
  }

  function Pow10(k: nat): (p: nat)
    ensures p >= 1
  {
    if k == 0 then 1 else 10 * Pow10(k - 1)
  }

  lemma {:induction false} Pow10Add(a: nat, b: nat)
    ensures Pow10(a + b) == Pow10(a) * Pow10(b)
    decreases a
  {
    if a > 0 {
      Pow10Add(a - 1, b);
    }
  }

  /** A number below `10^k` has at most `k` digits. */
  lemma {:induction false} DigitsLength(n: nat, k: nat)
    requires k > 0 && n < Pow10(k)
    ensures |Digits(n)| <= k
    decreases k
  {
    if n >= 10 {
      assert k > 1;
      assert n / 10 < Pow10(k - 1);
      DigitsLength(n / 10, k - 1);
    }
  }

  /** Every 64-bit value is written in at most 20 digits. */
  lemma ShortNumeral(n: nat)
    requires n <= ULONG_MAX
    ensures |Digits(n)| <= 20
  {
    Pow10Add(10, 10);
    assert Pow10(10) == 10_000_000_000;
    DigitsLength(n, 20);
  }

  /** How many decimal digits `s` starts with: where `strtol` stops. */
  function DigitRun(s: seq<byte>): (k: nat)
    ensures k <= |s| && AllDigits(s[..k])
    ensures k < |s| ==> !IsDigit(s[k])
  {
    if s == [] || !IsDigit(s[0]) then 0 else 1 + DigitRun(s[1..])
  }

  /** `strtol` and `strtoul` saturate at the largest value of their type. */
  function Saturate(v: nat, max: nat): (r: nat)
    ensures r <= max && r <= v
    ensures v <= max ==> r == v
    ensures v > max ==> r == max
  {
    if v > max then max else v
  }

  // ---------------------------------------------------------------------------
  // The marker line

  /** The line `"<inode> <offset>\n"`, short enough for the 4096-byte buffer when both numbers fit
      64 bits. */
  function Line(ino: nat, offset: nat): (s: seq<byte>)
    ensures s != [] && s[|s| - 1] == NL
    ensures ino <= ULONG_MAX && offset <= ULONG_MAX ==> |s| <= 42 < MAX_BUF - 1
  {
    var s := Digits(ino) + [SPACE] + Digits(offset) + [NL];
    // The test only brings `ShortNumeral`'s bound into scope for the second ensures.
    if ino <= ULONG_MAX && offset <= ULONG_MAX then ShortNumeral(ino); ShortNumeral(offset); s else s
  }

  /** Distinct inodes give distinct lines: the line determines what it was
      written from. */
  lemma LineDeterminesInode(a: nat, b: nat, offset: nat)
    requires a <= ULONG_MAX && b <= ULONG_MAX && offset <= LONG_MAX
    requires Line(a, offset) == Line(b, offset)
    ensures a == b
  {
    LineRoundTrip(a, offset, ULONG_MAX);
    LineRoundTrip(b, offset, ULONG_MAX);
  }

  /** What `write_offset` writes, with the inode written in full (`%lu`): the
      line of the inode and the offset, as `LineRoundTrip` reads it back. */
  function Encode(m: Marker): (s: seq<byte>)
    ensures s != [] && s[|s| - 1] == NL
  {
    Line(m.ino, m.offset)
  }

  /** What `write_offset` writes as the source has it: the inode goes through
      an `(unsigned int)` cast before `%u`, which keeps only its low 32 bits.
      It agrees with `Encode` exactly on the inodes below 2^32. */
  function EncodeAsWritten(m: Marker): (s: seq<byte>)
    ensures s != [] && s[|s| - 1] == NL
    ensures m.ino <= ULONG_MAX && m.offset <= LONG_MAX ==> (s == Encode(m) <==> m.ino < UINT_LIMIT)
  {
    var s := Line(m.ino % UINT_LIMIT, m.offset);
    // The test only brings `LineDeterminesInode` into scope for the second ensures.
    if m.ino <= ULONG_MAX && m.offset <= LONG_MAX && s == Encode(m) then
      LineDeterminesInode(m.ino % UINT_LIMIT, m.ino, m.offset); s
    else s
  }

  /** Parses a marker line whose inode field saturates at `inoMax`: `strchr`
      finds the space that ends the inode's digits, each field is read as
      `strtol` reads digits, and what follows the offset's digits is ignored.
      A line not made of digits, a space and digits is `None`. */
  function ParseWith(line: seq<byte>, inoMax: nat): (r: Option<Marker>)
    ensures r.Some? ==> r.value.ino <= inoMax && r.value.offset <= LONG_MAX
    ensures r.Some? ==> exists k :: 0 < k < |line| && line[k] == SPACE && AllDigits(line[..k])
    ensures r.Some? <==> var k := DigitRun(line); 0 < k < |line| && line[k] == SPACE && DigitRun(line[k + 1..]) > 0
  {
    var k := DigitRun(line);
    if k == 0 || k == |line| || line[k] != SPACE then None
    else
      var rest := line[k + 1..];
      var j := DigitRun(rest);
      if j == 0 then None
      else Some(Marker(Saturate(Value(line[..k]), inoMax), Saturate(Value(rest[..j]), LONG_MAX)))
  }

  /** The reader that matches `Encode`: the inode is read with `strtoul`. */
  function Parse(line: seq<byte>): (r: Option<Marker>)
    ensures r.Some? ==> r.value.ino <= ULONG_MAX && r.value.offset <= LONG_MAX
  {
    ParseWith(line, ULONG_MAX)
  }

  /** The reader as the source has it: both fields are read with `strtol`. */
  function ParseAsWritten(line: seq<byte>): (r: Option<Marker>)
    ensures r.Some? ==> r.value.ino <= LONG_MAX && r.value.offset <= LONG_MAX
  {
    ParseWith(line, LONG_MAX)
  }

  /** `strtol` on a numeral followed by a non-digit reads exactly that numeral. */
  lemma DigitRunOfNumeral(d: seq<byte>, rest: seq<byte>)
    requires AllDigits(d)
    requires rest == [] || !IsDigit(rest[0])
    ensures DigitRun(d + rest) == |d|
    ensures (d + rest)[..|d|] == d
  {
  }

  /** A numeral followed by a space ends where the space is. */
  lemma FirstField(d: seq<byte>, tail: seq<byte>, line: seq<byte>)
    requires AllDigits(d) && line == d + [SPACE] + tail
    ensures DigitRun(line) == |d| && line[..|d|] == d
    ensures |d| < |line| && line[|d|] == SPACE && line[|d| + 1..] == tail
  {
    assert line == d + ([SPACE] + tail);
    DigitRunOfNumeral(d, [SPACE] + tail);
  }

  /** Where the two runs of digits of a parsed line are. */
  lemma FieldsAt(line: seq<byte>, k: nat, j: nat, inoMax: nat)
    requires 0 < k < |line| && DigitRun(line) == k && line[k] == SPACE
    requires 0 < j && DigitRun(line[k + 1..]) == j
    ensures ParseWith(line, inoMax)
              == Some(Marker(Saturate(Value(line[..k]), inoMax), Saturate(Value(line[k + 1..][..j]), LONG_MAX)))
  {
  }

  /** A line of digits, a space and digits reads as those two numbers, each
      saturated, whatever follows the second run of digits. */
  lemma ParsedFields(d1: seq<byte>, d2: seq<byte>, rest: seq<byte>, inoMax: nat)
    requires AllDigits(d1) && AllDigits(d2) && d1 != [] && d2 != []
    requires rest == [] || !IsDigit(rest[0])
    ensures ParseWith(d1 + [SPACE] + d2 + rest, inoMax)
              == Some(Marker(Saturate(Value(d1), inoMax), Saturate(Value(d2), LONG_MAX)))
  {
    var line := d1 + [SPACE] + d2 + rest;
    FirstField(d1, d2 + rest, line);
    DigitRunOfNumeral(d2, rest);
    FieldsAt(line, |d1|, |d2|, inoMax);
  }

  /** Reading back a marker line gives the pair it was written from. */
  lemma {:induction false} LineRoundTrip(ino: nat, offset: nat, inoMax: nat)
    requires ino <= inoMax && ino <= ULONG_MAX && offset <= LONG_MAX
    ensures ParseWith(FirstLine(Line(ino, offset)), inoMax) == Some(Marker(ino, offset))
  {
    var a, b := Digits(ino), Digits(offset);
    var s := Line(ino, offset);
    assert s == (a + [SPACE] + b) + [NL];
    WholeLine(a + [SPACE] + b);
    assert s == a + [SPACE] + b + [NL];
    ParsedFields(a, b, [NL], inoMax);
  }

  /** The marker line is a single line: its only newline is its last byte, so
      one `fgets` call reads all of it. */
  lemma LineIsOneLine(ino: nat, offset: nat)
    requires ino <= ULONG_MAX && offset <= ULONG_MAX
    ensures FirstLine(Line(ino, offset)) == Line(ino, offset)
  {
    var a, b := Digits(ino), Digits(offset);
    assert Line(ino, offset) == (a + [SPACE] + b) + [NL];
    WholeLine(a + [SPACE] + b);
  }

  /** Round trip of the marker format: the pair `write_offset` writes is the
      pair `read_offset` reads back. */
  lemma MarkerRoundTrip(m: Marker)
    requires m.ino <= ULONG_MAX && m.offset <= LONG_MAX
    ensures Parse(FirstLine(Encode(m))) == Some(m)
  {
    LineRoundTrip(m.ino, m.offset, ULONG_MAX);
  }

  /** The source's round trip keeps the offset but only the low 32 bits of the
      inode. */
  lemma AsWrittenRoundTrip(m: Marker)
    requires m.offset <= LONG_MAX
    ensures ParseAsWritten(FirstLine(EncodeAsWritten(m))) == Some(Marker(m.ino % UINT_LIMIT, m.offset))
  {
    LineRoundTrip(m.ino % UINT_LIMIT, m.offset, LONG_MAX);
  }

  // ---------------------------------------------------------------------------
  // The marker file

  /** The outcome of `read_offset` on the filesystem `fs`: a missing marker file
      is the first run, a file that cannot be opened or read is an error. */
  function LoadMarker(fs: FileMap, path: Path): (r: Result<Marker>)
    ensures path !in fs ==> r == Ok(ZERO)
    ensures path in fs && !fs[path].readable ==> r == Err(PermissionDenied)
    ensures r.Ok? ==> r.value.ino <= ULONG_MAX && r.value.offset <= LONG_MAX
    ensures path in fs && fs[path].readable ==> (FirstLine(fs[path].data) == [] <==> r == Err(NoData))
    ensures path in fs && fs[path].readable && FirstLine(fs[path].data) != [] ==>
              (r == Err(Malformed) <==> Parse(FirstLine(fs[path].data)).None?)
    ensures r.Ok? && path in fs ==> Parse(FirstLine(fs[path].data)) == Some(r.value)
    ensures path in fs && fs[path].readable && Parse(FirstLine(fs[path].data)).Some? ==>
              r == Ok(Parse(FirstLine(fs[path].data)).value)
  {
    if path !in fs then Ok(ZERO)
    else if !fs[path].readable then Err(PermissionDenied)
    else
      var line := FirstLine(fs[path].data);
      if line == [] then Err(NoData)
      else match Parse(line)
        case None => Err(Malformed)
        case Some(m) => Ok(m)
  }

  /** The outcome of `write_offset`: the marker file is created if absent (with
      the inode number `newIno` the system hands out) or truncated and rewritten,
      and nothing else in the filesystem changes. */
  function StoreMarker(fs: FileMap, path: Path, m: Marker, newIno: Ino): (r: Result<FileMap>)
    ensures r.Err? <==> path in fs && !fs[path].writable
    ensures r.Err? ==> r.error == PermissionDenied
    ensures r.Ok? ==> r.value.Keys == fs.Keys + {path}
    ensures r.Ok? ==> r.value[path].data == Encode(m) && r.value[path].writable
    ensures r.Ok? ==> r.value[path].readable == (path !in fs || fs[path].readable)
    ensures r.Ok? ==> forall p :: p in fs && p != path ==> r.value[p] == fs[p]
  {
    if path in fs && !fs[path].writable then Err(PermissionDenied)
    else if path in fs then Ok(fs[path := fs[path].(data := Encode(m))])
    else Ok(fs[path := Node(newIno, Encode(m), true, true)])
  }

  /** What `write_offset` stores, `read_offset` loads. */
  lemma StoreThenLoad(fs: FileMap, path: Path, m: Marker, newIno: Ino)
    requires StoreMarker(fs, path, m, newIno).Ok?
    requires path in fs ==> fs[path].readable
    requires m.ino <= ULONG_MAX && m.offset <= LONG_MAX
    ensures LoadMarker(StoreMarker(fs, path, m, newIno).value, path) == Ok(m)
  {
    MarkerRoundTrip(m);
  }

  /** `read_offset`: zeroes its out-parameters, then returns early on every
      failure; only a fully parsed line overwrites them. */
  method ReadOffset(fs: FileMap, path: Path) returns (status: Status, m: Marker)
    ensures status.Success? <==> LoadMarker(fs, path).Ok?
    ensures status.Success? ==> m == LoadMarker(fs, path).value
    ensures status.Failure? ==> LoadMarker(fs, path) == Err(status.error) && m == ZERO
  {
    m := ZERO;
    status := Success;
    if path !in fs {
      return;
    }
    var f := fs[path];
    if !f.readable {
      status := Failure(PermissionDenied);
      return;
    }
    var line := FirstLine(f.data);
    if line == [] {
      status := Failure(NoData);
      return;
    }
    match Parse(line)
    case None =>
      status := Failure(Malformed);
    case Some(parsed) =>
      m := parsed;
  }

  /** `write_offset`: opens the marker file for writing and writes one line. */
  method WriteOffset(fs: FileMap, path: Path, m: Marker, newIno: Ino) returns (status: Status, fs': FileMap)
    ensures status.Success? <==> StoreMarker(fs, path, m, newIno).Ok?
    ensures status.Success? ==> fs' == StoreMarker(fs, path, m, newIno).value
    ensures status.Failure? ==> status.error == StoreMarker(fs, path, m, newIno).error && fs' == fs
  {
    fs' := fs;
    if path in fs && !fs[path].writable {
      status := Failure(PermissionDenied);
      return;
    }
    var f := if path in fs then fs[path] else Node(newIno, [], true, true);
    fs' := fs[path := f.(data := Encode(m))];
    status := Success;
  }
}
