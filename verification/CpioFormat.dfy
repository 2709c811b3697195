/** The "New ASCII Format" of cpio(5): what an entry looks like, and a reader. */
module CpioFormat {
  import opened FileSystem
  import opened Numbers

  /** "070701" */
  const MAGIC: Bytes := [48, 55, 48, 55, 48, 49]

  /** "TRAILER!!!" */
  const TRAILER: Bytes := [84, 82, 65, 73, 76, 69, 82, 33, 33, 33]

  /** The magic number and thirteen words of eight hexadecimal digits. */
  const STATIC_HEADER_LEN := 6 + 8 * 13

  datatype Entry = Entry(
    name: Bytes, ino: u32, mode: u32, uid: u32, gid: u32, nlink: u32, mtime: u32,
    devMajor: u32, devMinor: u32, rdevMajor: u32, rdevMinor: u32, contents: Bytes)

  // ---------------------------------------------------------------------------------------------
  // Padding

  /** How many bytes are missing to the next multiple of four. */
  function PadLength(n: nat): (r: nat)
    ensures r < 4
  {
    if n >= 4 then PadLength(n - 4) else if n == 0 then 0 else 4 - n
  }

  predicate Aligned(n: nat) {
    PadLength(n) == 0
  }

  function Align4(n: nat): (r: nat)
    ensures n <= r < n + 4
  {
    n + PadLength(n)
  }

  function Zeros(n: nat): (z: Bytes)
    ensures |z| == n && forall i :: 0 <= i < n ==> z[i] == 0
  {
    seq(n, _ => 0)
  }

  /** In terms of the remainder. */
  lemma {:induction false} PadIsRemainder(n: nat)
    ensures PadLength(n) == if n % 4 == 0 then 0 else 4 - n % 4
    ensures Aligned(n) <==> n % 4 == 0
  {
    if n >= 4 {
      PadIsRemainder(n - 4);
    }
  }

  /** Padding relative to an aligned position is absolute alignment. */
  lemma {:induction false} PadShift(pos: nat, n: nat)
    requires Aligned(pos)
    ensures PadLength(pos + n) == PadLength(n)
  {
    if pos >= 4 {
      PadShift(pos - 4, n);
    }
  }

  lemma AlignedSum(a: nat, b: nat)
    requires Aligned(a) && Aligned(b)
    ensures Aligned(a + b)
  {
    PadShift(a, b);
  }

  lemma {:induction false} AlignAligns(n: nat)
    ensures Aligned(Align4(n))
  {
    if n >= 4 {
      AlignAligns(n - 4);
    }
  }

  // ---------------------------------------------------------------------------------------------
  // Hexadecimal words

  function Pow16(k: nat): nat {
    if k == 0 then 1 else 16 * Pow16(k - 1)
  }

  function HexDigit(n: nat): byte
    requires n < 16
  {
    if n < 10 then 48 + n else 87 + n
  }

  /** The last `k` hexadecimal digits of `n`, in lower case. */
  function HexDigits(n: nat, k: nat): (s: Bytes)
    ensures |s| == k
  {
    if k == 0 then [] else HexDigits(n / 16, k - 1) + [HexDigit(n % 16)]
  }

  function DigitValue(b: byte): Option<nat> {
    if 48 <= b <= 57 then Some(b - 48)
    else if 97 <= b <= 102 then Some(b - 87)
    else if 65 <= b <= 70 then Some(b - 55)
    else None
  }

  function ParseHex(s: Bytes): Option<nat> {
    if s == [] then Some(0)
    else
      var high := ParseHex(s[..|s| - 1]);
      var low := DigitValue(s[|s| - 1]);
      if high.Some? && low.Some? then Some(16 * high.value + low.value) else None
  }

  lemma {:induction false} HexRoundTrip(n: nat, k: nat)
    requires n < Pow16(k)
    ensures ParseHex(HexDigits(n, k)) == Some(n)
    decreases k
  {
    if k > 0 {
      HexRoundTrip(n / 16, k - 1);
      var s := HexDigits(n, k);
      assert s[..|s| - 1] == HexDigits(n / 16, k - 1);
    }
  }

  function Word(w: u32): Bytes {
    HexDigits(w, 8)
  }

  lemma WordRoundTrip(w: u32)
    ensures ParseHex(Word(w)) == Some(w)
  {
    assert Pow16(8) == U32_LIMIT by {
      assert Pow16(2) == 256;
      assert Pow16(4) == 65536;
      assert Pow16(6) == 16777216;
    }
    HexRoundTrip(w, 8);
  }

  // ---------------------------------------------------------------------------------------------
  // Writing one entry

  /** Name and NUL fit the name-size field, and the contents fit the file-size field. */
  predicate Representable(e: Entry) {
    |e.name| + 1 < U32_LIMIT && |e.contents| < U32_LIMIT
  }

  function Fields(e: Entry): seq<u32>
    requires Representable(e)
  {
    [e.ino, e.mode, e.uid, e.gid, e.nlink, e.mtime, |e.contents|, e.devMajor, e.devMinor, e.rdevMajor, e.rdevMinor,
     |e.name| + 1, 0]
  }

  function Words(ws: seq<u32>): (b: Bytes)
    ensures |b| == 8 * |ws|
  {
    if ws == [] then [] else Words(ws[..|ws| - 1]) + Word(ws[|ws| - 1])
  }

  function HeaderLength(e: Entry): (n: nat)
    ensures STATIC_HEADER_LEN + |e.name| < n
  {
    Align4(STATIC_HEADER_LEN + |e.name| + 1)
  }

  function EntryLength(e: Entry): (n: nat)
    ensures n >= HeaderLength(e) + |e.contents|
  {
    HeaderLength(e) + Align4(|e.contents|)
  }

  lemma EntryAligned(e: Entry)
    ensures Aligned(HeaderLength(e)) && Aligned(EntryLength(e))
  {
    AlignAligns(STATIC_HEADER_LEN + |e.name| + 1);
    AlignAligns(|e.contents|);
    AlignedSum(HeaderLength(e), Align4(|e.contents|));
  }

  function HeaderBytes(e: Entry): (b: Bytes)
    requires Representable(e)
    ensures |b| == HeaderLength(e)
  {
    MAGIC + Words(Fields(e)) + e.name + [0] + Zeros(PadLength(STATIC_HEADER_LEN + |e.name| + 1))
  }

  function EntryBytes(e: Entry): (b: Bytes)
    requires Representable(e)
    ensures |b| == EntryLength(e)
  {
    HeaderBytes(e) + e.contents + Zeros(PadLength(|e.contents|))
  }

  function ArchiveBytes(es: seq<Entry>): (b: Bytes)
    requires forall i :: 0 <= i < |es| ==> Representable(es[i])
  {
    if es == [] then [] else EntryBytes(es[0]) + ArchiveBytes(es[1..])
  }

  function ArchiveLength(es: seq<Entry>): nat {
    if es == [] then 0 else EntryLength(es[0]) + ArchiveLength(es[1..])
  }

  lemma {:induction false} ArchiveAligned(es: seq<Entry>)
    ensures Aligned(ArchiveLength(es))
  {
    if es != [] {
      EntryAligned(es[0]);
      ArchiveAligned(es[1..]);
      AlignedSum(EntryLength(es[0]), ArchiveLength(es[1..]));
    }
  }

  lemma {:induction false} ArchiveBytesLength(es: seq<Entry>)
    requires forall i :: 0 <= i < |es| ==> Representable(es[i])
    ensures |ArchiveBytes(es)| == ArchiveLength(es)
  {
    if es != [] {
      ArchiveBytesLength(es[1..]);
    }
  }

  // ---------------------------------------------------------------------------------------------
  // Reading

  /** The first `n` hexadecimal words at `pos`. */
  function ReadWords(b: Bytes, pos: nat, n: nat): (r: Option<seq<u32>>)
    requires pos + 8 * n <= |b|
    ensures r.Some? ==> |r.value| == n
  {
    if n == 0 then Some([])
    else
      var first := ReadWords(b, pos, n - 1);
      var last := ParseHex(b[pos + 8 * (n - 1)..pos + 8 * n]);
      if first.Some? && last.Some? && last.value < U32_LIMIT then Some(first.value + [last.value]) else None
  }

  datatype ReadResult = NoEntry | ReadEntry(entry: Entry, next: nat)

  /** The entry with header words `ws`, its name between `nameStart` and `nameEnd`, its contents at `dataStart`. */
  function ReadParts(b: Bytes, ws: seq<u32>, nameStart: nat, nameEnd: nat, dataStart: nat, next: nat): (r: ReadResult)
    requires |ws| == 13 && nameStart <= nameEnd <= dataStart && dataStart + ws[6] <= next
    ensures r.ReadEntry? ==> nameStart < r.next <= |b|
  {
    if nameEnd == nameStart || next > |b| || b[nameEnd - 1] != 0 then NoEntry
    else ReadEntry(
      Entry(b[nameStart..nameEnd - 1], ws[0], ws[1], ws[2], ws[3], ws[4], ws[5], ws[7], ws[8], ws[9], ws[10],
            b[dataStart..dataStart + ws[6]]),
      next)
  }

  /** Header, NUL-terminated name and contents, the latter at multiples of four from the start of the archive. */
  function ReadAt(b: Bytes, pos: nat): (r: ReadResult)
    ensures r.ReadEntry? ==> pos < r.next <= |b|
  {
    if pos + STATIC_HEADER_LEN > |b| || b[pos..pos + |MAGIC|] != MAGIC then NoEntry
    else
      match ReadWords(b, pos + |MAGIC|, 13)
      case None => NoEntry
      case Some(ws) =>
        var nameStart := pos + STATIC_HEADER_LEN;
        var nameEnd := nameStart + ws[11];
        var dataStart := Align4(nameEnd);
        ReadParts(b, ws, nameStart, nameEnd, dataStart, Align4(dataStart + ws[6]))
  }

  datatype Listing = Malformed | Listing(entries: seq<Entry>, end: nat)

  /** All entries up to the trailer, and where the archive ends. */
  function ReadArchive(b: Bytes, pos: nat): Listing
    decreases |b| - pos
  {
    match ReadAt(b, pos)
    case NoEntry => Malformed
    case ReadEntry(e, next) =>
      if e.name == TRAILER then Listing([], next)
      else
        match ReadArchive(b, next)
        case Malformed => Malformed
        case Listing(es, end) => Listing([e] + es, end)
  }

  /** The constants of the format, as text. */
  lemma FormatConstants()
    ensures MAGIC == Ascii("070701") && TRAILER == Ascii("TRAILER!!!") && STATIC_HEADER_LEN == 110
  {
    assert MAGIC == [48, 55, 48, 55, 48, 49];
  }

  // ---------------------------------------------------------------------------------------------
  // Reading back what was written

  /** The bytes `x` stand at `pos`. */
  ghost predicate At(b: Bytes, pos: nat, x: Bytes) {
    pos + |x| <= |b| && b[pos..pos + |x|] == x
  }

  lemma AtSplit(b: Bytes, pos: nat, x: Bytes, y: Bytes)
    requires At(b, pos, x + y)
    ensures At(b, pos, x) && At(b, pos + |x|, y)
  {
    assert x == (x + y)[..|x|] == b[pos..pos + |x|];
    assert y == (x + y)[|x|..] == b[pos + |x|..pos + |x| + |y|];
  }

  lemma {:induction false} ReadWordsBack(b: Bytes, pos: nat, ws: seq<u32>)
    requires At(b, pos, Words(ws))
    ensures ReadWords(b, pos, |ws|) == Some(ws)
    decreases |ws|
  {
    if ws != [] {
      var n := |ws| - 1;
      AtSplit(b, pos, Words(ws[..n]), Word(ws[n]));
      ReadWordsBack(b, pos, ws[..n]);
      WordRoundTrip(ws[n]);
      assert ws[..n] + [ws[n]] == ws;
    }
  }

  /** Where the name and the contents of an entry stand. */
  ghost predicate BodyAt(b: Bytes, pos: nat, e: Entry) {
    && pos + EntryLength(e) <= |b|
    && At(b, pos + STATIC_HEADER_LEN, e.name) && At(b, pos + STATIC_HEADER_LEN + |e.name|, [0])
    && At(b, pos + HeaderLength(e), e.contents)
  }

  lemma EntryParts(b: Bytes, pos: nat, e: Entry)
    requires Representable(e) && At(b, pos, EntryBytes(e))
    ensures At(b, pos, MAGIC) && At(b, pos + |MAGIC|, Words(Fields(e))) && BodyAt(b, pos, e)
  {
    var pad := Zeros(PadLength(STATIC_HEADER_LEN + |e.name| + 1));
    var ws := Words(Fields(e));
    AtSplit(b, pos, HeaderBytes(e) + e.contents, Zeros(PadLength(|e.contents|)));
    AtSplit(b, pos, HeaderBytes(e), e.contents);
    AtSplit(b, pos, MAGIC + ws + e.name + [0], pad);
    AtSplit(b, pos, MAGIC + ws + e.name, [0]);
    AtSplit(b, pos, MAGIC + ws, e.name);
    AtSplit(b, pos, MAGIC, ws);
  }

  lemma EntryReadable(b: Bytes, pos: nat, e: Entry)
    requires Representable(e) && At(b, pos, EntryBytes(e))
    ensures At(b, pos, MAGIC) && BodyAt(b, pos, e) && ReadWords(b, pos + |MAGIC|, 13) == Some(Fields(e))
  {
    EntryParts(b, pos, e);
    ReadWordsBack(b, pos + |MAGIC|, Fields(e));
  }

  lemma FieldsNamed(e: Entry)
    requires Representable(e)
    ensures var f := Fields(e);
      && |f| == 13 && f[0] == e.ino && f[1] == e.mode && f[2] == e.uid && f[3] == e.gid
      && f[4] == e.nlink && f[5] == e.mtime
      && f[6] == |e.contents| && f[7] == e.devMajor && f[8] == e.devMinor && f[9] == e.rdevMajor && f[10] == e.rdevMinor
      && f[11] == |e.name| + 1
  {
  }

  lemma AlignedParts(pos: nat, e: Entry)
    requires Aligned(pos)
    ensures Align4(pos + STATIC_HEADER_LEN + |e.name| + 1) == pos + HeaderLength(e)
    ensures Align4(pos + HeaderLength(e) + |e.contents|) == pos + EntryLength(e)
  {
    PadShift(pos, STATIC_HEADER_LEN + |e.name| + 1);
    EntryAligned(e);
    AlignedSum(pos, HeaderLength(e));
    PadShift(pos + HeaderLength(e), |e.contents|);
  }

  lemma PartsBack(b: Bytes, pos: nat, e: Entry)
    requires Representable(e) && BodyAt(b, pos, e)
    ensures ReadParts(b, Fields(e), pos + STATIC_HEADER_LEN, pos + STATIC_HEADER_LEN + |e.name| + 1,
                      pos + HeaderLength(e), pos + EntryLength(e))
         == ReadEntry(e, pos + EntryLength(e))
  {
    FieldsNamed(e);
    var nameEnd := pos + STATIC_HEADER_LEN + |e.name| + 1;
    assert b[nameEnd - 1] == b[nameEnd - 1..nameEnd][0] == 0;
  }

  lemma ReadWith(b: Bytes, pos: nat, ws: seq<u32>, dataStart: nat, next: nat)
    requires pos + STATIC_HEADER_LEN <= |b| && At(b, pos, MAGIC) && |ws| == 13
    requires ReadWords(b, pos + |MAGIC|, 13) == Some(ws)
    requires dataStart == Align4(pos + STATIC_HEADER_LEN + ws[11]) && next == Align4(dataStart + ws[6])
    ensures ReadAt(b, pos) ==
      ReadParts(b, ws, pos + STATIC_HEADER_LEN, pos + STATIC_HEADER_LEN + ws[11], dataStart, next)
  {
  }

  /** An entry at an aligned position is read back exactly. */
  lemma ReadBack(b: Bytes, pos: nat, e: Entry)
    requires Aligned(pos) && Representable(e) && BodyAt(b, pos, e)
    requires At(b, pos, MAGIC) && ReadWords(b, pos + |MAGIC|, 13) == Some(Fields(e))
    ensures ReadAt(b, pos) == ReadEntry(e, pos + EntryLength(e))
  {
    PartsBack(b, pos, e);
    FieldsNamed(e);
    AlignedParts(pos, e);
    ReadWith(b, pos, Fields(e), pos + HeaderLength(e), pos + EntryLength(e));
  }

  lemma HeadTail<T>(s: seq<T>)
    requires s != []
    ensures s == [s[0]] + s[1..]
  {
  }

  predicate Packable(es: seq<Entry>) {
    forall i :: 0 <= i < |es| ==> Representable(es[i]) && es[i].name != TRAILER
  }

  lemma FirstEntryBack(b: Bytes, pos: nat, e: Entry, rest: Bytes)
    requires Aligned(pos) && Representable(e) && At(b, pos, EntryBytes(e) + rest)
    ensures ReadAt(b, pos) == ReadEntry(e, pos + EntryLength(e))
    ensures At(b, pos + EntryLength(e), rest) && Aligned(pos + EntryLength(e))
  {
    hide ReadAt, EntryBytes, ReadWords, Fields;
    AtSplit(b, pos, EntryBytes(e), rest);
    EntryReadable(b, pos, e);
    ReadBack(b, pos, e);
    EntryAligned(e);
    AlignedSum(pos, EntryLength(e));
  }

  /** The entries `es` are found one after the other from `pos` on. */
  ghost predicate ListedAt(b: Bytes, pos: nat, es: seq<Entry>)
    decreases |es|
  {
    es != [] ==>
      && ReadAt(b, pos) == ReadEntry(es[0], pos + EntryLength(es[0]))
      && ListedAt(b, pos + EntryLength(es[0]), es[1..])
  }

  lemma {:induction false} ArchiveListed(b: Bytes, pos: nat, es: seq<Entry>)
    requires Aligned(pos) && Packable(es) && At(b, pos, ArchiveBytes(es))
    ensures ListedAt(b, pos, es)
    decreases |es|
  {
    hide EntryBytes, EntryLength, ReadAt;
    if es != [] {
      FirstEntryBack(b, pos, es[0], ArchiveBytes(es[1..]));
      ArchiveListed(b, pos + EntryLength(es[0]), es[1..]);
    }
  }

  lemma {:induction false} ListedIsRead(b: Bytes, pos: nat, es: seq<Entry>, trailer: Entry)
    requires ListedAt(b, pos, es) && Packable(es) && trailer.name == TRAILER
    requires var last := pos + ArchiveLength(es); ReadAt(b, last) == ReadEntry(trailer, last + EntryLength(trailer))
    ensures ReadArchive(b, pos) == Listing(es, pos + ArchiveLength(es) + EntryLength(trailer))
    decreases |es|
  {
    hide ReadAt, EntryLength;
    if es != [] {
      ListedIsRead(b, pos + EntryLength(es[0]), es[1..], trailer);
      HeadTail(es);
    }
  }

  /** Wherever it stands, an archive is listed entry by entry and left at its very end. */
  lemma ReadArchiveBack(b: Bytes, pos: nat, es: seq<Entry>, trailer: Entry)
    requires Aligned(pos) && Packable(es) && Representable(trailer) && trailer.name == TRAILER
    requires At(b, pos, ArchiveBytes(es) + EntryBytes(trailer))
    ensures ReadArchive(b, pos) == Listing(es, pos + ArchiveLength(es) + EntryLength(trailer))
  {
    hide ReadAt, EntryBytes, ArchiveBytes, ReadArchive, ReadWords, EntryLength, Fields;
    AtSplit(b, pos, ArchiveBytes(es), EntryBytes(trailer));
    ArchiveBytesLength(es);
    ArchiveListed(b, pos, es);
    ArchiveAligned(es);
    AlignedSum(pos, ArchiveLength(es));
    EntryReadable(b, pos + ArchiveLength(es), trailer);
    ReadBack(b, pos + ArchiveLength(es), trailer);
    ListedIsRead(b, pos, es, trailer);
  }
}
