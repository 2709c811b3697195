/** The archive writer of `rust/uefi/pio/src/writer.rs`, on a 64-bit `usize`. */
module CpioWriter {
  import opened FileSystem
  import opened Numbers
  import opened CpioFormat
  import opened EfiPaths

  const USIZE_MAX := 0xFFFF_FFFF_FFFF_FFFF
  const U32_MAX := 0xFFFF_FFFF

  const SLASH: byte := 47

  // ---------------------------------------------------------------------------------------------
  // Alignment

  /** Bitwise "and" of natural numbers. */
  function And(x: nat, y: nat): nat {
    if x == 0 || y == 0 then 0 else 2 * And(x / 2, y / 2) + (x % 2) * (y % 2)
  }

  /** `align::<4>`: saturates instead of overflowing. */
  function Align(value: nat): nat {
    if value > USIZE_MAX - 3 then USIZE_MAX else And(value + 3, USIZE_MAX - 3)
  }

  lemma {:induction false} AndOnes(x: nat, k: nat)
    requires x < Pow2(k)
    ensures And(x, Pow2(k) - 1) == x
    decreases k
  {
    if k > 0 && x > 0 {
      AndOnes(x / 2, k - 1);
    }
  }

  lemma And64(x: nat)
    requires x <= USIZE_MAX
    ensures And(x, USIZE_MAX - 3) == x - x % 4
  {
    assert Pow2(62) == 0x4000_0000_0000_0000 by {
      PowTable();
    }
    AndOnes(x / 4, 62);
    assert (USIZE_MAX - 3) / 2 == 0x7FFF_FFFF_FFFF_FFFE && (USIZE_MAX - 3) % 2 == 0;
    assert 0x7FFF_FFFF_FFFF_FFFE / 2 == 0x3FFF_FFFF_FFFF_FFFF;
    AndHalf(x, USIZE_MAX - 3);
    AndHalf(x / 2, 0x7FFF_FFFF_FFFF_FFFE);
    assert x / 2 / 2 == x / 4;
  }

  lemma AndHalf(x: nat, y: nat)
    requires y % 2 == 0
    ensures And(x, y) == 2 * And(x / 2, y / 2)
  {
  }

  lemma PowTable()
    ensures Pow2(62) == 0x4000_0000_0000_0000
  {
    hide Pow2;
    PowSum(31, 31);
    PowSum(16, 15);
    PowSum(8, 8);
    PowSum(8, 7);
    SmallPowers();
  }

  lemma SmallPowers()
    ensures Pow2(7) == 128 && Pow2(8) == 256
  {
  }

  /** The mask computes the arithmetic round-up, which is what padding reaches. */
  lemma AlignIsRoundUp(value: nat)
    requires value <= USIZE_MAX - 3
    ensures Align(value) == Align4(value) && Align(value) % 4 == 0 && value <= Align(value) < value + 4
  {
    hide And, PadLength;
    And64(value + 3);
    PadIsRemainder(value);
    RoundUp(value);
  }

  lemma RoundUp(n: nat)
    ensures n + 3 - (n + 3) % 4 == n + if n % 4 == 0 then 0 else 4 - n % 4
  {
  }

  /** `compute_pad4`. */
  function ComputePad4(len: nat): Option<Bytes> {
    var overhang := len % 4;
    if overhang != 0 then Some(Zeros(4 - overhang)) else None
  }

  lemma ComputePad4Aligns(len: nat)
    ensures ComputePad4(len) == if Aligned(len) then None else Some(Zeros(PadLength(len)))
  {
    PadIsRemainder(len);
  }

  // ---------------------------------------------------------------------------------------------
  // One call

  datatype Archive = Archive(buffer: Bytes, inodes: nat)

  const EMPTY := Archive([], 0)

  /** `Panicked` is the failed conversion of the name size to 32 bits. */
  datatype Outcome =
    | Written(bytes: nat)
    | TooLargeFileSize(got: nat)
    | MaximumInodesReached
    | MaximumArchiveReached
    | Panicked

  const S_IFREG: bv32 := 0x8000
  const S_IFDIR: bv32 := 0x4000

  /** Everything but name, inode, mode and contents is fixed. */
  function PlainEntry(name: Bytes, ino: u32, mode: bv32, contents: Bytes): Entry {
    Entry(name, ino, mode as u32, 0, 0, 1, 0, 0, 0, 0, 0, contents)
  }

  function FullName(prefix: Bytes, fname: Bytes): Bytes {
    if prefix != [] then prefix + [SLASH] + fname else fname
  }

  /** The guards of `pack_one`, in their order; `Written` carries the pre-computed size. */
  function CheckOne(a: Archive, fname: Bytes, contents: Bytes, prefix: Bytes): Outcome {
    if |contents| > U32_MAX then TooLargeFileSize(|contents|)
    else if a.inodes == U32_MAX then MaximumInodesReached
    else if STATIC_HEADER_LEN + 1 + |prefix| > USIZE_MAX then MaximumArchiveReached
    else if STATIC_HEADER_LEN + 1 + |prefix| + |fname| > USIZE_MAX then MaximumArchiveReached
    else if |prefix| + |fname| >= U32_MAX then MaximumArchiveReached
    else
      var header := Align(STATIC_HEADER_LEN + 1 + |prefix| + |fname|);
      var data := Align(|contents|);
      if header == USIZE_MAX || data == USIZE_MAX || header > USIZE_MAX - data then MaximumArchiveReached
      else if |a.buffer| > USIZE_MAX - (header + data) then MaximumArchiveReached
      else Written(header + data)
  }

  function PackEntry(a: Archive, name: Bytes, mode: bv32, contents: Bytes): (Archive, Outcome)
    requires a.inodes < U32_MAX && |contents| <= U32_MAX
  {
    var e := PlainEntry(name, a.inodes + 1, mode, contents);
    if |name| + 1 > U32_MAX then (a.(inodes := a.inodes + 1), Panicked)
    else (Archive(a.buffer + EntryBytes(e), a.inodes + 1), Written(EntryLength(e)))
  }

  function PackOne(a: Archive, fname: Bytes, contents: Bytes, prefix: Bytes, accessMode: bv32): (Archive, Outcome)
    requires a.inodes <= U32_MAX
  {
    var checked := CheckOne(a, fname, contents, prefix);
    if !checked.Written? then (a, checked)
    else PackEntry(a, FullName(prefix, fname), accessMode | S_IFREG, contents)
  }

  /** The guards of `pack_dir`; the estimate is never compared with saturation. */
  function CheckDir(a: Archive, path: Bytes): Outcome {
    if a.inodes == U32_MAX then MaximumInodesReached
    else if STATIC_HEADER_LEN + |path| > USIZE_MAX then MaximumArchiveReached
    else
      var header := Align(STATIC_HEADER_LEN + |path|);
      if |a.buffer| == USIZE_MAX || |a.buffer| > USIZE_MAX - header then MaximumArchiveReached
      else Written(header)
  }

  function PackDir(a: Archive, path: Bytes, accessMode: bv32): (Archive, Outcome)
    requires a.inodes <= U32_MAX
  {
    var checked := CheckDir(a, path);
    if !checked.Written? then (a, checked) else PackEntry(a, path, accessMode | S_IFDIR, [])
  }

  const PARENT_MODE: bv32 := 0x16D

  /** "/c1", "/c1/c2", ... */
  function Rooted(components: seq<Bytes>): Bytes {
    if components == [] then [] else Rooted(components[..|components| - 1]) + [SLASH] + components[|components| - 1]
  }

  /** The directories of the first `n` prefixes of a path, as long as each succeeds. */
  function PackDirs(a: Archive, components: seq<Bytes>, dirMode: bv32, n: nat): (r: (Archive, Outcome))
    requires a.inodes <= U32_MAX && n <= |components|
    ensures r.0.inodes <= U32_MAX
  {
    if n == 0 then (a, Written(0))
    else
      var (b, earlier) := PackDirs(a, components, dirMode, n - 1);
      if !earlier.Written? then (b, earlier)
      else PackDir(b, Rooted(components[..n]), if n < |components| then PARENT_MODE else dirMode)
  }

  function PackPrefix(a: Archive, path: Bytes, dirMode: bv32): (Archive, Outcome)
    requires a.inodes <= U32_MAX
  {
    var components := Split(path, SLASH);
    PackDirs(a, components, dirMode, |components|)
  }

  function PackTrailer(a: Archive): (Archive, Outcome)
    requires a.inodes <= U32_MAX
  {
    PackOne(a, TRAILER, [], [], 0)
  }

  // ---------------------------------------------------------------------------------------------
  // Accounting

  /** `pack_one` panics exactly when prefix and file name leave no room for the separator and the NUL. */
  lemma PackOnePanics(a: Archive, fname: Bytes, contents: Bytes, prefix: Bytes, accessMode: bv32)
    requires a.inodes <= U32_MAX
    ensures PackOne(a, fname, contents, prefix, accessMode).1 == Panicked <==>
            CheckOne(a, fname, contents, prefix).Written? && prefix != [] && |prefix| + |fname| == U32_MAX - 1
  {
  }

  /** A failing call leaves the archive as it was; a successful one appends exactly the bytes it reports. */
  lemma PackOneAccounts(a: Archive, fname: Bytes, contents: Bytes, prefix: Bytes, accessMode: bv32)
    requires a.inodes <= U32_MAX
    ensures var (b, r) := PackOne(a, fname, contents, prefix, accessMode);
      && (!r.Written? && !r.Panicked? ==> b == a)
      && (r.Written? ==>
          |b.buffer| == |a.buffer| + r.bytes && a.buffer <= b.buffer && b.inodes == a.inodes + 1 <= U32_MAX)
      && (r.Panicked? ==> b.buffer == a.buffer)
  {
  }

  lemma PackDirAccounts(a: Archive, path: Bytes, accessMode: bv32)
    requires a.inodes <= U32_MAX
    ensures var (b, r) := PackDir(a, path, accessMode);
      && (!r.Written? && !r.Panicked? ==> b == a)
      && (r.Written? ==>
          |b.buffer| == |a.buffer| + r.bytes && a.buffer <= b.buffer && b.inodes == a.inodes + 1 <= U32_MAX)
      && (r.Panicked? <==> CheckDir(a, path).Written? && |path| >= U32_MAX)
  {
  }

  /** One byte more is four bytes more exactly after a full group. */
  lemma NextGroup(n: nat)
    ensures Align4(n + 1) == Align4(n) + (if n % 4 == 0 then 4 else 0) && Align4(0) == 0
  {
    PadIsRemainder(n);
    PadIsRemainder(n + 1);
    assert (n + 1) % 4 == if n % 4 == 3 then 0 else n % 4 + 1;
  }

  /** The size that `pack_one` checks beforehand is the size it appends, or exactly four bytes less: the
      latter when a prefix is given and the forgotten NUL starts a new group of four. */
  lemma EstimateOne(a: Archive, fname: Bytes, contents: Bytes, prefix: Bytes, accessMode: bv32)
    requires a.inodes <= U32_MAX
    requires PackOne(a, fname, contents, prefix, accessMode).1.Written?
    ensures var estimate := CheckOne(a, fname, contents, prefix).bytes;
      var actual := PackOne(a, fname, contents, prefix, accessMode).1.bytes;
      actual == estimate + (if prefix != [] && (STATIC_HEADER_LEN + 1 + |prefix| + |fname|) % 4 == 0 then 4 else 0)
  {
    hide Align, Align4, EntryBytes;
    var n := STATIC_HEADER_LEN + 1 + |prefix| + |fname|;
    AlignIsRoundUp(n);
    AlignIsRoundUp(|contents|);
    NextGroup(n);
  }

  lemma EstimateDir(a: Archive, path: Bytes, accessMode: bv32)
    requires a.inodes <= U32_MAX && PackDir(a, path, accessMode).1.Written?
    ensures var estimate, actual := CheckDir(a, path).bytes, PackDir(a, path, accessMode).1.bytes;
      actual == estimate + (if (STATIC_HEADER_LEN + |path|) % 4 == 0 then 4 else 0)
  {
    hide Align, Align4, EntryBytes;
    AlignIsRoundUp(STATIC_HEADER_LEN + |path|);
    NextGroup(STATIC_HEADER_LEN + |path|);
  }

  /** The permission bits are kept, and the type is the intended one exactly if no other type bit was given. */
  lemma ModeBits(accessMode: bv32)
    ensures (accessMode | S_IFREG) & 0xFFF == accessMode & 0xFFF && (accessMode | S_IFDIR) & 0xFFF == accessMode & 0xFFF
    ensures (accessMode | S_IFREG) & 0xF000 == S_IFREG <==> accessMode & 0x7000 == 0
    ensures (accessMode | S_IFDIR) & 0xF000 == S_IFDIR <==> accessMode & 0xB000 == 0
  {
  }

  // ---------------------------------------------------------------------------------------------
  // A whole archive

  datatype Op =
    | Prefix(path: Bytes, dirMode: bv32)
    | One(fname: Bytes, contents: Bytes, prefix: Bytes, accessMode: bv32)

  function Apply(a: Archive, op: Op): (r: (Archive, Outcome))
    requires a.inodes <= U32_MAX
    ensures r.0.inodes <= U32_MAX
  {
    match op
    case Prefix(path, mode) => PackPrefix(a, path, mode)
    case One(fname, contents, prefix, mode) => PackOne(a, fname, contents, prefix, mode)
  }

  /** The archive after all calls, if all of them succeed. */
  function ApplyAll(ops: seq<Op>): (r: Option<Archive>)
    ensures r.Some? ==> r.value.inodes <= U32_MAX
  {
    if ops == [] then Some(EMPTY)
    else
      var earlier := ApplyAll(ops[..|ops| - 1]);
      if earlier.None? then None
      else
        var (b, r) := Apply(earlier.value, ops[|ops| - 1]);
        if r.Written? then Some(b) else None
  }

  /** The directory entries for the first `n` prefixes. */
  function DirEntries(components: seq<Bytes>, dirMode: bv32, inodes: nat, n: nat): (es: seq<Entry>)
    requires n <= |components| && inodes + n <= U32_MAX
    ensures |es| == n
  {
    if n == 0 then []
    else
      var mode := (if n < |components| then PARENT_MODE else dirMode) | S_IFDIR;
      DirEntries(components, dirMode, inodes, n - 1) + [PlainEntry(Rooted(components[..n]), inodes + n, mode, [])]
  }

  /** How many entries a call adds. */
  function Count(op: Op): nat {
    match op
    case Prefix(path, _) => |Split(path, SLASH)|
    case One(_, _, _, _) => 1
  }

  /** What a reader is to find for a call made when `inodes` entries are there. */
  function EntriesOf(op: Op, inodes: nat): (es: seq<Entry>)
    requires inodes + Count(op) <= U32_MAX
    ensures |es| == Count(op)
  {
    match op
    case Prefix(path, mode) => DirEntries(Split(path, SLASH), mode, inodes, |Split(path, SLASH)|)
    case One(fname, contents, prefix, mode) =>
      [PlainEntry(FullName(prefix, fname), inodes + 1, mode | S_IFREG, contents)]
  }

  function CountAll(ops: seq<Op>): nat {
    if ops == [] then 0 else CountAll(ops[..|ops| - 1]) + Count(ops[|ops| - 1])
  }

  function AllEntries(ops: seq<Op>): (es: seq<Entry>)
    requires CountAll(ops) <= U32_MAX
    ensures |es| == CountAll(ops)
  {
    if ops == [] then []
    else AllEntries(ops[..|ops| - 1]) + EntriesOf(ops[|ops| - 1], CountAll(ops[..|ops| - 1]))
  }

  predicate AllRepresentable(es: seq<Entry>) {
    forall i :: 0 <= i < |es| ==> Representable(es[i])
  }

  lemma {:induction false} ArchiveConcat(xs: seq<Entry>, ys: seq<Entry>)
    requires AllRepresentable(xs) && AllRepresentable(ys)
    ensures AllRepresentable(xs + ys)
    ensures ArchiveBytes(xs + ys) == ArchiveBytes(xs) + ArchiveBytes(ys)
    decreases |xs|
  {
    hide EntryBytes, Representable;
    if xs == [] {
      assert xs + ys == ys;
    } else {
      assert (xs + ys)[1..] == xs[1..] + ys;
      ArchiveConcat(xs[1..], ys);
    }
  }

  lemma ArchiveSingle(e: Entry)
    requires Representable(e)
    ensures ArchiveBytes([e]) == EntryBytes(e)
  {
    hide EntryBytes;
    assert [e][1..] == [];
  }

  /** The archive holds exactly the entries `es`. */
  ghost predicate IsArchive(a: Archive, es: seq<Entry>) {
    AllRepresentable(es) && a.inodes == |es| && a.buffer == ArchiveBytes(es)
  }

  lemma PackEntryAppends(a: Archive, es: seq<Entry>, name: Bytes, mode: bv32, contents: Bytes)
    requires IsArchive(a, es) && a.inodes < U32_MAX && |contents| <= U32_MAX
    requires PackEntry(a, name, mode, contents).1.Written?
    ensures IsArchive(PackEntry(a, name, mode, contents).0, es + [PlainEntry(name, |es| + 1, mode, contents)])
  {
    hide EntryBytes, ArchiveBytes, EntryLength;
    var e := PlainEntry(name, |es| + 1, mode, contents);
    ArchiveSingle(e);
    assert AllRepresentable([e]);
    ArchiveConcat(es, [e]);
  }

  lemma {:induction false} PackDirsAppends(a: Archive, es: seq<Entry>, components: seq<Bytes>, dirMode: bv32, n: nat)
    requires IsArchive(a, es) && a.inodes <= U32_MAX && n <= |components|
    requires PackDirs(a, components, dirMode, n).1.Written?
    ensures |es| + n <= U32_MAX
    ensures IsArchive(PackDirs(a, components, dirMode, n).0, es + DirEntries(components, dirMode, |es|, n))
    decreases n
  {
    hide EntryBytes, ArchiveBytes, EntryLength, Rooted, CheckDir;
    if n == 0 {
      assert es + [] == es;
    } else {
      PackDirsAppends(a, es, components, dirMode, n - 1);
      var b := PackDirs(a, components, dirMode, n - 1).0;
      var mode := (if n < |components| then PARENT_MODE else dirMode) | S_IFDIR;
      var so := es + DirEntries(components, dirMode, |es|, n - 1);
      CheckedDirHasRoom(b, Rooted(components[..n]));
      PackEntryAppends(b, so, Rooted(components[..n]), mode, []);
      assert es + DirEntries(components, dirMode, |es|, n) ==
        so + [PlainEntry(Rooted(components[..n]), |so| + 1, mode, [])];
    }
  }

  lemma CheckedDirHasRoom(a: Archive, path: Bytes)
    requires a.inodes <= U32_MAX && CheckDir(a, path).Written?
    ensures a.inodes < U32_MAX
  {
  }

  lemma ApplyAppends(a: Archive, es: seq<Entry>, op: Op)
    requires IsArchive(a, es) && a.inodes <= U32_MAX && Apply(a, op).1.Written?
    ensures |es| + Count(op) <= U32_MAX
    ensures IsArchive(Apply(a, op).0, es + EntriesOf(op, |es|))
  {
    hide EntryBytes, ArchiveBytes, EntryLength, PackDirs, DirEntries, IsArchive, Split, PackOne, PlainEntry;
    match op {
      case Prefix(path, mode) =>
        ArchiveInodes(a, es);
        PackDirsAppends(a, es, Split(path, SLASH), mode, |Split(path, SLASH)|);
      case One(fname, contents, prefix, mode) =>
        PackOneAppends(a, es, fname, contents, prefix, mode);
    }
  }

  lemma ArchiveInodes(a: Archive, es: seq<Entry>)
    requires IsArchive(a, es)
    ensures a.inodes == |es|
  {
  }

  lemma PackOneAppends(a: Archive, es: seq<Entry>, fname: Bytes, contents: Bytes, prefix: Bytes, mode: bv32)
    requires IsArchive(a, es) && a.inodes <= U32_MAX && PackOne(a, fname, contents, prefix, mode).1.Written?
    ensures |es| < U32_MAX
    ensures IsArchive(PackOne(a, fname, contents, prefix, mode).0,
                      es + [PlainEntry(FullName(prefix, fname), |es| + 1, mode | S_IFREG, contents)])
  {
    hide EntryBytes, ArchiveBytes, EntryLength, Align;
    PackEntryAppends(a, es, FullName(prefix, fname), mode | S_IFREG, contents);
  }

  /** After any successful calls, the archive holds the expected entries and nothing else; inodes count 1, 2, 3, ... */
  lemma {:induction false} ApplyAllAppends(ops: seq<Op>)
    requires ApplyAll(ops).Some?
    ensures CountAll(ops) <= U32_MAX && IsArchive(ApplyAll(ops).value, AllEntries(ops))
    decreases |ops|
  {
    hide EntryBytes, ArchiveBytes, EntryLength, Apply, EntriesOf, Count;
    if ops != [] {
      ApplyAllAppends(ops[..|ops| - 1]);
      ApplyAppends(ApplyAll(ops[..|ops| - 1]).value, AllEntries(ops[..|ops| - 1]), ops[|ops| - 1]);
    } else {
      assert ArchiveBytes([]) == [] by {
        EmptyArchive();
      }
    }
  }

  lemma EmptyArchive()
    ensures ArchiveBytes([]) == []
  {
  }

  /** Over every run of calls the buffer length stays a multiple of four. */
  lemma BufferAligned(ops: seq<Op>)
    requires ApplyAll(ops).Some?
    ensures |ApplyAll(ops).value.buffer| % 4 == 0
  {
    hide ArchiveBytes, ArchiveLength;
    ApplyAllAppends(ops);
    ArchiveBytesLength(AllEntries(ops));
    ArchiveAligned(AllEntries(ops));
    PadIsRemainder(ArchiveLength(AllEntries(ops)));
  }

  // ---------------------------------------------------------------------------------------------
  // Reading it back

  lemma {:induction false} RootedHasSlash(components: seq<Bytes>)
    requires components != []
    ensures SLASH in Rooted(components)
    decreases |components|
  {
  }

  lemma {:induction false} DirEntriesNamed(components: seq<Bytes>, dirMode: bv32, inodes: nat, n: nat)
    requires n <= |components| && inodes + n <= U32_MAX
    ensures forall i :: 0 <= i < n ==> SLASH in DirEntries(components, dirMode, inodes, n)[i].name
    decreases n
  {
    if n > 0 {
      DirEntriesNamed(components, dirMode, inodes, n - 1);
      RootedHasSlash(components[..n]);
    }
  }

  /** With a non-empty prefix no entry can be mistaken for the trailer. */
  predicate Prefixed(ops: seq<Op>) {
    forall i :: 0 <= i < |ops| ==> ops[i].One? ==> ops[i].prefix != []
  }

  lemma OpEntriesNamed(op: Op, inodes: nat)
    requires inodes + Count(op) <= U32_MAX && (op.One? ==> op.prefix != [])
    ensures forall i :: 0 <= i < Count(op) ==> SLASH in EntriesOf(op, inodes)[i].name
  {
    if op.Prefix? {
      DirEntriesNamed(Split(op.path, SLASH), op.dirMode, inodes, |Split(op.path, SLASH)|);
    }
  }

  lemma {:induction false} AllEntriesNamed(ops: seq<Op>)
    requires CountAll(ops) <= U32_MAX && Prefixed(ops)
    ensures forall i :: 0 <= i < |AllEntries(ops)| ==> SLASH in AllEntries(ops)[i].name
    decreases |ops|
  {
    hide EntriesOf, Count;
    if ops != [] {
      AllEntriesNamed(ops[..|ops| - 1]);
      OpEntriesNamed(ops[|ops| - 1], CountAll(ops[..|ops| - 1]));
    }
  }

  /** The round trip: a newc reader recovers exactly the packed entries, in order, with names, inodes, modes
      and contents, stops only at the real trailer, and has then consumed the whole buffer. */
  lemma RoundTrip(ops: seq<Op>)
    requires ApplyAll(ops).Some? && Prefixed(ops)
    requires PackTrailer(ApplyAll(ops).value).1.Written?
    ensures CountAll(ops) <= U32_MAX
    ensures var b := PackTrailer(ApplyAll(ops).value).0.buffer;
      ReadArchive(b, 0) == Listing(AllEntries(ops), |b|)
  {
    hide EntryBytes, ArchiveBytes, ReadArchive, AllEntries, Align;
    var a := ApplyAll(ops).value;
    ApplyAllAppends(ops);
    var es := AllEntries(ops);
    AllEntriesNamed(ops);
    assert SLASH !in TRAILER;
    assert Packable(es);
    var trailer := PlainEntry(TRAILER, a.inodes + 1, 0 | S_IFREG, []);
    var b := PackTrailer(a).0.buffer;
    assert b == ArchiveBytes(es) + EntryBytes(trailer);
    ArchiveBytesLength(es);
    ReadArchiveBack(b, 0, es, trailer);
  }
}
