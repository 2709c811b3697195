/** What a newc reader finds in an archive, spelled out call by call. */
module CpioContents {
  import opened FileSystem
  import opened Numbers
  import opened CpioFormat
  import opened CpioWriter
  import opened EfiPaths

  // ---------------------------------------------------------------------------------------------
  // Entries in terms of the calls

  /** Inodes count from one; everything else but the name, the mode and the contents is fixed. */
  ghost predicate Plain(e: Entry, at: nat) {
    && e.ino == at + 1 && e.nlink == 1 && e.uid == 0 && e.gid == 0 && e.mtime == 0
    && e.devMajor == 0 && e.devMinor == 0 && e.rdevMajor == 0 && e.rdevMinor == 0
  }

  /** A file: prefix, slash and file name, or the bare file name; a regular file with these contents. */
  ghost predicate IsFile(e: Entry, at: nat, fname: Bytes, contents: Bytes, prefix: Bytes, mode: bv32) {
    && Plain(e, at) && e.contents == contents && e.mode == (mode | 0x8000) as int
    && (prefix == [] ==> e.name == fname)
    && (prefix != [] ==>
        |e.name| == |prefix| + 1 + |fname| && e.name[..|prefix|] == prefix && e.name[|prefix|] == 47
        && e.name[|prefix| + 1..] == fname)
  }

  /** A directory: a slash and then the path up to its `n`th slash, counted from zero, or all of it for the last one.
      Only the last one has the given mode. */
  ghost predicate IsDirectory(e: Entry, at: nat, path: Bytes, n: nat, mode: bv32) {
    && Plain(e, at) && e.contents == [] && |e.name| > 0 && e.name[0] == 47
    && e.name[1..] <= path && multiset(e.name[1..])[47] == n
    && (e.name[1..] == path || path[|e.name| - 1] == 47)
    && e.mode == ((if n == multiset(path)[47] then mode else 0x16D) | 0x4000) as int
    && (n == multiset(path)[47] ==> e.name[1..] == path)
  }

  /** How many entries a call makes. */
  ghost function Size(op: Op): nat {
    match op
    case Prefix(path, _) => multiset(path)[47] + 1
    case One(_, _, _, _) => 1
  }

  /** Where the entries of the `k`th call begin. */
  ghost function Start(ops: seq<Op>, k: nat): nat
    requires k <= |ops|
  {
    if k == 0 then 0 else Start(ops, k - 1) + Size(ops[k - 1])
  }

  ghost predicate Made(op: Op, es: seq<Entry>, at: nat)
    requires at + Size(op) <= |es|
  {
    match op
    case Prefix(path, mode) => forall i: nat :: at <= i < at + Size(op) ==> IsDirectory(es[i], i, path, i - at, mode)
    case One(fname, contents, prefix, mode) => IsFile(es[at], at, fname, contents, prefix, mode)
  }

  /** The entries are those of the calls, in order, and no others. */
  ghost predicate SpelledOut(ops: seq<Op>, es: seq<Entry>) {
    && |es| == Start(ops, |ops|)
    && forall k :: 0 <= k < |ops| ==> Start(ops, k) + Size(ops[k]) <= |es| && Made(ops[k], es, Start(ops, k))
  }

  // ---------------------------------------------------------------------------------------------
  // Paths and their slashes

  lemma {:induction false} SplitCount(path: Bytes)
    ensures |Split(path, SLASH)| == multiset(path)[SLASH] + 1
  {
    if path != [] {
      SplitCount(path[1..]);
      assert path == [path[0]] + path[1..];
    }
  }

  lemma {:induction false} SplitParts(path: Bytes)
    ensures forall i :: 0 <= i < |Split(path, SLASH)| ==> SLASH !in Split(path, SLASH)[i]
  {
    if path != [] {
      SplitParts(path[1..]);
    }
  }

  lemma {:induction false} RootedConcat(a: seq<Bytes>, b: seq<Bytes>)
    ensures Rooted(a + b) == Rooted(a) + Rooted(b)
    decreases |b|
  {
    if b == [] {
      assert a + b == a && Rooted(a) + [] == Rooted(a);
    } else {
      var n := |b| - 1;
      assert (a + b)[..|a + b| - 1] == a + b[..n];
      RootedConcat(a, b[..n]);
      assert Rooted(a) + Rooted(b[..n]) + [SLASH] + b[n] == Rooted(a) + (Rooted(b[..n]) + [SLASH] + b[n]);
    }
  }

  lemma RootedOne(x: Bytes)
    ensures Rooted([x]) == [SLASH] + x
  {
    assert [x][..0] == [];
    assert [] + [SLASH] + x == [SLASH] + x;
  }

  lemma RootedLonger(c: byte, rest: seq<Bytes>, tail: Bytes)
    requires rest != [] && Rooted(rest) == [SLASH] + tail
    ensures Rooted([[c] + rest[0]] + rest[1..]) == [SLASH, c] + tail
  {
    hide Rooted;
    var r := Rooted(rest[1..]);
    RootedConcat([[c] + rest[0]], rest[1..]);
    RootedConcat([rest[0]], rest[1..]);
    RootedOne([c] + rest[0]);
    RootedOne(rest[0]);
    assert rest == [rest[0]] + rest[1..];
    assert [SLASH] + rest[0] + r == [SLASH] + (rest[0] + r);
    assert tail == ([SLASH] + tail)[1..] == rest[0] + r;
    assert [SLASH] + ([c] + rest[0]) + r == [SLASH, c] + (rest[0] + r);
  }

  lemma SplitFirst(path: Bytes)
    requires path != []
    ensures var rest := Split(path[1..], SLASH);
      Split(path, SLASH) == if path[0] == SLASH then [[]] + rest else [[path[0]] + rest[0]] + rest[1..]
  {
  }

  /** Splitting a path and rooting the pieces again puts a slash in front of it. */
  lemma {:induction false} RootedSplit(path: Bytes)
    ensures Rooted(Split(path, SLASH)) == [SLASH] + path
  {
    hide Rooted, Split;
    if path == [] {
      RootedOne([]);
      SplitNothing();
    } else {
      var rest := Split(path[1..], SLASH);
      RootedSplit(path[1..]);
      SplitFirst(path);
      assert path == [path[0]] + path[1..];
      if path[0] == SLASH {
        RootedConcat([[]], rest);
        RootedOne([]);
        assert [SLASH] + [] + ([SLASH] + path[1..]) == [SLASH] + path;
      } else {
        RootedLonger(path[0], rest, path[1..]);
        assert [SLASH, path[0]] + path[1..] == [SLASH] + path;
      }
    }
  }

  lemma SplitNothing()
    ensures Split<byte>([], SLASH) == [[]]
  {
  }

  lemma {:induction false} RootedSlashes(parts: seq<Bytes>)
    requires forall i :: 0 <= i < |parts| ==> SLASH !in parts[i]
    ensures multiset(Rooted(parts))[SLASH] == |parts|
    decreases |parts|
  {
    if parts != [] {
      var n := |parts| - 1;
      RootedSlashes(parts[..n]);
      assert multiset(parts[n])[SLASH] == 0;
    }
  }

  lemma RootedStarts(parts: seq<Bytes>)
    requires parts != []
    ensures |Rooted(parts)| > 0 && Rooted(parts)[0] == SLASH
  {
    assert parts == [parts[0]] + parts[1..];
    RootedConcat([parts[0]], parts[1..]);
    RootedOne(parts[0]);
  }

  /** The `n`th directory of a path. */
  lemma AncestorName(path: Bytes, n: nat)
    requires n < |Split(path, SLASH)|
    ensures var name := Rooted(Split(path, SLASH)[..n + 1]);
      && |name| > 0 && name[0] == 47 && name[1..] <= path && multiset(name[1..])[47] == n
      && (name[1..] == path || path[|name| - 1] == 47)
      && (n + 1 == |Split(path, SLASH)| ==> name[1..] == path)
  {
    hide Rooted, Split;
    var parts := Split(path, SLASH);
    var head, tail := parts[..n + 1], parts[n + 1..];
    var name := Rooted(head);
    RootedSplit(path);
    SplitParts(path);
    assert parts == head + tail;
    RootedConcat(head, tail);
    RootedStarts(head);
    RootedSlashes(head);
    assert name == [47] + name[1..];
    assert [SLASH] + path == name + Rooted(tail);
    assert path == ([SLASH] + path)[1..] == name[1..] + Rooted(tail);
    if tail == [] {
      NothingRooted();
    } else {
      RootedStarts(tail);
      assert path[|name| - 1] == Rooted(tail)[0];
    }
  }

  lemma NothingRooted()
    ensures Rooted([]) == []
  {
  }

  // ---------------------------------------------------------------------------------------------
  // The entries of each call

  lemma FileMade(fname: Bytes, contents: Bytes, prefix: Bytes, mode: bv32, inodes: nat)
    requires inodes < U32_MAX
    ensures var op := One(fname, contents, prefix, mode);
      IsFile(EntriesOf(op, inodes)[0], inodes, fname, contents, prefix, mode)
  {
    var op := One(fname, contents, prefix, mode);
    var e := EntriesOf(op, inodes)[0];
    if prefix != [] {
      assert e.name == prefix + [SLASH] + fname;
      assert e.name[|prefix| + 1..] == fname;
    }
  }

  lemma {:induction false} DirEntryAt(components: seq<Bytes>, mode: bv32, inodes: nat, n: nat, i: nat)
    requires i < n <= |components| && inodes + n <= U32_MAX
    ensures DirEntries(components, mode, inodes, n)[i] ==
      PlainEntry(Rooted(components[..i + 1]), inodes + i + 1,
                 (if i + 1 < |components| then PARENT_MODE else mode) | S_IFDIR, [])
    decreases n
  {
    hide Rooted, PlainEntry;
    if i + 1 < n {
      DirEntryAt(components, mode, inodes, n - 1, i);
    }
  }

  lemma DirectoryMade(path: Bytes, mode: bv32, inodes: nat, i: nat)
    requires i < |Split(path, SLASH)| && inodes + |Split(path, SLASH)| <= U32_MAX
    ensures IsDirectory(EntriesOf(Prefix(path, mode), inodes)[i], inodes + i, path, i, mode)
  {
    hide Rooted, Split, DirEntries, IsDirectory;
    var parts := Split(path, SLASH);
    DirEntryAt(parts, mode, inodes, |parts|, i);
    AncestorName(path, i);
    SplitCount(path);
    PlainDirectory(Rooted(parts[..i + 1]), inodes + i, path, i, mode);
  }

  lemma PlainDirectory(name: Bytes, at: nat, path: Bytes, n: nat, mode: bv32)
    requires at < U32_MAX && n <= multiset(path)[47]
    requires |name| > 0 && name[0] == 47 && name[1..] <= path && multiset(name[1..])[47] == n
    requires name[1..] == path || path[|name| - 1] == 47
    requires n == multiset(path)[47] ==> name[1..] == path
    ensures var m := if n + 1 < multiset(path)[47] + 1 then PARENT_MODE else mode;
      IsDirectory(PlainEntry(name, at + 1, m | S_IFDIR, []), at, path, n, mode)
  {
  }

  lemma SizeIsCount(op: Op)
    ensures Size(op) == Count(op)
  {
    if op.Prefix? {
      SplitCount(op.path);
    }
  }

  lemma CallMade(op: Op, inodes: nat)
    requires inodes + Count(op) <= U32_MAX
    ensures Size(op) == Count(op)
    ensures op.One? ==> IsFile(EntriesOf(op, inodes)[0], inodes, op.fname, op.contents, op.prefix, op.accessMode)
    ensures op.Prefix? ==> forall n: nat :: n < Count(op) ==>
      IsDirectory(EntriesOf(op, inodes)[n], inodes + n, op.path, n, op.dirMode)
  {
    hide IsDirectory, IsFile, EntriesOf;
    SizeIsCount(op);
    if op.One? {
      FileMade(op.fname, op.contents, op.prefix, op.accessMode, inodes);
    } else {
      forall n: nat | n < Count(op)
        ensures IsDirectory(EntriesOf(op, inodes)[n], inodes + n, op.path, n, op.dirMode)
      {
        DirectoryMade(op.path, op.dirMode, inodes, n);
      }
    }
  }

  // ---------------------------------------------------------------------------------------------
  // The whole archive

  lemma {:induction false} StartPrefix(ops: seq<Op>, n: nat, k: nat)
    requires k <= n <= |ops|
    ensures Start(ops[..n], k) == Start(ops, k)
    decreases k
  {
    hide Size;
    if k > 0 {
      StartPrefix(ops, n, k - 1);
    }
  }

  lemma MadeStays(op: Op, es: seq<Entry>, more: seq<Entry>, at: nat)
    requires at + Size(op) <= |es| && Made(op, es, at)
    ensures Made(op, es + more, at)
  {
    hide IsDirectory, IsFile, Size;
    OneIsOne(op);
    assert forall i :: 0 <= i < |es| ==> (es + more)[i] == es[i];
  }

  lemma MadeNow(op: Op, es: seq<Entry>)
    requires |es| + Count(op) <= U32_MAX
    ensures Size(op) == Count(op) && Made(op, es + EntriesOf(op, |es|), |es|)
  {
    hide IsDirectory, IsFile, EntriesOf, Count, Size;
    CallMade(op, |es|);
    var all := es + EntriesOf(op, |es|);
    assert forall i :: |es| <= i < |es| + Size(op) ==> all[i] == EntriesOf(op, |es|)[i - |es|];
    OneIsOne(op);
  }

  lemma OneIsOne(op: Op)
    ensures op.One? ==> Size(op) == 1
    ensures Size(op) > 0
  {
  }

  lemma SpelledOutMore(ops: seq<Op>, op: Op, es: seq<Entry>)
    requires SpelledOut(ops, es) && |es| + Count(op) <= U32_MAX
    ensures SpelledOut(ops + [op], es + EntriesOf(op, |es|))
  {
    hide Made, EntriesOf, Count, Size, Start;
    var all, n := ops + [op], |ops|;
    var more := es + EntriesOf(op, |es|);
    assert all[..n] == ops;
    MadeNow(op, es);
    StartPrefix(all, n, n);
    StartMore(all, n);
    forall k | 0 <= k < |all| ensures Start(all, k) + Size(all[k]) <= |more| && Made(all[k], more, Start(all, k)) {
      StartPrefix(all, n, if k < n then k else n);
      if k < n {
        assert all[k] == ops[k];
        MadeStays(ops[k], es, EntriesOf(op, |es|), Start(ops, k));
      }
    }
  }

  lemma StartMore(ops: seq<Op>, k: nat)
    requires k < |ops|
    ensures Start(ops, k + 1) == Start(ops, k) + Size(ops[k])
  {
  }

  lemma {:induction false} EntriesSpelledOut(ops: seq<Op>)
    requires CountAll(ops) <= U32_MAX
    ensures SpelledOut(ops, AllEntries(ops))
    decreases |ops|
  {
    hide Made, EntriesOf, Count, Size, SpelledOut;
    if ops == [] {
      NothingSpelledOut();
    } else {
      var n := |ops| - 1;
      EntriesSpelledOut(ops[..n]);
      SpelledOutMore(ops[..n], ops[n], AllEntries(ops[..n]));
      assert ops == ops[..n] + [ops[n]];
    }
  }

  lemma NothingSpelledOut()
    ensures SpelledOut([], [])
  {
  }

  /** The round trip in terms of the calls: a newc reader finds for each file its prefix, slash and name, its type and
      mode, its inode and its contents, for each prefix one directory per ancestor, and nothing else. */
  lemma RoundTripSpelledOut(ops: seq<Op>) returns (es: seq<Entry>)
    requires ApplyAll(ops).Some? && Prefixed(ops)
    requires PackTrailer(ApplyAll(ops).value).1.Written?
    ensures var b := PackTrailer(ApplyAll(ops).value).0.buffer; ReadArchive(b, 0) == Listing(es, |b|)
    ensures SpelledOut(ops, es)
  {
    hide ApplyAll, PackTrailer, ReadArchive, AllEntries, CountAll, SpelledOut, Prefixed;
    RoundTrip(ops);
    es := AllEntries(ops);
    EntriesSpelledOut(ops);
  }

  // ---------------------------------------------------------------------------------------------
  // Exactly when a call succeeds

  function RoundUp4(n: nat): nat {
    4 * ((n + 3) / 4)
  }

  lemma RoundUpIsAlign(n: nat)
    requires n <= USIZE_MAX - 3
    ensures Align(n) == RoundUp4(n)
  {
    hide Align, Align4;
    AlignIsRoundUp(n);
  }

  /** `pack_one` succeeds if and only if the contents and the name with its separator and NUL fit 32 bits, there is an
      inode left, and the size estimate fits the address space. */
  lemma PackOneExactly(a: Archive, fname: Bytes, contents: Bytes, prefix: Bytes, mode: bv32)
    requires a.inodes <= U32_MAX && |a.buffer| <= USIZE_MAX
    ensures PackOne(a, fname, contents, prefix, mode).1.Written? <==>
      && |contents| < U32_LIMIT && a.inodes < U32_LIMIT - 1
      && |prefix| + |fname| + (if prefix == [] then 0 else 1) + 1 < U32_LIMIT
      && |a.buffer| + RoundUp4(111 + |prefix| + |fname|) + RoundUp4(|contents|) <= USIZE_MAX
  {
    hide Align, EntryBytes, EntryLength;
    if |prefix| + |fname| < U32_MAX && |contents| <= U32_MAX {
      RoundUpIsAlign(111 + |prefix| + |fname|);
      RoundUpIsAlign(|contents|);
    }
  }

  /** Which error comes first. */
  lemma PackOneErrors(a: Archive, fname: Bytes, contents: Bytes, prefix: Bytes, mode: bv32)
    requires a.inodes <= U32_MAX
    ensures var r := PackOne(a, fname, contents, prefix, mode).1;
      && (r.TooLargeFileSize? <==> |contents| >= U32_LIMIT) && (r.TooLargeFileSize? ==> r.got == |contents|)
      && (r.MaximumInodesReached? <==> |contents| < U32_LIMIT && a.inodes == U32_LIMIT - 1)
  {
    hide Align, EntryBytes, EntryLength;
  }

  /** The same for `pack_dir`. */
  lemma PackDirExactly(a: Archive, path: Bytes, mode: bv32)
    requires a.inodes <= U32_MAX && |a.buffer| <= USIZE_MAX
    ensures var r := PackDir(a, path, mode).1;
      && (r.MaximumInodesReached? <==> a.inodes == U32_LIMIT - 1)
      && (r.Written? <==>
          && a.inodes < U32_LIMIT - 1 && |path| + 1 < U32_LIMIT
          && |a.buffer| + RoundUp4(110 + |path|) <= USIZE_MAX && |a.buffer| < USIZE_MAX)
  {
    hide Align, EntryBytes, EntryLength;
    if |path| < U32_LIMIT {
      RoundUpIsAlign(110 + |path|);
    }
  }
}
