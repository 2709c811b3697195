/** Companion initrds: packed in a canonical order, measured, and appended to the initrd. */
module Companions {
  import opened FileSystem
  import opened Numbers
  import opened CpioFormat
  import opened CpioWriter
  import opened Sorting
  import opened TpmLog
  import Cpio

  // ---------------------------------------------------------------------------------------------
  // Packing a list of files

  /** A UCS-2 path on a UEFI volume. */
  type Path16 = seq<nat>

  /** The order of `uefi::fs::PathBuf`. */
  predicate PathOrder(a: Path16, b: Path16) {
    a == [] || (b != [] && (a[0] < b[0] || (a[0] == b[0] && PathOrder(a[1..], b[1..]))))
  }

  lemma {:induction false} PathOrderTotal(a: Path16, b: Path16)
    ensures PathOrder(a, b) || PathOrder(b, a)
  {
    if a != [] && b != [] && a[0] == b[0] {
      PathOrderTotal(a[1..], b[1..]);
    }
  }

  lemma {:induction false} PathOrderTransitive(a: Path16, b: Path16, c: Path16)
    requires PathOrder(a, b) && PathOrder(b, c)
    ensures PathOrder(a, c)
  {
    if a != [] && a[0] == b[0] && b[0] == c[0] {
      PathOrderTransitive(a[1..], b[1..], c[1..]);
    }
  }

  lemma {:induction false} PathOrderAntisymmetric(a: Path16, b: Path16)
    requires PathOrder(a, b) && PathOrder(b, a)
    ensures a == b
  {
    if a != [] {
      PathOrderAntisymmetric(a[1..], b[1..]);
      assert a == [a[0]] + a[1..] && b == [b[0]] + b[1..];
    }
  }

  /** The two paths agree up to `i`, where `a` has the smaller character. */
  ghost predicate SmallerAt(a: Path16, b: Path16, i: nat) {
    i < |a| && i < |b| && a[..i] == b[..i] && a[i] < b[i]
  }

  lemma {:induction false} SmallerIsOrdered(a: Path16, b: Path16, i: nat)
    requires SmallerAt(a, b, i)
    ensures PathOrder(a, b)
    decreases i
  {
    if i > 0 {
      assert a[0] == a[..i][0] == b[..i][0] == b[0];
      assert a[1..][..i - 1] == a[..i][1..] == b[..i][1..] == b[1..][..i - 1];
      SmallerIsOrdered(a[1..], b[1..], i - 1);
    }
  }

  lemma {:induction false} PrefixIsOrdered(a: Path16, b: Path16)
    requires a <= b
    ensures PathOrder(a, b)
    decreases |a|
  {
    if a != [] {
      PrefixIsOrdered(a[1..], b[1..]);
    }
  }

  lemma {:induction false} OrderedDiffers(a: Path16, b: Path16) returns (i: nat)
    requires PathOrder(a, b)
    ensures a <= b || SmallerAt(a, b, i)
    decreases |a|
  {
    i := 0;
    if a != [] && a[0] == b[0] {
      var k := OrderedDiffers(a[1..], b[1..]);
      i := k + 1;
      assert a == [a[0]] + a[1..] && b == [b[0]] + b[1..];
      if SmallerAt(a[1..], b[1..], k) {
        assert a[..i] == [a[0]] + a[1..][..k] && b[..i] == [b[0]] + b[1..][..k];
      }
    }
  }

  /** A prefix comes first; otherwise the first difference decides. */
  lemma PathOrderIs(a: Path16, b: Path16)
    ensures PathOrder(a, b) <==> a <= b || exists i :: SmallerAt(a, b, i)
  {
    hide PathOrder, SmallerAt;
    if PathOrder(a, b) {
      var i := OrderedDiffers(a, b);
    }
    if a <= b {
      PrefixIsOrdered(a, b);
    }
    if i :| SmallerAt(a, b, i) {
      SmallerIsOrdered(a, b, i);
    }
  }

  lemma PathOrderIsTotalOrder()
    ensures TotalPreorder(PathOrder) && Antisymmetric(PathOrder)
  {
    forall a, b ensures PathOrder(a, b) || PathOrder(b, a) {
      PathOrderTotal(a, b);
    }
    forall a, b, c | PathOrder(a, b) && PathOrder(b, c) ensures PathOrder(a, c) {
      PathOrderTransitive(a, b, c);
    }
    forall a, b | PathOrder(a, b) && PathOrder(b, a) ensures a == b {
      PathOrderAntisymmetric(a, b);
    }
  }

  /** The files of a volume, and the last component of a path in UTF-8. */
  datatype Volume = Volume(read: Path16 -> Bytes, basename: Path16 -> Bytes)

  datatype Target = Target(dir: Bytes, dirMode: bv32, accessMode: bv32)

  function FileOp(vol: Volume, target: Target, file: Path16): Op {
    One(vol.basename(file), vol.read(file), target.dir, target.accessMode)
  }

  function FileOps(vol: Volume, target: Target, files: seq<Path16>): (ops: seq<Op>)
    ensures |ops| == |files|
  {
    seq(|files|, i requires 0 <= i < |files| => FileOp(vol, target, files[i]))
  }

  /** The calls that `pack_cpio` makes before the trailer. */
  function PackOps(vol: Volume, target: Target, files: seq<Path16>): seq<Op> {
    [Prefix(target.dir, target.dirMode)] + FileOps(vol, target, Sort(PathOrder, files))
  }

  function Finish(ops: seq<Op>): Option<Bytes> {
    match ApplyAll(ops)
    case None => None
    case Some(a) =>
      var (b, r) := PackTrailer(a);
      if r.Written? then Some(b.buffer) else None
  }

  /** `pack_cpio`: `None` stands for any error. */
  function PackCpio(vol: Volume, target: Target, files: seq<Path16>): Option<Bytes> {
    Finish(PackOps(vol, target, files))
  }

  /** The archive does not depend on the order in which the files were discovered. */
  lemma PackCpioOrderFree(vol: Volume, target: Target, files: seq<Path16>, found: seq<Path16>)
    requires multiset(files) == multiset(found)
    ensures PackCpio(vol, target, files) == PackCpio(vol, target, found)
  {
    PathOrderIsTotalOrder();
    SortOrderFree(PathOrder, files, found);
  }

  /** `bytes` is an archive of exactly the entries `es`, wherever it stands at a multiple of four. */
  ghost predicate IsArchiveOf(bytes: Bytes, es: seq<Entry>) {
    && |bytes| % 4 == 0
    && forall b: Bytes, pos: nat | pos % 4 == 0 && At(b, pos, bytes) ::
        ReadArchive(b, pos) == Listing(es, pos + |bytes|)
  }

  /** A finished archive can be read wherever it is put, and its length is a multiple of four. */
  lemma FinishedArchive(ops: seq<Op>)
    requires Finish(ops).Some? && Prefixed(ops)
    ensures CountAll(ops) <= U32_MAX && IsArchiveOf(Finish(ops).value, AllEntries(ops))
  {
    hide EntryBytes, ArchiveBytes, ReadArchive, AllEntries, Align, EntryLength, ArchiveLength, ApplyAll, PadLength, At;
    var a := ApplyAll(ops).value;
    ApplyAllAppends(ops);
    var es := AllEntries(ops);
    AllEntriesNamed(ops);
    assert SLASH !in TRAILER;
    assert Packable(es);
    var trailer := PlainEntry(TRAILER, a.inodes + 1, 0 | S_IFREG, []);
    var bytes := Finish(ops).value;
    assert bytes == ArchiveBytes(es) + EntryBytes(trailer);
    ArchiveBytesLength(es);
    ArchiveAligned(es);
    EntryAligned(trailer);
    AlignedSum(ArchiveLength(es), EntryLength(trailer));
    PadIsRemainder(|bytes|);
    forall b: Bytes, pos: nat | pos % 4 == 0 && At(b, pos, bytes)
      ensures ReadArchive(b, pos) == Listing(es, pos + |bytes|)
    {
      PadIsRemainder(pos);
      ReadArchiveBack(b, pos, es, trailer);
    }
  }

  /** What is in the archive of a list of files. */
  lemma PackCpioContents(vol: Volume, target: Target, files: seq<Path16>)
    requires target.dir != [] && PackCpio(vol, target, files).Some?
    ensures CountAll(PackOps(vol, target, files)) <= U32_MAX
    ensures IsArchiveOf(PackCpio(vol, target, files).value, AllEntries(PackOps(vol, target, files)))
  {
    hide Finish, AllEntries, CountAll, IsArchiveOf, Sort;
    assert Prefixed(PackOps(vol, target, files));
    FinishedArchive(PackOps(vol, target, files));
  }

  lemma ApplyOneMore(ops: seq<Op>, op: Op)
    ensures ApplyAll(ops + [op]) ==
      match ApplyAll(ops)
      case None => None
      case Some(a) => (var (b, r) := Apply(a, op); if r.Written? then Some(b) else None)
  {
    assert (ops + [op])[..|ops|] == ops;
  }

  lemma {:induction false} FailureIsFinal(ops: seq<Op>, more: seq<Op>)
    requires ApplyAll(ops).None?
    ensures ApplyAll(ops + more).None?
    decreases |more|
  {
    if more == [] {
      assert ops + more == ops;
    } else {
      FailureIsFinal(ops, more[..|more| - 1]);
      assert (ops + more)[..|ops + more| - 1] == ops + more[..|more| - 1];
    }
  }

  /** After the calls `done`, the last of which returned `r`, the archive is `a`. */
  ghost predicate Follows(done: seq<Op>, a: Archive, r: Outcome) {
    ApplyAll(done) == if r.Written? then Some(a) else None
  }

  lemma FollowsOneMore(done: seq<Op>, op: Op, before: Archive, r: Outcome, after: Archive, s: Outcome)
    requires Follows(done, before, r) && r.Written? && before.inodes <= U32_MAX && Apply(before, op) == (after, s)
    ensures Follows(done + [op], after, s)
  {
    hide Apply;
    ApplyOneMore(done, op);
  }

  lemma FollowsToTheEnd(ops: seq<Op>, i: nat, a: Archive, r: Outcome)
    requires i < |ops| && Follows(ops[..i + 1], a, r) && (r.Written? ==> i + 1 == |ops|)
    ensures Follows(ops, a, r)
  {
    assert ops == ops[..i + 1] + ops[i + 1..];
    if r.Written? {
      assert ops[..i + 1] == ops;
    } else {
      FailureIsFinal(ops[..i + 1], ops[i + 1..]);
    }
  }

  lemma PackOpsAt(vol: Volume, target: Target, files: seq<Path16>, i: nat)
    requires i < |Sort(PathOrder, files)|
    ensures var ops, sorted := PackOps(vol, target, files), Sort(PathOrder, files);
      |ops| == |sorted| + 1 && ops[..i + 2] == ops[..i + 1] + [FileOp(vol, target, sorted[i])]
  {
    hide Sort, FileOp;
  }

  lemma PackOpsFirst(vol: Volume, target: Target, files: seq<Path16>, a: Archive, r: Outcome)
    requires PackPrefix(EMPTY, target.dir, target.dirMode) == (a, r)
    ensures |PackOps(vol, target, files)| == |Sort(PathOrder, files)| + 1
    ensures Follows(PackOps(vol, target, files)[..1], a, r)
  {
    hide Sort, PackPrefix, FileOps;
    var op := Prefix(target.dir, target.dirMode);
    assert PackOps(vol, target, files)[..1] == [] + [op];
    FollowsOneMore([], op, EMPTY, Written(0), a, r);
  }

  /** The calls of `PackOps`, made on an archive object. */
  method PackSorted(vol: Volume, target: Target, files: seq<Path16>, sorted: seq<Path16>, cpio: Cpio.Cpio)
      returns (r: Outcome)
    requires cpio.View() == EMPTY && sorted == Sort(PathOrder, files)
    modifies cpio
    ensures Follows(PackOps(vol, target, files), cpio.View(), r)
  {
    hide PackPrefix, PackOne, Sort, PackOps, Follows, FileOp;
    ghost var ops := PackOps(vol, target, files);
    r := cpio.PackPrefix(target.dir, target.dirMode);
    PackOpsFirst(vol, target, files, cpio.View(), r);
    var i := 0;
    while i < |sorted| && r.Written?
      invariant 0 <= i <= |sorted|
      invariant Follows(ops[..i + 1], cpio.View(), r)
    {
      ghost var before, was := cpio.View(), r;
      r := cpio.PackOne(vol.basename(sorted[i]), vol.read(sorted[i]), target.dir, target.accessMode);
      AppliedOne(vol, target, sorted[i], before);
      FollowsOneMore(ops[..i + 1], FileOp(vol, target, sorted[i]), before, was, cpio.View(), r);
      PackOpsAt(vol, target, files, i);
      i := i + 1;
    }
    FollowsToTheEnd(ops, i, cpio.View(), r);
  }

  lemma AppliedOne(vol: Volume, target: Target, file: Path16, a: Archive)
    requires a.inodes <= U32_MAX
    ensures Apply(a, FileOp(vol, target, file)) ==
      PackOne(a, vol.basename(file), vol.read(file), target.dir, target.accessMode)
  {
    hide PackOne;
  }

  /** `pack_cpio` itself: sort, pack the prefix, pack each file, close with the trailer. */
  method PackFiles(vol: Volume, target: Target, files: seq<Path16>) returns (archive: Option<Bytes>)
    ensures archive == PackCpio(vol, target, files)
  {
    hide Sort, PackOps, ApplyAll, PackTrailer;
    var sorted := Sort(PathOrder, files);
    var cpio := new Cpio.Cpio();
    var r := PackSorted(vol, target, files, sorted, cpio);
    if !r.Written? {
      return None;
    }
    r := cpio.PackTrailer();
    archive := if r.Written? then Some(cpio.buffer) else None;
  }

  // ---------------------------------------------------------------------------------------------
  // Behind the initrd

  function PadTo4(b: Bytes): Bytes {
    b + Zeros(PadLength(|b|))
  }

  /** The loop of `boot_linux`: append, then pad. */
  function Assemble(initrd: Bytes, companions: seq<Bytes>): Bytes {
    if companions == [] then PadTo4(initrd)
    else PadTo4(Assemble(initrd, companions[..|companions| - 1]) + companions[|companions| - 1])
  }

  method AssembleInitrd(initrd: Bytes, companions: seq<Bytes>) returns (data: Bytes)
    ensures data == Assemble(initrd, companions)
  {
    data := initrd + Zeros(PadLength(|initrd|));
    for i := 0 to |companions|
      invariant data == Assemble(initrd, companions[..i])
    {
      assert companions[..i + 1][..i] == companions[..i];
      data := data + companions[i];
      data := data + Zeros(PadLength(|data|));
    }
    assert companions[..|companions|] == companions;
  }

  /** Where the `k`th companion starts. */
  function Offset(initrd: Bytes, companions: seq<Bytes>, k: nat): nat
    requires k <= |companions|
  {
    |Assemble(initrd, companions[..k])|
  }

  lemma {:induction false} AssembleAligned(initrd: Bytes, companions: seq<Bytes>)
    ensures |Assemble(initrd, companions)| % 4 == 0
    decreases |companions|
  {
    var body := if companions == [] then initrd
      else Assemble(initrd, companions[..|companions| - 1]) + companions[|companions| - 1];
    AlignAligns(|body|);
    PadIsRemainder(Align4(|body|));
    assert Assemble(initrd, companions) == PadTo4(body);
  }

  /** Companions whose length is a multiple of four are simply concatenated: no padding follows any of them. */
  lemma NoPaddingAfterCompanion(initrd: Bytes, companions: seq<Bytes>)
    requires companions != [] && |companions[|companions| - 1]| % 4 == 0
    ensures Assemble(initrd, companions) ==
      Assemble(initrd, companions[..|companions| - 1]) + companions[|companions| - 1]
  {
    hide PadLength, Assemble;
    var before, last := Assemble(initrd, companions[..|companions| - 1]), companions[|companions| - 1];
    AssembleAligned(initrd, companions[..|companions| - 1]);
    PadIsRemainder(|before|);
    PadIsRemainder(|last|);
    AlignedSum(|before|, |last|);
    assert PadLength(|before + last|) == 0;
    AssembleLast(initrd, companions);
    assert before + last + Zeros(0) == before + last;
  }

  lemma AssembleLast(initrd: Bytes, companions: seq<Bytes>)
    requires companions != []
    ensures Assemble(initrd, companions) ==
      PadTo4(Assemble(initrd, companions[..|companions| - 1]) + companions[|companions| - 1])
  {
  }

  lemma {:induction false} AssembleExtends(initrd: Bytes, companions: seq<Bytes>, k: nat)
    requires k <= |companions|
    ensures Assemble(initrd, companions[..k]) <= Assemble(initrd, companions)
    decreases |companions| - k
  {
    if k == |companions| {
      assert companions[..k] == companions;
    } else {
      AssembleExtends(initrd, companions, k + 1);
      assert companions[..k + 1][..k] == companions[..k];
      AssembleLast(initrd, companions[..k + 1]);
    }
  }

  /** In the final initrd the original comes first, and every companion stands intact at a multiple of four. */
  lemma CompanionsIntact(initrd: Bytes, companions: seq<Bytes>, k: nat)
    requires k < |companions|
    ensures initrd <= Assemble(initrd, companions)
    ensures Offset(initrd, companions, k) % 4 == 0
    ensures At(Assemble(initrd, companions), Offset(initrd, companions, k), companions[k])
  {
    hide Assemble;
    AssembleExtends(initrd, companions, 0);
    AssembleNone(initrd, companions);
    AssembleAligned(initrd, companions[..k]);
    AssembleExtends(initrd, companions, k + 1);
    AssembleLast(initrd, companions[..k + 1]);
    assert companions[..k + 1][..k] == companions[..k];
    var before := Assemble(initrd, companions[..k]);
    assert before + companions[k] <= Assemble(initrd, companions);
  }

  lemma AssembleNone(initrd: Bytes, companions: seq<Bytes>)
    ensures initrd <= Assemble(initrd, companions[..0])
  {
  }

  /** So the kernel unpacks from each of them exactly the entries that were packed. */
  lemma CompanionsReadable(initrd: Bytes, companions: seq<Bytes>, k: nat, es: seq<Entry>)
    requires k < |companions| && IsArchiveOf(companions[k], es)
    ensures ReadArchive(Assemble(initrd, companions), Offset(initrd, companions, k)) ==
            Listing(es, Offset(initrd, companions, k) + |companions[k]|)
  {
    hide ReadArchive, Assemble;
    CompanionsIntact(initrd, companions, k);
  }

  // ---------------------------------------------------------------------------------------------
  // Measuring

  datatype Kind = Credentials | GlobalCredentials | SystemExtension | PcrSignature | PcrPublicKey

  datatype Companion = Companion(kind: Kind, cpio: Bytes)

  function PcrOf(kind: Kind): Option<nat> {
    match kind
    case Credentials | GlobalCredentials => Some(PCR_KERNEL_CONFIG)
    case SystemExtension => Some(PCR_SYSEXTS)
    case PcrSignature | PcrPublicKey => None
  }

  function EventsOf(c: Companion): seq<Event> {
    match PcrOf(c.kind)
    case None => []
    case Some(pcr) => [Event(pcr, c.cpio)]
  }

  /** One event per companion that has a PCR, in the order given. */
  function CompanionLog(companions: seq<Companion>): seq<Event> {
    if companions == [] then []
    else CompanionLog(companions[..|companions| - 1]) + EventsOf(companions[|companions| - 1])
  }

  /** `measure_companion_initrds`, with a TPM that accepts every event. */
  method MeasureCompanions(companions: seq<Companion>)
      returns (measurements: nat, log: seq<Event>, credentials: nat, sysext: bool)
    ensures log == CompanionLog(companions) && measurements == |log|
    ensures credentials > 0 <==> exists c :: c in companions && PcrOf(c.kind) == Some(PCR_KERNEL_CONFIG)
    ensures sysext <==> exists c :: c in companions && PcrOf(c.kind) == Some(PCR_SYSEXTS)
  {
    measurements, log, credentials, sysext := 0, [], 0, false;
    for i := 0 to |companions|
      invariant log == CompanionLog(companions[..i]) && measurements == |log|
      invariant credentials > 0 <==> exists c :: c in companions[..i] && PcrOf(c.kind) == Some(PCR_KERNEL_CONFIG)
      invariant sysext <==> exists c :: c in companions[..i] && PcrOf(c.kind) == Some(PCR_SYSEXTS)
    {
      var c := companions[i];
      assert companions[..i + 1][..i] == companions[..i];
      assert companions[..i + 1] == companions[..i] + [c];
      match c.kind {
        case PcrSignature | PcrPublicKey =>
          assert EventsOf(c) == [];
        case Credentials | GlobalCredentials =>
          log := log + [Event(PCR_KERNEL_CONFIG, c.cpio)];
          measurements := measurements + 1;
          credentials := credentials + 1;
        case SystemExtension =>
          log := log + [Event(PCR_SYSEXTS, c.cpio)];
          measurements := measurements + 1;
          sysext := true;
      }
    }
    assert companions[..|companions|] == companions;
  }

  /** What is found in the drop-in directories. */
  datatype Discovery = Discovery(globalCredentials: seq<Path16>, credentials: seq<Path16>, sysexts: seq<Path16>)

  /** One archive per non-empty list; a failing archive drops its whole group. */
  function Archived(vol: Volume, kind: Kind, target: Target, files: seq<Path16>): Option<seq<Companion>> {
    if files == [] then Some([])
    else
      match PackCpio(vol, target, files)
      case None => None
      case Some(bytes) => Some([Companion(kind, bytes)])
  }

  function OrNone(found: Option<seq<Companion>>): seq<Companion> {
    if found.Some? then found.value else []
  }

  /** The octal modes 0o500, 0o400, 0o555 and 0o444. */
  const GLOBAL_CREDENTIALS := Target(Ascii(".extra/global_credentials"), 0x140, 0x100)
  const CREDENTIALS := Target(Ascii(".extra/credentials"), 0x140, 0x100)
  const SYSEXT := Target(Ascii(".extra/sysext"), 0x16d, 0x124)

  /** `discover_credentials` and `discover_system_extensions`, in the order of the stub's main function. */
  function Discover(vol: Volume, d: Discovery): seq<Companion> {
    var fromGlobal := Archived(vol, Kind.GlobalCredentials, GLOBAL_CREDENTIALS, d.globalCredentials);
    var fromLocal := Archived(vol, Kind.Credentials, CREDENTIALS, d.credentials);
    (if fromGlobal.Some? && fromLocal.Some? then fromGlobal.value + fromLocal.value else [])
    + OrNone(Archived(vol, Kind.SystemExtension, SYSEXT, d.sysexts))
  }

  lemma ArchivedOrderFree(vol: Volume, kind: Kind, target: Target, files: seq<Path16>, found: seq<Path16>)
    requires multiset(files) == multiset(found)
    ensures Archived(vol, kind, target, files) == Archived(vol, kind, target, found)
  {
    hide PackCpio;
    PackCpioOrderFree(vol, target, files, found);
    assert |files| == |multiset(files)| == |multiset(found)| == |found|;
  }

  /** However the firmware lists the directories, the same archives are appended to the initrd, and the same bytes
      are measured into PCR 12 and 13. */
  lemma DiscoveryOrderFree(vol: Volume, d: Discovery, e: Discovery)
    requires multiset(d.globalCredentials) == multiset(e.globalCredentials)
    requires multiset(d.credentials) == multiset(e.credentials) && multiset(d.sysexts) == multiset(e.sysexts)
    ensures Discover(vol, d) == Discover(vol, e)
    ensures CompanionLog(Discover(vol, d)) == CompanionLog(Discover(vol, e))
  {
    hide Archived;
    ArchivedOrderFree(vol, Kind.GlobalCredentials, GLOBAL_CREDENTIALS, d.globalCredentials, e.globalCredentials);
    ArchivedOrderFree(vol, Kind.Credentials, CREDENTIALS, d.credentials, e.credentials);
    ArchivedOrderFree(vol, Kind.SystemExtension, SYSEXT, d.sysexts, e.sysexts);
  }

  // ---------------------------------------------------------------------------------------------
  // From the drop-in directories to the kernel

  /** Which files a companion of each kind holds, and where they go. */
  function FilesOf(d: Discovery, kind: Kind): seq<Path16> {
    match kind
    case GlobalCredentials => d.globalCredentials
    case Credentials => d.credentials
    case SystemExtension => d.sysexts
    case PcrSignature | PcrPublicKey => []
  }

  function TargetOf(kind: Kind): Target {
    match kind
    case GlobalCredentials => GLOBAL_CREDENTIALS
    case Credentials => CREDENTIALS
    case SystemExtension | PcrSignature | PcrPublicKey => SYSEXT
  }

  /** The calls that packed a discovered companion. */
  function OpsOf(vol: Volume, d: Discovery, kind: Kind): seq<Op> {
    PackOps(vol, TargetOf(kind), FilesOf(d, kind))
  }

  /** `c` is the archive of the files of its kind. */
  ghost predicate Faithful(vol: Volume, d: Discovery, c: Companion) {
    && CountAll(OpsOf(vol, d, c.kind)) <= U32_MAX
    && IsArchiveOf(c.cpio, AllEntries(OpsOf(vol, d, c.kind)))
  }

  lemma ArchivedFaithful(vol: Volume, d: Discovery, kind: Kind)
    requires Archived(vol, kind, TargetOf(kind), FilesOf(d, kind)).Some?
    ensures forall c :: c in Archived(vol, kind, TargetOf(kind), FilesOf(d, kind)).value ==> Faithful(vol, d, c)
  {
    hide PackCpio, IsArchiveOf, AllEntries, CountAll, PackOps;
    if FilesOf(d, kind) != [] {
      assert TargetOf(kind).dir != [];
      PackCpioContents(vol, TargetOf(kind), FilesOf(d, kind));
    }
  }

  lemma DiscoveredFaithful(vol: Volume, d: Discovery)
    ensures forall c :: c in Discover(vol, d) ==> Faithful(vol, d, c)
  {
    hide Archived, Faithful, GLOBAL_CREDENTIALS, CREDENTIALS, SYSEXT;
    if Archived(vol, Kind.GlobalCredentials, GLOBAL_CREDENTIALS, d.globalCredentials).Some? {
      ArchivedFaithful(vol, d, Kind.GlobalCredentials);
    }
    if Archived(vol, Kind.Credentials, CREDENTIALS, d.credentials).Some? {
      ArchivedFaithful(vol, d, Kind.Credentials);
    }
    if Archived(vol, Kind.SystemExtension, SYSEXT, d.sysexts).Some? {
      ArchivedFaithful(vol, d, Kind.SystemExtension);
    }
  }

  function Archives(companions: seq<Companion>): (r: seq<Bytes>)
    ensures |r| == |companions|
  {
    seq(|companions|, i requires 0 <= i < |companions| => companions[i].cpio)
  }

  function Concat(parts: seq<Bytes>): Bytes {
    if parts == [] then [] else Concat(parts[..|parts| - 1]) + parts[|parts| - 1]
  }

  lemma {:induction false} JustConcatenated(initrd: Bytes, parts: seq<Bytes>)
    requires forall i :: 0 <= i < |parts| ==> |parts[i]| % 4 == 0
    ensures Assemble(initrd, parts) == PadTo4(initrd) + Concat(parts)
    decreases |parts|
  {
    hide PadTo4;
    if parts == [] {
      assert PadTo4(initrd) + [] == PadTo4(initrd);
    } else {
      var front, last := parts[..|parts| - 1], parts[|parts| - 1];
      JustConcatenated(initrd, front);
      NoPaddingAfterCompanion(initrd, parts);
      assert PadTo4(initrd) + Concat(front) + last == PadTo4(initrd) + (Concat(front) + last);
    }
  }

  /** What the kernel is handed: the initrd padded to a multiple of four and then the discovered archives without
      any gap, from each of which a newc reader unpacks exactly the files found for it. */
  lemma FinalInitrd(initrd: Bytes, vol: Volume, d: Discovery, k: nat)
    requires k < |Discover(vol, d)|
    ensures var c, parts := Discover(vol, d)[k], Archives(Discover(vol, d));
      && Assemble(initrd, parts) == PadTo4(initrd) + Concat(parts)
      && CountAll(OpsOf(vol, d, c.kind)) <= U32_MAX
      && ReadArchive(Assemble(initrd, parts), Offset(initrd, parts, k)) ==
         Listing(AllEntries(OpsOf(vol, d, c.kind)), Offset(initrd, parts, k) + |c.cpio|)
  {
    hide Assemble, Concat, PadTo4, ReadArchive, Discover, AllEntries, CountAll, OpsOf, Offset;
    DiscoveredFaithful(vol, d);
    var found := Discover(vol, d);
    var parts := Archives(found);
    forall i | 0 <= i < |parts| ensures |parts[i]| % 4 == 0 {
      assert found[i] in found;
    }
    JustConcatenated(initrd, parts);
    assert found[k] in found;
    CompanionsReadable(initrd, parts, k, AllEntries(OpsOf(vol, d, found[k].kind)));
  }
}
