/** What becomes of the files in the drop-in directories: which companions are made, what the kernel unpacks from them,
    and what is measured. */
module CompanionContents {
  import opened FileSystem
  import opened CpioFormat
  import opened CpioWriter
  import opened CpioContents
  import opened Companions
  import opened Sorting
  import opened TpmLog

  // ---------------------------------------------------------------------------------------------
  // Which companions there are

  /** The files of a group can be packed. */
  ghost predicate Packs(vol: Volume, target: Target, files: seq<Path16>) {
    files == [] || PackCpio(vol, target, files).Some?
  }

  ghost predicate CredentialsPack(vol: Volume, d: Discovery) {
    Packs(vol, GLOBAL_CREDENTIALS, d.globalCredentials) && Packs(vol, CREDENTIALS, d.credentials)
  }

  /** The kinds of companions to be made, in order: one for each group of files, but no credentials at all if either
      group cannot be packed. */
  ghost predicate IsMade(vol: Volume, d: Discovery, kind: Kind) {
    match kind
    case GlobalCredentials => d.globalCredentials != [] && CredentialsPack(vol, d)
    case Credentials => d.credentials != [] && CredentialsPack(vol, d)
    case SystemExtension => d.sysexts != [] && Packs(vol, SYSEXT, d.sysexts)
    case PcrSignature | PcrPublicKey => false
  }

  function Place(kind: Kind): nat {
    match kind
    case GlobalCredentials => 0
    case Credentials => 1
    case SystemExtension => 2
    case PcrSignature => 3
    case PcrPublicKey => 4
  }

  /** One companion for each group that can be packed: global credentials, then those of the image, then extensions. */
  lemma DiscoveredExactly(vol: Volume, d: Discovery)
    ensures var found := Discover(vol, d);
      && (forall kind :: IsMade(vol, d, kind) <==> exists k :: 0 <= k < |found| && found[k].kind == kind)
      && (forall i, k :: 0 <= i < k < |found| ==> Place(found[i].kind) < Place(found[k].kind))
  {
    hide PackCpio, GLOBAL_CREDENTIALS, CREDENTIALS, SYSEXT;
    var found := Discover(vol, d);
    var g, c := CredentialsPack(vol, d) && d.globalCredentials != [], CredentialsPack(vol, d) && d.credentials != [];
    assert g ==> |found| > 0 && found[0].kind == Kind.GlobalCredentials;
    assert c ==> |found| > (if g then 1 else 0) && found[if g then 1 else 0].kind == Kind.Credentials;
    assert IsMade(vol, d, Kind.SystemExtension) ==> |found| > 0 && found[|found| - 1].kind == Kind.SystemExtension;
  }

  // ---------------------------------------------------------------------------------------------
  // What is in them

  /** Where the files of each kind go, with the modes of the directory and of the files. */
  ghost predicate Destination(kind: Kind, dir: string, dirMode: bv32, accessMode: bv32) {
    match kind
    case GlobalCredentials => dir == ".extra/global_credentials" && dirMode == 0x140 && accessMode == 0x100
    case Credentials => dir == ".extra/credentials" && dirMode == 0x140 && accessMode == 0x100
    case SystemExtension => dir == ".extra/sysext" && dirMode == 0x16D && accessMode == 0x124
    case PcrSignature | PcrPublicKey => false
  }

  /** What was found for each kind. */
  ghost predicate FoundFor(d: Discovery, kind: Kind, files: seq<Path16>) {
    match kind
    case GlobalCredentials => files == d.globalCredentials
    case Credentials => files == d.credentials
    case SystemExtension => files == d.sysexts
    case PcrSignature | PcrPublicKey => false
  }

  /** The calls that make an archive of `files`, in this order, below `dir`. */
  function Calls(vol: Volume, dir: Bytes, dirMode: bv32, accessMode: bv32, files: seq<Path16>): seq<Op> {
    [Prefix(dir, dirMode)]
    + seq(|files|, i requires 0 <= i < |files| => One(vol.basename(files[i]), vol.read(files[i]), dir, accessMode))
  }

  lemma OpsAreCalls(vol: Volume, d: Discovery, kind: Kind, dir: string, dirMode: bv32, accessMode: bv32)
    requires Destination(kind, dir, dirMode, accessMode)
    ensures OpsOf(vol, d, kind) ==
      Calls(vol, Ascii(dir), dirMode, accessMode, Sort(PathOrder, FilesOf(d, kind)))
  {
    hide Sort, Ascii;
  }

  lemma DiscoveredKind(vol: Volume, d: Discovery, k: nat)
    requires k < |Discover(vol, d)|
    ensures var kind := Discover(vol, d)[k].kind;
      FoundFor(d, kind, FilesOf(d, kind)) && exists dir, dirMode, accessMode ::
        Destination(kind, dir, dirMode, accessMode)
  {
    hide PackCpio, GLOBAL_CREDENTIALS, CREDENTIALS, SYSEXT;
    assert Destination(Kind.GlobalCredentials, ".extra/global_credentials", 0x140, 0x100);
    assert Destination(Kind.Credentials, ".extra/credentials", 0x140, 0x100);
    assert Destination(Kind.SystemExtension, ".extra/sysext", 0x16D, 0x124);
  }

  /** From the drop-in directories to the kernel: from the `k`th archive behind the initrd a newc reader unpacks the
      directories leading to the destination of its kind and then, in ascending order of their paths, every file that
      was found for it, under its own name and with its contents. */
  lemma FilesDelivered(initrd: Bytes, vol: Volume, d: Discovery, k: nat, dir: string, dirMode: bv32, accessMode: bv32)
      returns (files: seq<Path16>, found: seq<Path16>, es: seq<Entry>)
    requires k < |Discover(vol, d)| && Destination(Discover(vol, d)[k].kind, dir, dirMode, accessMode)
    ensures FoundFor(d, Discover(vol, d)[k].kind, found)
    ensures multiset(files) == multiset(found) && Ascending(PathOrder, files)
    ensures SpelledOut(Calls(vol, Ascii(dir), dirMode, accessMode, files), es)
    ensures var c, parts := Discover(vol, d)[k], Archives(Discover(vol, d));
      && Assemble(initrd, parts) == PadTo4(initrd) + Concat(parts)
      && ReadArchive(Assemble(initrd, parts), Offset(initrd, parts, k)) ==
         Listing(es, Offset(initrd, parts, k) + |c.cpio|)
  {
    hide Discover, Assemble, Concat, PadTo4, ReadArchive, Offset, Sort, OpsOf, SpelledOut, Calls, Archives, AllEntries,
      Destination, FoundFor, CountAll;
    var kind := Discover(vol, d)[k].kind;
    found := FilesOf(d, kind);
    files := Sort(PathOrder, found);
    DiscoveredKind(vol, d, k);
    PathOrderIsTotalOrder();
    SortCorrect(PathOrder, found);
    OpsAreCalls(vol, d, kind, dir, dirMode, accessMode);
    FinalInitrd(initrd, vol, d, k);
    es := AllEntries(OpsOf(vol, d, kind));
    EntriesSpelledOut(OpsOf(vol, d, kind));
  }

  /** The padding behind the initrd itself: zeros up to the next multiple of four. */
  lemma InitrdPadded(initrd: Bytes)
    ensures initrd <= PadTo4(initrd) && |PadTo4(initrd)| % 4 == 0 && |PadTo4(initrd)| < |initrd| + 4
    ensures forall i :: |initrd| <= i < |PadTo4(initrd)| ==> PadTo4(initrd)[i] == 0
  {
    PadIsRemainder(|initrd|);
  }

  // ---------------------------------------------------------------------------------------------
  // What is measured

  /** What was measured into a PCR, in order. */
  function DataIn(log: seq<Event>, pcr: nat): seq<Bytes> {
    if log == [] then []
    else DataIn(log[..|log| - 1], pcr) + (if log[|log| - 1].pcr == pcr then [log[|log| - 1].data] else [])
  }

  /** The archives of the given kinds, in order. */
  function ArchivesOf(companions: seq<Companion>, kinds: set<Kind>): seq<Bytes> {
    if companions == [] then []
    else
      var last := companions[|companions| - 1];
      ArchivesOf(companions[..|companions| - 1], kinds) + (if last.kind in kinds then [last.cpio] else [])
  }

  lemma DataInMore(log: seq<Event>, e: Event, pcr: nat)
    ensures DataIn(log + [e], pcr) == DataIn(log, pcr) + (if e.pcr == pcr then [e.data] else [])
  {
    assert (log + [e])[..|log|] == log;
  }

  lemma EventsByKind(c: Companion)
    ensures EventsOf(c) ==
      if c.kind in {Kind.Credentials, Kind.GlobalCredentials} then [Event(12, c.cpio)]
      else if c.kind == Kind.SystemExtension then [Event(13, c.cpio)]
      else []
  {
  }

  lemma {:induction false} MeasuredInto(companions: seq<Companion>, pcr: nat, kinds: set<Kind>)
    requires (pcr == 12 && kinds == {Kind.Credentials, Kind.GlobalCredentials})
      || (pcr == 13 && kinds == {Kind.SystemExtension})
    ensures DataIn(CompanionLog(companions), pcr) == ArchivesOf(companions, kinds)
    decreases |companions|
  {
    hide EventsOf, DataIn;
    if companions == [] {
      assert DataIn([], pcr) == [] by {
        NothingIn(pcr);
      }
    } else {
      var front, last := companions[..|companions| - 1], companions[|companions| - 1];
      MeasuredInto(front, pcr, kinds);
      EventsByKind(last);
      var log := CompanionLog(front);
      assert CompanionLog(companions) == log + EventsOf(last);
      if EventsOf(last) == [] {
        assert log + [] == log;
      } else {
        DataInMore(log, EventsOf(last)[0], pcr);
      }
    }
  }

  lemma NothingIn(pcr: nat)
    ensures DataIn([], pcr) == []
  {
  }

  lemma {:induction false} NothingElse(companions: seq<Companion>)
    ensures forall i :: 0 <= i < |CompanionLog(companions)| ==> CompanionLog(companions)[i].pcr in {12, 13}
    decreases |companions|
  {
    hide EventsOf;
    if companions != [] {
      NothingElse(companions[..|companions| - 1]);
      EventsByKind(companions[|companions| - 1]);
    }
  }

  /** Credentials of both kinds go to PCR 12, extensions to PCR 13, signatures and keys nowhere, and what is measured
      is the archive itself. */
  lemma MeasuredByKind(companions: seq<Companion>)
    ensures DataIn(CompanionLog(companions), 12) ==
      ArchivesOf(companions, {Kind.Credentials, Kind.GlobalCredentials})
    ensures DataIn(CompanionLog(companions), 13) == ArchivesOf(companions, {Kind.SystemExtension})
    ensures forall i :: 0 <= i < |CompanionLog(companions)| ==> CompanionLog(companions)[i].pcr in {12, 13}
  {
    hide DataIn, CompanionLog, ArchivesOf;
    MeasuredInto(companions, 12, {Kind.Credentials, Kind.GlobalCredentials});
    MeasuredInto(companions, 13, {Kind.SystemExtension});
    NothingElse(companions);
  }
}
