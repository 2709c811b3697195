/** Which paths a run may touch, which generations it retains, and what a malformed one prevents. */
module RunFrame {
  import opened FileSystem
  import opened EfiPaths
  import opened StubNames
  import opened Generations
  import opened GarbageCollector
  import opened Esp
  import opened Installation
  import Sorting

  /** The files of generations, those of the boot loader, or both. */
  datatype Zone = GenerationZone | BootZone | FullZone

  /** `EFI/nixos`, entries of `EFI/Linux` with a component starting with "nixos-", and stub measurements. */
  ghost predicate InGenerationZone(j: Job, p: Path) {
    || j.site.lay.Nixos() <= p
    || (j.site.lay.Linux() <= p && exists k :: |j.site.lay.Linux()| <= k < |p| && StartsWith(p[k], "nixos-"))
    || (j.cfg.pcrlock.Some? && j.LanzabooteDir() <= p)
  }

  function BootFiles(j: Job): set<Path> {
    {j.site.lay.Fallback(), j.site.lay.SystemdBoot(), j.site.lay.LoaderConf()}
  }

  /** Both copies of the boot loader, its configuration, their temporaries, and its measurements. */
  ghost predicate InBootZone(j: Job, p: Path) {
    || p in BootFiles(j)
    || (exists b :: b in BootFiles(j) && p == TmpPath(b))
    || (j.cfg.pcrlock.Some? && Parent(j.BootloaderMeasurement("next")) <= p)
  }

  ghost predicate InZone(j: Job, zone: Zone, p: Path) {
    match zone
    case GenerationZone => InGenerationZone(j, p)
    case BootZone => InBootZone(j, p)
    case FullZone => InGenerationZone(j, p) || InBootZone(j, p)
  }

  /** Directories that may have to be created on the way. */
  function LeadingDirs(j: Job): set<Path> {
    var lay := j.site.lay;
    Prefixes(lay.Nixos()) + Prefixes(lay.Linux()) + Prefixes(lay.FallbackDir()) + Prefixes(lay.Systemd())
      + Prefixes(lay.Loader())
    + (if j.cfg.pcrlock.Some? then Prefixes(j.cfg.pcrlock.value) else {})
  }

  /** Outside the zone nothing is removed or changed, and nothing but leading directories is created. */
  ghost predicate Frame(j: Job, zone: Zone, a: Fs, b: Fs) {
    forall p | !InZone(j, zone, p) ::
      && (p in a ==> p in b && b[p] == a[p])
      && (p in b && p !in a ==> b[p] == Dir && p in LeadingDirs(j))
  }

  /** A temporary name, or the measurement that is renamed at the end of a boot loader update. */
  ghost predicate IsScratch(j: Job, p: Path) {
    (p != [] && EndsWith(p[|p| - 1], "..tmp")) || (j.cfg.pcrlock.Some? && p == j.BootloaderMeasurement("next"))
  }

  ghost predicate Keeps(j: Job, a: Fs, b: Fs) {
    forall p | p in a && !IsScratch(j, p) :: p in b
  }

  /** The frame of every step from `a` to `b`; with `keeps`, nothing disappears either. */
  ghost predicate FrameAlong(j: Job, zone: Zone, keeps: bool, a: Disk, b: Disk) {
    && a.trace <= b.trace
    && (forall i | |a.trace| <= i < |b.trace| ::
        Frame(j, zone, a.fs, b.trace[i]) && (keeps ==> Keeps(j, a.fs, b.trace[i])))
    && Frame(j, zone, a.fs, b.fs) && (keeps ==> Keeps(j, a.fs, b.fs))
  }

  lemma FrameAlongTransitive(j: Job, zone: Zone, keeps: bool, a: Disk, b: Disk, c: Disk)
    requires FrameAlong(j, zone, keeps, a, b) && FrameAlong(j, zone, keeps, b, c)
    ensures FrameAlong(j, zone, keeps, a, c)
  {
    forall i | |a.trace| <= i < |c.trace|
      ensures Frame(j, zone, a.fs, c.trace[i]) && (keeps ==> Keeps(j, a.fs, c.trace[i]))
    {
      if i < |b.trace| {
        assert c.trace[i] == b.trace[i];
      } else {
        FrameTransitive(j, zone, a.fs, b.fs, c.trace[i]);
      }
    }
    FrameTransitive(j, zone, a.fs, b.fs, c.fs);
  }

  lemma FrameTransitive(j: Job, zone: Zone, a: Fs, b: Fs, c: Fs)
    requires Frame(j, zone, a, b) && Frame(j, zone, b, c)
    ensures Frame(j, zone, a, c)
  {
  }

  lemma FrameWidens(j: Job, zone: Zone, keeps: bool, a: Disk, b: Disk)
    requires FrameAlong(j, zone, keeps, a, b)
    ensures FrameAlong(j, FullZone, keeps, a, b)
  {
  }

  lemma MakeDirsFrame(j: Job, zone: Zone, disk: Disk, p: Path)
    requires forall q :: q in Prefixes(p) ==> q in LeadingDirs(j) || InZone(j, zone, q)
    ensures FrameAlong(j, zone, true, disk, disk.MakeDirs(p))
  {
  }

  lemma PutFrame(j: Job, zone: Zone, fs: Fs, p: Path, node: Node)
    requires InZone(j, zone, p)
    ensures Frame(j, zone, fs, fs[p := node]) && Keeps(j, fs, fs[p := node])
  {
  }

  lemma WriteFrame(j: Job, zone: Zone, disk: Disk, p: Path, content: Bytes)
    requires InZone(j, zone, p)
    ensures FrameAlong(j, zone, true, disk, disk.Write(p, content))
  {
    PutFrame(j, zone, disk.fs, p, File([]));
    PutFrame(j, zone, disk.fs, p, File(content));
    var n, d := |disk.trace|, disk.Write(p, content);
    assert d.trace == disk.trace + [disk.fs[p := File([])], disk.fs[p := File(content)]];
  }

  lemma RenameFrame(j: Job, zone: Zone, disk: Disk, from: Path, to: Path)
    requires InZone(j, zone, from) && InZone(j, zone, to) && IsScratch(j, from)
    ensures FrameAlong(j, zone, true, disk, disk.Rename(from, to))
  {
    hide InZone, IsScratch, LeadingDirs;
  }

  lemma AtomicWriteFrame(j: Job, zone: Zone, disk: Disk, content: Bytes, to: Path)
    requires to != [] && InZone(j, zone, to) && InZone(j, zone, TmpPath(to))
    requires forall q :: q in Prefixes(Parent(to)) ==> q in LeadingDirs(j) || InZone(j, zone, q)
    ensures FrameAlong(j, zone, true, disk, j.AtomicWrite(disk, content, to))
  {
    var made := disk.MakeDirs(Parent(to));
    var written := made.Write(TmpPath(to), content);
    MakeDirsFrame(j, zone, disk, Parent(to));
    WriteFrame(j, zone, made, TmpPath(to), content);
    FrameAlongTransitive(j, zone, true, disk, made, written);
    assert EndsWith(TmpPath(to)[|to| - 1], "..tmp");
    RenameFrame(j, zone, written, TmpPath(to), to);
    FrameAlongTransitive(j, zone, true, disk, written, j.AtomicWrite(disk, content, to));
  }

  // ---------------------------------------------------------------------------------------------
  // The generations

  lemma StoredFrame(j: Job, st: State, content: Bytes, lbl: string)
    ensures FrameAlong(j, GenerationZone, true, st.disk, j.InstallStored(st, content, lbl).disk)
  {
    var to := j.StoreTarget(content, lbl);
    assert Parent(to) == j.site.lay.Nixos();
    assert j.site.lay.Nixos() <= TmpPath(to);
    AtomicWriteFrame(j, GenerationZone, st.disk, content, to);
  }

  lemma StubTmpName(x: string)
    requires x != ""
    ensures TmpName(x + ".efi") == x + "..tmp"
  {
    var name := x + ".efi";
    assert name[|x|] == '.' && name[|x| + 1..] == "efi";
    assert forall k :: |x| < k < |name| ==> name[k] == "efi"[k - |x| - 1];
    assert LastDot(name) == |x|;
    assert name[..|x|] == x;
  }

  lemma StubZone(j: Job, g: Generation)
    ensures var to := j.StubTarget(g);
      && to != [] && InGenerationZone(j, to) && InGenerationZone(j, TmpPath(to)) && Parent(to) == j.site.lay.Linux()
  {
    var to, lay := j.StubTarget(g), j.site.lay;
    var id, tries := j.IdOf(g), j.cfg.bootcountingInitialTries;
    var stem := StubPrefix(id) + (if tries > 0 then "+" + Decimal(tries) else "");
    assert StubName(id, tries) == stem + ".efi" && "nixos-" <= StubPrefix(id) <= stem;
    StubTmpName(stem);
    assert to[|lay.Linux()|] == stem + ".efi" && TmpPath(to)[|lay.Linux()|] == stem + "..tmp";
    assert StartsWith(to[|lay.Linux()|], "nixos-") && StartsWith(TmpPath(to)[|lay.Linux()|], "nixos-");
    assert Parent(to) == lay.Linux() && lay.Linux() <= TmpPath(to);
  }

  lemma MeasureFrame(j: Job, st: State, g: Generation, image: Bytes)
    ensures FrameAlong(j, GenerationZone, true, st.disk, j.MeasureImage(st, g, image).disk)
  {
    if j.cfg.pcrlock.Some? {
      var to := j.LanzabooteMeasurement(g);
      assert Parent(to) == j.LanzabooteDir();
      forall q | q in Prefixes(Parent(to)) ensures q in LeadingDirs(j) || InGenerationZone(j, q) {
        if |q| <= |j.cfg.pcrlock.value| {
          assert q == j.cfg.pcrlock.value[..|q|];
        }
      }
      var made := st.disk.MakeDirs(Parent(to));
      MakeDirsFrame(j, GenerationZone, st.disk, Parent(to));
      WriteFrame(j, GenerationZone, made, to, j.site.env.lockPe(image));
      FrameAlongTransitive(j, GenerationZone, true, st.disk, made, made.Write(to, j.site.env.lockPe(image)));
    }
  }

  lemma InstallStubFrame(j: Job, st: State, g: Generation, image: Bytes)
    ensures FrameAlong(j, GenerationZone, true, st.disk, j.InstallStub(st, g, image).disk)
  {
    var measured := j.MeasureImage(st, g, image);
    MeasureFrame(j, st, g, image);
    StubZone(j, g);
    AtomicWriteFrame(j, GenerationZone, measured.disk, j.cfg.sign(image), j.StubTarget(g));
    FrameAlongTransitive(j, GenerationZone, true, st.disk, measured.disk, j.InstallStub(st, g, image).disk);
  }

  lemma InstallGenerationFrame(j: Job, st: State, g: Generation)
    ensures FrameAlong(j, GenerationZone, true, st.disk, j.InstallGeneration(st, g).disk)
  {
    hide InZone, IsScratch, LeadingDirs, Job.InstallStored, Job.InstallStub, Job.StubImage, Job.ReadInstalled;
    var (registered, outcome) := j.Register(st, g);
    if outcome == NotInstalled {
      StoredFrame(j, registered, g.kernel, j.KernelLabel(g));
      var withKernel := j.InstallStored(registered, g.kernel, j.KernelLabel(g));
      if withKernel.status == Running && g.initrd.Some? {
        StoredFrame(j, withKernel, g.initrd.value, j.InitrdLabel(g));
        var withInitrd := j.InstallStored(withKernel, g.initrd.value, j.InitrdLabel(g));
        FrameAlongTransitive(j, GenerationZone, true, st.disk, withKernel.disk, withInitrd.disk);
        var image := j.StubImage(g, g.initrd.value);
        if withInitrd.status == Running && image.Some? {
          InstallStubFrame(j, withInitrd, g, image.value);
          FrameAlongTransitive(j, GenerationZone, true, st.disk, withInitrd.disk,
            j.InstallStub(withInitrd, g, image.value).disk);
        }
      }
    }
  }

  /** Installing generations stays within their files and removes none. */
  lemma {:induction false} InstallAllFrame(j: Job, st: State, gs: seq<Generation>)
    ensures FrameAlong(j, GenerationZone, true, st.disk, j.InstallAll(st, gs).disk)
    decreases |gs|
  {
    if gs != [] && st.status == Running {
      var next := j.InstallGeneration(st, gs[0]);
      InstallGenerationFrame(j, st, gs[0]);
      InstallAllFrame(j, next, gs[1..]);
      FrameAlongTransitive(j, GenerationZone, true, st.disk, next.disk, j.InstallAll(st, gs).disk);
    }
  }

  // ---------------------------------------------------------------------------------------------
  // The boot loader

  lemma BootWriteFrame(j: Job, disk: Disk, content: Bytes, to: Path)
    requires to in BootFiles(j)
    ensures FrameAlong(j, BootZone, true, disk, j.AtomicWrite(disk, content, to))
  {
    var lay := j.site.lay;
    assert Parent(lay.Fallback()) == lay.FallbackDir() && Parent(lay.SystemdBoot()) == lay.Systemd();
    assert Parent(lay.LoaderConf()) == lay.Loader();
    AtomicWriteFrame(j, BootZone, disk, content, to);
  }

  lemma MeasureBootFrame(j: Job, disk: Disk, content: Bytes)
    requires j.cfg.pcrlock.Some?
    ensures var next := j.BootloaderMeasurement("next");
      FrameAlong(j, BootZone, true, disk, disk.MakeDirs(Parent(next)).Write(next, content))
  {
    var next := j.BootloaderMeasurement("next");
    forall q | q in Prefixes(Parent(next)) ensures q in LeadingDirs(j) || InBootZone(j, q) {
      if |q| <= |j.cfg.pcrlock.value| {
        assert q == j.cfg.pcrlock.value[..|q|];
      } else {
        assert q == Parent(next);
      }
    }
    var made := disk.MakeDirs(Parent(next));
    MakeDirsFrame(j, BootZone, disk, Parent(next));
    WriteFrame(j, BootZone, made, next, content);
    FrameAlongTransitive(j, BootZone, true, disk, made, made.Write(next, content));
  }

  lemma UpdateSystemdBootFrame(j: Job, disk: Disk)
    ensures FrameAlong(j, BootZone, true, disk, j.UpdateSystemdBoot(disk))
  {
    var lay, signed := j.site.lay, j.cfg.sign(j.cfg.systemdBoot);
    var measured := disk;
    if j.cfg.pcrlock.Some? {
      var next := j.BootloaderMeasurement("next");
      measured := disk.MakeDirs(Parent(next)).Write(next, j.site.env.lockPe(j.cfg.systemdBoot));
      MeasureBootFrame(j, disk, j.site.env.lockPe(j.cfg.systemdBoot));
    }
    var first := j.AtomicWrite(measured, signed, lay.Fallback());
    var copied := j.AtomicWrite(first, signed, lay.SystemdBoot());
    BootWriteFrame(j, measured, signed, lay.Fallback());
    FrameAlongTransitive(j, BootZone, true, disk, measured, first);
    BootWriteFrame(j, first, signed, lay.SystemdBoot());
    FrameAlongTransitive(j, BootZone, true, disk, first, copied);
    if j.cfg.pcrlock.Some? {
      var next, current := j.BootloaderMeasurement("next"), j.BootloaderMeasurement("current");
      assert Parent(next) == Parent(current) && Parent(current) <= current;
      RenameFrame(j, BootZone, copied, next, current);
      FrameAlongTransitive(j, BootZone, true, disk, copied, j.UpdateSystemdBoot(disk));
    }
  }

  lemma InstallSystemdBootFrame(j: Job, st: State)
    ensures FrameAlong(j, BootZone, true, st.disk, j.InstallSystemdBoot(st).disk)
  {
    hide Job.NeedsSystemdBoot, Job.UpdateSystemdBoot, Job.AtomicWrite, LeadingDirs, IsScratch, InZone;
    var need := j.NeedsSystemdBoot(st.disk.fs);
    if need.Some? {
      var updated := st;
      if need.value {
        updated := st.(disk := j.UpdateSystemdBoot(st.disk));
        UpdateSystemdBootFrame(j, st.disk);
      }
      BootWriteFrame(j, updated.disk, j.cfg.loaderConf, j.site.lay.LoaderConf());
      FrameAlongTransitive(j, BootZone, true, st.disk, updated.disk,
        j.AtomicWrite(updated.disk, j.cfg.loaderConf, j.site.lay.LoaderConf()));
    }
  }

  // ---------------------------------------------------------------------------------------------
  // The sweep

  /** Whatever is condemned lies in the zone of the generations. */
  lemma CondemnedInZone(j: Job, roots: set<Path>, filter: Path -> bool, dir: Path, p: Path)
    requires Condemned(roots, filter, dir, p) && j.site.lay.Linux() in roots
    requires || dir == j.site.lay.Nixos() || (dir == j.site.lay.Linux() && filter == IsOurs)
             || (j.cfg.pcrlock.Some? && dir == j.LanzabooteDir())
    ensures InGenerationZone(j, p)
  {
    if dir == j.site.lay.Linux() && filter == IsOurs {
      var k :| |dir| <= k <= |p| && dir <= p && IsGarbage(roots, filter, p[..k]);
      assert p[..|dir|] == dir;
      assert StartsWith(p[k - 1], "nixos-");
    }
  }

  lemma CollectFrame(j: Job, disk: Disk, roots: set<Path>, filter: Path -> bool, dir: Path)
    requires j.Valid() && j.site.lay.Linux() in roots
    requires || dir == j.site.lay.Nixos() || (dir == j.site.lay.Linux() && filter == IsOurs)
             || (j.cfg.pcrlock.Some? && dir == j.LanzabooteDir())
    ensures FrameAlong(j, GenerationZone, false, disk, j.Collect(disk, roots, filter, dir))
  {
    hide InGenerationZone, Condemned, Sweep, LeadingDirs, IsScratch;
    var walk := j.site.env.walk(disk.fs, dir, GarbageIn(disk.fs, roots, filter, dir));
    assert IsWalk(disk.fs, dir, GarbageIn(disk.fs, roots, filter, dir), walk);
    SweepSound(disk, roots, filter, dir, walk);
    forall p | !InGenerationZone(j, p) ensures !Condemned(roots, filter, dir, p) {
      if Condemned(roots, filter, dir, p) {
        CondemnedInZone(j, roots, filter, dir, p);
      }
    }
  }

  lemma CollectGarbageFrame(j: Job, disk: Disk, roots: set<Path>)
    requires j.Valid() && j.site.lay.Linux() in roots
    ensures FrameAlong(j, GenerationZone, false, disk, j.CollectGarbage(disk, roots))
  {
    var stored := j.Collect(disk, roots, Everything, j.site.lay.Nixos());
    var stubs := j.Collect(stored, roots, IsOurs, j.site.lay.Linux());
    CollectFrame(j, disk, roots, Everything, j.site.lay.Nixos());
    CollectFrame(j, stored, roots, IsOurs, j.site.lay.Linux());
    FrameAlongTransitive(j, GenerationZone, false, disk, stored, stubs);
    if j.cfg.pcrlock.Some? {
      CollectFrame(j, stubs, roots, Everything, j.LanzabooteDir());
      FrameAlongTransitive(j, GenerationZone, false, disk, stubs, j.CollectGarbage(disk, roots));
    }
  }

  // ---------------------------------------------------------------------------------------------
  // The whole run

  lemma StoredGrows(j: Job, st: State, content: Bytes, lbl: string)
    ensures var r := j.InstallStored(st, content, lbl); st.roots <= r.roots && r.brokenGens == st.brokenGens
  {
  }

  lemma RegisterGrows(j: Job, st: State, g: Generation)
    ensures var r := j.Register(st, g).0; st.roots <= r.roots && r.brokenGens == st.brokenGens && r.disk == st.disk
  {
  }

  lemma StubGrows(j: Job, st: State, g: Generation, image: Bytes)
    ensures var r := j.InstallStub(st, g, image); st.roots <= r.roots && r.brokenGens == st.brokenGens
  {
  }

  lemma ReinstallGrows(j: Job, st: State, g: Generation)
    ensures var r := j.Reinstall(st, g); st.roots <= r.roots && r.brokenGens == st.brokenGens
  {
    StoredGrows(j, st, g.kernel, j.KernelLabel(g));
    var withKernel := j.InstallStored(st, g.kernel, j.KernelLabel(g));
    if withKernel.status == Running && g.initrd.Some? {
      StoredGrows(j, withKernel, g.initrd.value, j.InitrdLabel(g));
      var withInitrd := j.InstallStored(withKernel, g.initrd.value, j.InitrdLabel(g));
      var image := j.StubImage(g, g.initrd.value);
      if withInitrd.status == Running && image.Some? {
        StubGrows(j, withInitrd, g, image.value);
      }
    }
  }

  lemma InstallGenerationGrows(j: Job, st: State, g: Generation)
    ensures var r := j.InstallGeneration(st, g); st.roots <= r.roots && r.brokenGens == st.brokenGens
  {
    RegisterGrows(j, st, g);
    var (registered, outcome) := j.Register(st, g);
    if outcome == NotInstalled {
      ReinstallGrows(j, registered, g);
    }
  }

  /** Roots are only ever added, and installing breaks no further generation. */
  lemma {:induction false} InstallAllGrows(j: Job, st: State, gs: seq<Generation>)
    ensures var r := j.InstallAll(st, gs); st.roots <= r.roots && r.brokenGens == st.brokenGens
    decreases |gs|
  {
    if gs != [] && st.status == Running {
      InstallGenerationGrows(j, st, gs[0]);
      InstallAllGrows(j, j.InstallGeneration(st, gs[0]), gs[1..]);
    }
  }

  lemma BeforeSweepFrame(j: Job, fs: Fs)
    ensures FrameAlong(j, FullZone, true, Disk(fs, []), j.BeforeSweep(fs).disk)
    ensures j.InitialRoots() <= j.BeforeSweep(fs).roots
  {
    var st := j.Begin(fs);
    if Readable(j.Retained()) != [] {
      var installed := j.InstallAll(st, j.AllTargets());
      InstallAllFrame(j, st, j.AllTargets());
      InstallAllGrows(j, st, j.AllTargets());
      FrameWidens(j, GenerationZone, true, st.disk, installed.disk);
      if installed.status == Running {
        InstallSystemdBootFrame(j, installed);
        FrameWidens(j, BootZone, true, installed.disk, j.InstallSystemdBoot(installed).disk);
        FrameAlongTransitive(j, FullZone, true, st.disk, installed.disk, j.InstallSystemdBoot(installed).disk);
      }
    }
  }

  /** At every step, a run touches only its own files, on any file system whatsoever. */
  lemma RunTouchesOnlyItsZone(j: Job, fs: Fs)
    requires j.Valid()
    ensures FrameAlong(j, FullZone, false, Disk(fs, []), j.Install(fs).disk)
  {
    var before := j.BeforeSweep(fs);
    BeforeSweepFrame(j, fs);
    assert FrameAlong(j, FullZone, false, Disk(fs, []), before.disk);
    if j.Install(fs) != before {
      CollectGarbageFrame(j, before.disk, before.roots);
      FrameWidens(j, GenerationZone, false, before.disk, j.Install(fs).disk);
      FrameAlongTransitive(j, FullZone, false, Disk(fs, []), before.disk, j.Install(fs).disk);
    }
  }

  /** One retained link that cannot be read keeps everything that was there, temporaries aside. */
  lemma MalformedPreventsSweep(j: Job, fs: Fs, link: GenerationLink)
    requires link in j.Retained() && link.generation.None?
    ensures FrameAlong(j, FullZone, true, Disk(fs, []), j.Install(fs).disk)
  {
    BeforeSweepFrame(j, fs);
    BrokenStays(j, fs);
    assert link.version in BrokenVersions(j.Retained());
  }

  lemma BrokenStays(j: Job, fs: Fs)
    ensures j.BeforeSweep(fs).brokenGens == BrokenVersions(j.Retained())
  {
    hide Job.InstallAll, Job.NeedsSystemdBoot, Job.UpdateSystemdBoot, Job.AtomicWrite, Readable, Job.AllTargets,
      Job.Retained;
    InstallAllGrows(j, j.Begin(fs), j.AllTargets());
  }

  lemma {:induction false} NoneReadable(links: seq<GenerationLink>)
    requires forall l :: l in links ==> l.generation.None?
    ensures Readable(links) == []
  {
    if links != [] {
      assert links[0] in links;
      NoneReadable(links[1..]);
    }
  }

  /** With no readable generation at all, the file system is not touched. */
  lemma AllMalformedChangesNothing(j: Job, fs: Fs)
    requires forall l :: l in j.Retained() ==> l.generation.None?
    ensures j.Install(fs).disk == Disk(fs, []) && j.Install(fs).status == NoBootableGenerations
  {
    NoneReadable(j.Retained());
  }

  /** `links` falls into `dropped` and `kept`, no dropped version being above a kept one. */
  ghost predicate NewestSplit(links: seq<GenerationLink>, dropped: seq<GenerationLink>, kept: seq<GenerationLink>) {
    && multiset(dropped) + multiset(kept) == multiset(links)
    && forall d, k :: d in dropped && k in kept ==> d.version <= k.version
  }

  /** The retained links are the newest `limit` ones, oldest first; all of them without a limit. */
  lemma RetainsNewest(links: seq<GenerationLink>, limit: nat)
    ensures var kept := SelectLinks(links, limit);
      && |kept| == (if 0 < limit < |links| then limit else |links|)
      && Sorting.Ascending(VersionOrder, kept)
      && exists dropped :: NewestSplit(links, dropped, kept)
  {
    var sorted, kept := Sorting.Sort(VersionOrder, links), SelectLinks(links, limit);
    Sorting.SortCorrect(VersionOrder, links);
    assert |sorted| == |links| by {
      assert |multiset(sorted)| == |multiset(links)|;
    }
    var n := |sorted| - |kept|;
    assert kept == sorted[n..];
    CutAscending(links, sorted, n);
    assert NewestSplit(links, sorted[..n], kept);
  }

  lemma CutAscending(links: seq<GenerationLink>, sorted: seq<GenerationLink>, n: nat)
    requires Sorting.Ascending(VersionOrder, sorted) && multiset(sorted) == multiset(links) && n <= |sorted|
    ensures NewestSplit(links, sorted[..n], sorted[n..]) && Sorting.Ascending(VersionOrder, sorted[n..])
  {
    assert sorted == sorted[..n] + sorted[n..];
    forall d, k | d in sorted[..n] && k in sorted[n..] ensures d.version <= k.version {
      var a :| 0 <= a < n && sorted[a] == d;
      var b :| n <= b < |sorted| && sorted[b] == k;
      assert VersionOrder(sorted[a], sorted[b]);
    }
  }
}
