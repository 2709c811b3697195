/** The second run: everything is found, nothing is written, nothing is garbage. */
module SecondRun {
  import opened FileSystem
  import opened EfiPaths
  import opened StubNames
  import opened Generations
  import opened GarbageCollector
  import opened Esp
  import opened Installation
  import opened InstallSafety
  import opened RunFrame
  import opened Idempotence
  import BootSafety

  // ---------------------------------------------------------------------------------------------
  // The boot loader

  /** The boot loader needs no update, and its configuration is the one to be installed. */
  predicate BootSettled(j: Job, fs: Fs) {
    var conf := j.site.lay.LoaderConf();
    && j.NeedsSystemdBoot(fs) == Some(false)
    && conf in fs && fs[conf].File? && j.site.env.sha256(fs[conf].content) == j.site.env.sha256(j.cfg.loaderConf)
  }

  lemma SettledIdle(j: Job, st: State)
    requires BootSettled(j, st.disk.fs)
    ensures j.InstallSystemdBoot(st) == st
  {
  }

  /** An atomic write affects its target and its temporary only, apart from new directories. */
  lemma AtomicWriteEffect(j: Job, disk: Disk, content: Bytes, to: Path, p: Path)
    ensures var d := j.AtomicWrite(disk, content, to);
      && to in d.fs && d.fs[to] == File(content)
      && (p != to && p != TmpPath(to) && p in disk.fs ==> p in d.fs && d.fs[p] == disk.fs[p])
  {
    var made := disk.MakeDirs(Parent(to));
    var written := made.Write(TmpPath(to), content);
    assert written.fs[TmpPath(to)] == File(content);
  }

  lemma BootFilesApart(j: Job, to: Path, p: Path)
    requires to in BootFiles(j) && p in BootFiles(j) && p != to
    ensures TmpPath(to) != p
  {
    var lay := j.site.lay;
    assert lay.Fallback()[|lay.esp| + 1] == "BOOT" && lay.SystemdBoot()[|lay.esp| + 1] == "systemd";
    assert |to| == |lay.esp| + 3 ==> TmpPath(to)[|lay.esp| + 1] == to[|lay.esp| + 1];
  }

  lemma MeasurementApart(j: Job, to: Path, p: Path)
    requires j.Valid() && j.cfg.pcrlock.Some? && to in BootFiles(j) && j.cfg.pcrlock.value <= p
    ensures p != to && p != TmpPath(to)
  {
    OffEsp(j, p);
    assert j.site.lay.esp <= to && j.site.lay.esp <= TmpPath(to);
  }

  /** Both copies are the signed binary, and "current" exists. */
  predicate BootUpdated(j: Job, fs: Fs) {
    && (forall to | to in {j.site.lay.Fallback(), j.site.lay.SystemdBoot()} ::
        to in fs && fs[to] == File(j.cfg.sign(j.cfg.systemdBoot)))
    && (j.cfg.pcrlock.Some? ==> j.BootloaderMeasurement("current") in fs)
  }

  lemma CopiesInstalled(j: Job, disk: Disk)
    requires j.Valid()
    ensures var signed := j.cfg.sign(j.cfg.systemdBoot);
      var d := j.AtomicWrite(j.AtomicWrite(disk, signed, j.site.lay.Fallback()), signed, j.site.lay.SystemdBoot());
      && j.site.lay.Fallback() in d.fs && d.fs[j.site.lay.Fallback()] == File(signed)
      && j.site.lay.SystemdBoot() in d.fs && d.fs[j.site.lay.SystemdBoot()] == File(signed)
      && (forall p | j.cfg.pcrlock.Some? && j.cfg.pcrlock.value <= p && p in disk.fs :: p in d.fs)
  {
    var lay, signed := j.site.lay, j.cfg.sign(j.cfg.systemdBoot);
    var first := j.AtomicWrite(disk, signed, lay.Fallback());
    assert lay.Fallback()[|lay.esp| + 1] == "BOOT" && lay.SystemdBoot()[|lay.esp| + 1] == "systemd";
    AtomicWriteEffect(j, disk, signed, lay.Fallback(), lay.Fallback());
    BootFilesApart(j, lay.SystemdBoot(), lay.Fallback());
    AtomicWriteEffect(j, first, signed, lay.SystemdBoot(), lay.Fallback());
    forall p | j.cfg.pcrlock.Some? && j.cfg.pcrlock.value <= p && p in disk.fs
      ensures p in j.AtomicWrite(first, signed, lay.SystemdBoot()).fs
    {
      MeasurementApart(j, lay.Fallback(), p);
      MeasurementApart(j, lay.SystemdBoot(), p);
      AtomicWriteEffect(j, disk, signed, lay.Fallback(), p);
      AtomicWriteEffect(j, first, signed, lay.SystemdBoot(), p);
    }
  }

  lemma RenameEffect(disk: Disk, from: Path, to: Path, p: Path)
    requires from in disk.fs && p in disk.fs && p != from && p != to
    ensures var fs := disk.Rename(from, to).fs; to in fs && p in fs && fs[p] == disk.fs[p]
  {
  }

  lemma UpdateInstalls(j: Job, disk: Disk)
    requires j.Valid()
    ensures BootUpdated(j, j.UpdateSystemdBoot(disk).fs)
  {
    hide Job.AtomicWrite, Job.Valid, Disk.Rename, Disk.MakeDirs;
    if j.cfg.pcrlock.None? {
      CopiesInstalled(j, disk);
    } else {
      var next, current := j.BootloaderMeasurement("next"), j.BootloaderMeasurement("current");
      var measured := disk.MakeDirs(Parent(next)).Write(next, j.site.env.lockPe(j.cfg.systemdBoot));
      CopiesInstalled(j, measured);
      assert j.cfg.pcrlock.value <= next && j.cfg.pcrlock.value <= current;
      MeasurementApart(j, j.site.lay.Fallback(), next);
      MeasurementApart(j, j.site.lay.Fallback(), current);
      MeasurementApart(j, j.site.lay.SystemdBoot(), next);
      MeasurementApart(j, j.site.lay.SystemdBoot(), current);
      var signed := j.cfg.sign(j.cfg.systemdBoot);
      var copied := j.AtomicWrite(j.AtomicWrite(measured, signed, j.site.lay.Fallback()), signed,
        j.site.lay.SystemdBoot());
      assert next in measured.fs;
      RenameEffect(copied, next, current, j.site.lay.Fallback());
      RenameEffect(copied, next, current, j.site.lay.SystemdBoot());
    }
  }

  lemma UpdatedNeedsNothing(j: Job, fs: Fs)
    requires j.Valid() && BootUpdated(j, fs) && j.site.env.bootVersion(j.cfg.systemdBoot).Some?
    ensures j.NeedsSystemdBoot(fs) == Some(false)
  {
    var signed := j.cfg.sign(j.cfg.systemdBoot);
    assert j.site.env.bootVersion(signed) == j.site.env.bootVersion(j.cfg.systemdBoot) && j.cfg.verify(signed);
  }

  /** The need for an update is read off three files. */
  lemma NeedDepends(j: Job, a: Fs, b: Fs)
    requires j.NeedsSystemdBoot(a) == Some(false)
    requires forall p | p in {j.site.lay.Fallback(), j.site.lay.SystemdBoot()} && p in a :: p in b && a[p] == b[p]
    requires j.cfg.pcrlock.Some? && j.BootloaderMeasurement("current") in a ==> j.BootloaderMeasurement("current") in b
    ensures j.NeedsSystemdBoot(b) == Some(false)
  {
  }

  /** Installing the configuration leaves the copies alone. */
  lemma LoaderConfSettles(j: Job, st: State)
    requires j.Valid() && j.NeedsSystemdBoot(st.disk.fs) == Some(false)
    requires j.InstallFile(st, j.cfg.loaderConf, j.site.lay.LoaderConf()).status == Running
    ensures BootSettled(j, j.InstallFile(st, j.cfg.loaderConf, j.site.lay.LoaderConf()).disk.fs) || st.status != Running
  {
    var conf, lay := j.site.lay.LoaderConf(), j.site.lay;
    var r := j.InstallFile(st, j.cfg.loaderConf, conf);
    if r != st {
      AtomicWriteEffect(j, st.disk, j.cfg.loaderConf, conf, conf);
      forall p | p in {lay.Fallback(), lay.SystemdBoot()} && p in st.disk.fs
        ensures p in r.disk.fs && st.disk.fs[p] == r.disk.fs[p]
      {
        assert |p| != |conf|;
        BootFilesApart(j, conf, p);
        AtomicWriteEffect(j, st.disk, j.cfg.loaderConf, conf, p);
      }
      if j.cfg.pcrlock.Some? {
        MeasurementApart(j, conf, j.BootloaderMeasurement("current"));
        AtomicWriteEffect(j, st.disk, j.cfg.loaderConf, conf, j.BootloaderMeasurement("current"));
      }
      NeedDepends(j, st.disk.fs, r.disk.fs);
    }
  }

  lemma InstallSystemdBootSettles(j: Job, st: State)
    requires j.Valid() && st.status == Running && j.site.env.bootVersion(j.cfg.systemdBoot).Some?
    requires j.InstallSystemdBoot(st).status == Running
    ensures BootSettled(j, j.InstallSystemdBoot(st).disk.fs)
  {
    var need := j.NeedsSystemdBoot(st.disk.fs);
    var updated := st;
    if need.value {
      updated := st.(disk := j.UpdateSystemdBoot(st.disk));
      UpdateInstalls(j, st.disk);
      UpdatedNeedsNothing(j, updated.disk.fs);
    }
    LoaderConfSettles(j, updated);
  }

  lemma BootFilesOutsideGenerations(j: Job, p: Path)
    requires j.Valid() && p in BootFiles(j)
    ensures !InGenerationZone(j, p)
  {
    var lay := j.site.lay;
    assert lay.Fallback()[|lay.esp| + 1] == "BOOT" && lay.SystemdBoot()[|lay.esp| + 1] == "systemd";
    assert lay.LoaderConf()[|lay.esp|] == "loader" && lay.Nixos()[|lay.esp|] == "EFI"
      && lay.Linux()[|lay.esp|] == "EFI";
    assert lay.Nixos()[|lay.esp| + 1] == "nixos" && lay.Linux()[|lay.esp| + 1] == "Linux";
    if j.cfg.pcrlock.Some? {
      assert j.cfg.pcrlock.value <= j.LanzabooteDir();
      if j.LanzabooteDir() <= p {
        OffEsp(j, p);
      }
    }
  }

  lemma CurrentOutsideGenerations(j: Job)
    requires j.Valid() && j.cfg.pcrlock.Some?
    ensures !InGenerationZone(j, j.BootloaderMeasurement("current"))
  {
    var p, lay, lock := j.BootloaderMeasurement("current"), j.site.lay, j.cfg.pcrlock.value;
    assert lock <= p && lay.esp <= lay.Nixos() && lay.esp <= lay.Linux();
    OffEsp(j, p);
    assert p[|lock|] == "630-bootloader.pcrlock.d" && j.LanzabooteDir()[|lock|] == "635-lanzaboote.pcrlock.d";
  }

  lemma SettledSurvivesSweep(j: Job, a: Fs, b: Fs)
    requires j.Valid() && BootSettled(j, a) && Frame(j, GenerationZone, a, b)
    ensures BootSettled(j, b)
  {
    forall p | p in BootFiles(j) ensures !InZone(j, GenerationZone, p) {
      BootFilesOutsideGenerations(j, p);
    }
    if j.cfg.pcrlock.Some? {
      CurrentOutsideGenerations(j);
      assert !InZone(j, GenerationZone, j.BootloaderMeasurement("current"));
    }
    NeedDepends(j, a, b);
  }

  // ---------------------------------------------------------------------------------------------
  // The sweep leaves nothing to collect

  /** Nothing in the swept directories is garbage. */
  ghost predicate Swept(j: Job, fs: Fs, roots: set<Path>) {
    && GarbageIn(fs, roots, Everything, j.site.lay.Nixos()) == {}
    && GarbageIn(fs, roots, IsOurs, j.site.lay.Linux()) == {}
    && (j.cfg.pcrlock.Some? ==> GarbageIn(fs, roots, Everything, j.LanzabooteDir()) == {})
  }

  lemma GarbageShrinks(a: Fs, b: Fs, roots: set<Path>, filter: Path -> bool, dir: Path)
    requires GarbageIn(a, roots, filter, dir) == {} && forall p :: p in b ==> p in a
    ensures GarbageIn(b, roots, filter, dir) == {}
  {
    forall p | p in GarbageIn(b, roots, filter, dir) ensures p in GarbageIn(a, roots, filter, dir) {
    }
  }

  lemma CollectCleans(j: Job, disk: Disk, roots: set<Path>, filter: Path -> bool, dir: Path)
    requires j.site.env.Valid()
    ensures GarbageIn(j.Collect(disk, roots, filter, dir).fs, roots, filter, dir) == {}
    ensures forall p :: p in j.Collect(disk, roots, filter, dir).fs ==> p in disk.fs
  {
    var garbage := GarbageIn(disk.fs, roots, filter, dir);
    var walk := j.site.env.walk(disk.fs, dir, garbage);
    assert IsWalk(disk.fs, dir, garbage, walk);
    SweepLeavesNoGarbage(disk, roots, filter, dir, walk);
    SweepSound(disk, roots, filter, dir, walk);
  }

  lemma CollectGarbageCleans(j: Job, disk: Disk, roots: set<Path>)
    requires j.site.env.Valid()
    ensures Swept(j, j.CollectGarbage(disk, roots).fs, roots)
  {
    var nixos, linux := j.site.lay.Nixos(), j.site.lay.Linux();
    var stored := j.Collect(disk, roots, Everything, nixos);
    var stubs := j.Collect(stored, roots, IsOurs, linux);
    CollectCleans(j, disk, roots, Everything, nixos);
    CollectCleans(j, stored, roots, IsOurs, linux);
    GarbageShrinks(stored.fs, stubs.fs, roots, Everything, nixos);
    if j.cfg.pcrlock.Some? {
      var done := j.Collect(stubs, roots, Everything, j.LanzabooteDir());
      CollectCleans(j, stubs, roots, Everything, j.LanzabooteDir());
      GarbageShrinks(stubs.fs, done.fs, roots, Everything, nixos);
      GarbageShrinks(stubs.fs, done.fs, roots, IsOurs, linux);
    }
  }

  lemma CollectIdle(j: Job, disk: Disk, roots: set<Path>, filter: Path -> bool, dir: Path)
    requires j.site.env.Valid() && GarbageIn(disk.fs, roots, filter, dir) == {}
    ensures j.Collect(disk, roots, filter, dir) == disk
  {
    var garbage := GarbageIn(disk.fs, roots, filter, dir);
    var walk := j.site.env.walk(disk.fs, dir, garbage);
    assert IsWalk(disk.fs, dir, garbage, walk);
    forall q | q in walk ensures !IsGarbage(roots, filter, q) {
      assert q !in garbage;
    }
    SweepIdle(disk, roots, filter, walk);
  }

  lemma CollectGarbageIdle(j: Job, disk: Disk, roots: set<Path>)
    requires j.site.env.Valid() && Swept(j, disk.fs, roots)
    ensures j.CollectGarbage(disk, roots) == disk
  {
    CollectIdle(j, disk, roots, Everything, j.site.lay.Nixos());
    CollectIdle(j, disk, roots, IsOurs, j.site.lay.Linux());
    if j.cfg.pcrlock.Some? {
      CollectIdle(j, disk, roots, Everything, j.LanzabooteDir());
    }
  }

  lemma SweptWithMoreRoots(j: Job, fs: Fs, roots: set<Path>, more: set<Path>)
    requires Swept(j, fs, roots) && roots <= more
    ensures Swept(j, fs, more)
  {
    MoreRoots(fs, roots, more, Everything, j.site.lay.Nixos());
    MoreRoots(fs, roots, more, IsOurs, j.site.lay.Linux());
    if j.cfg.pcrlock.Some? {
      MoreRoots(fs, roots, more, Everything, j.LanzabooteDir());
    }
  }

  lemma MoreRoots(fs: Fs, roots: set<Path>, more: set<Path>, filter: Path -> bool, dir: Path)
    requires GarbageIn(fs, roots, filter, dir) == {} && roots <= more
    ensures GarbageIn(fs, more, filter, dir) == {}
  {
    forall p | p in GarbageIn(fs, more, filter, dir) ensures p in GarbageIn(fs, roots, filter, dir) {
    }
  }

  // ---------------------------------------------------------------------------------------------
  // Measurements survive the sweep

  lemma MeasurementNotCondemned(j: Job, roots: set<Path>, filter: Path -> bool, dir: Path, g: Generation)
    requires j.Valid() && j.cfg.pcrlock.Some? && j.InitialRoots() <= roots && j.LanzabooteMeasurement(g) in roots
    requires dir in {j.site.lay.Nixos(), j.site.lay.Linux(), j.LanzabooteDir()}
    ensures !Condemned(roots, filter, dir, j.LanzabooteMeasurement(g))
  {
    var m := j.LanzabooteMeasurement(g);
    if dir == j.LanzabooteDir() {
      RootedNotCondemned(j.site.lay, roots, filter, dir, m);
    } else {
      assert j.site.lay.esp <= dir && j.cfg.pcrlock.value <= m;
      OffEsp(j, m);
    }
  }

  lemma CollectKeepsMeasurement(j: Job, disk: Disk, roots: set<Path>, filter: Path -> bool, dir: Path, g: Generation)
    requires j.Valid() && j.cfg.pcrlock.Some? && j.InitialRoots() <= roots && j.LanzabooteMeasurement(g) in roots
    requires dir in {j.site.lay.Nixos(), j.site.lay.Linux(), j.LanzabooteDir()}
    requires j.LanzabooteMeasurement(g) in disk.fs
    ensures j.LanzabooteMeasurement(g) in j.Collect(disk, roots, filter, dir).fs
  {
    var garbage := GarbageIn(disk.fs, roots, filter, dir);
    var walk := j.site.env.walk(disk.fs, dir, garbage);
    assert IsWalk(disk.fs, dir, garbage, walk);
    SweepSound(disk, roots, filter, dir, walk);
    MeasurementNotCondemned(j, roots, filter, dir, g);
  }

  lemma MeasurementSurvives(j: Job, disk: Disk, roots: set<Path>, g: Generation, m: Path)
    requires j.Valid() && j.InitialRoots() <= roots && m in roots && m in disk.fs && m in j.MeasurementOf(g)
    ensures m in j.CollectGarbage(disk, roots).fs
  {
    var stored := j.Collect(disk, roots, Everything, j.site.lay.Nixos());
    var stubs := j.Collect(stored, roots, IsOurs, j.site.lay.Linux());
    CollectKeepsMeasurement(j, disk, roots, Everything, j.site.lay.Nixos(), g);
    CollectKeepsMeasurement(j, stored, roots, IsOurs, j.site.lay.Linux(), g);
    CollectKeepsMeasurement(j, stubs, roots, Everything, j.LanzabooteDir(), g);
  }

  // ---------------------------------------------------------------------------------------------
  // After the first run

  /** The homes after the sweep: the only stub that the pattern of each target finds. */
  ghost predicate AllFindable(j: Job, fs: Fs, roots: set<Path>, gs: seq<Generation>, homes: seq<Path>) {
    && |homes| == |gs|
    && forall i :: 0 <= i < |gs| ==>
        Home(j, fs, roots, gs[i], homes[i]) && j.Candidates(fs, j.IdOf(gs[i])) == {homes[i]}
  }

  ghost predicate Settled(j: Job, fs: Fs, roots: set<Path>, gs: seq<Generation>, homes: seq<Path>) {
    && AllFindable(j, fs, roots, gs, homes)
    && roots == j.InitialRoots() + Claims(j, fs, gs, homes)
    && Swept(j, fs, roots) && j.site.Inv(fs)
  }

  lemma HomeSurvives(j: Job, st: State, after: Fs, g: Generation, p: Path)
    requires Good(j, st) && Home(j, st.disk.fs, st.roots, g, p) && Thins(j.site, st.roots, st.disk.fs, after)
    requires forall m :: m in j.MeasurementOf(g) ==> m in after
    ensures Home(j, after, st.roots, g, p) && after[p] == st.disk.fs[p]
  {
    ThinsKeepsBootable(j.site, st.roots, st.disk.fs, after, p);
    assert p in j.Candidates(after, j.IdOf(g));
  }

  /** A stub that is left after the sweep is a home. */
  lemma StubLeftIsHome(j: Job, fs: Fs, roots: set<Path>, gs: seq<Generation>, homes: seq<Path>, claims: Fs, p: Path)
    requires j.Valid() && |homes| == |gs| && roots == j.InitialRoots() + Claims(j, claims, gs, homes)
    requires Swept(j, fs, roots) && p in fs && j.site.lay.IsStub(p)
    ensures p in homes
  {
    assert IsOurs(p);
    assert p !in GarbageIn(fs, roots, IsOurs, j.site.lay.Linux());
    assert p in roots;
    if p in j.InitialRoots() {
      InitialRootsNoStub(j, p);
    }
    ClaimedStub(j, claims, gs, homes, p);
  }

  lemma OnlyCandidate(j: Job, fs: Fs, roots: set<Path>, gs: seq<Generation>, homes: seq<Path>, i: nat, p: Path)
    requires j.site.env.Valid() && |homes| == |gs| && i < |gs| && Separate(j, gs) && OneHome(j, gs, homes)
    requires forall k :: 0 <= k < |gs| ==> Home(j, fs, roots, gs[k], homes[k])
    requires p in homes && p in j.Candidates(fs, j.IdOf(gs[i]))
    ensures p == homes[i]
  {
    hide Shadows, Matches, Home;
    var k :| 0 <= k < |homes| && homes[k] == p;
    if j.IdOf(gs[k]) != j.IdOf(gs[i]) {
      assert Separate(j, [gs[k], gs[i]]);
      HomesApart(j, fs, roots, gs[k], gs[i], p);
    }
  }

  lemma HomesSurvive(j: Job, st: State, gs: seq<Generation>, homes: seq<Path>, i: nat)
    requires j.Valid() && Good(j, st) && Tracked(j, st, gs, homes) && i < |gs|
    ensures var after := j.CollectGarbage(st.disk, st.roots).fs;
      Home(j, after, st.roots, gs[i], homes[i]) && after[homes[i]] == st.disk.fs[homes[i]]
  {
    CollectGarbageThins(j, st.disk, st.roots);
    forall m | m in j.MeasurementOf(gs[i]) ensures m in j.CollectGarbage(st.disk, st.roots).fs {
      MeasurementSurvives(j, st.disk, st.roots, gs[i], m);
    }
    HomeSurvives(j, st, j.CollectGarbage(st.disk, st.roots).fs, gs[i], homes[i]);
  }

  lemma SweptCandidates(j: Job, fs: Fs, roots: set<Path>, gs: seq<Generation>, homes: seq<Path>, claims: Fs, i: nat)
    requires j.Valid() && |homes| == |gs| && i < |gs| && Separate(j, gs) && OneHome(j, gs, homes)
    requires forall k :: 0 <= k < |gs| ==> Home(j, fs, roots, gs[k], homes[k])
    requires roots == j.InitialRoots() + Claims(j, claims, gs, homes) && Swept(j, fs, roots)
    ensures j.Candidates(fs, j.IdOf(gs[i])) == {homes[i]}
  {
    hide Swept, Separate, OneHome, Claims, Matches, Site.Bootable;
    forall p | p in j.Candidates(fs, j.IdOf(gs[i])) ensures p == homes[i] {
      CandidateIsStub(j, fs, j.IdOf(gs[i]), p);
      StubLeftIsHome(j, fs, roots, gs, homes, claims, p);
      OnlyCandidate(j, fs, roots, gs, homes, i, p);
    }
  }

  lemma TrackedFindable(j: Job, st: State, gs: seq<Generation>, homes: seq<Path>)
    requires j.Valid() && Good(j, st) && Tracked(j, st, gs, homes) && Separate(j, gs) && OneHome(j, gs, homes)
    ensures AllFindable(j, j.CollectGarbage(st.disk, st.roots).fs, st.roots, gs, homes)
  {
    var after := j.CollectGarbage(st.disk, st.roots).fs;
    forall i | 0 <= i < |gs| ensures Home(j, after, st.roots, gs[i], homes[i]) {
      HomesSurvive(j, st, gs, homes, i);
    }
    CollectGarbageCleans(j, st.disk, st.roots);
    forall i | 0 <= i < |gs| ensures j.Candidates(after, j.IdOf(gs[i])) == {homes[i]} {
      SweptCandidates(j, after, st.roots, gs, homes, st.disk.fs, i);
    }
  }

  lemma TrackedClaims(j: Job, st: State, gs: seq<Generation>, homes: seq<Path>)
    requires j.Valid() && Good(j, st) && Tracked(j, st, gs, homes)
    ensures Claims(j, st.disk.fs, gs, homes) == Claims(j, j.CollectGarbage(st.disk, st.roots).fs, gs, homes)
  {
    var after := j.CollectGarbage(st.disk, st.roots).fs;
    forall i | 0 <= i < |gs| ensures homes[i] in after && after[homes[i]] == st.disk.fs[homes[i]] {
      HomesSurvive(j, st, gs, homes, i);
    }
    ClaimsSame(j, st.disk.fs, after, gs, homes);
  }

  lemma TrackedSettles(j: Job, st: State, gs: seq<Generation>, homes: seq<Path>)
    requires j.Valid() && Good(j, st) && Tracked(j, st, gs, homes) && Separate(j, gs) && OneHome(j, gs, homes)
    ensures Settled(j, j.CollectGarbage(st.disk, st.roots).fs, st.roots, gs, homes)
  {
    TrackedFindable(j, st, gs, homes);
    TrackedClaims(j, st, gs, homes);
    CollectGarbageCleans(j, st.disk, st.roots);
    CollectGarbageThins(j, st.disk, st.roots);
    InvUnderDeletion(j.site, st.disk.fs, j.CollectGarbage(st.disk, st.roots).fs);
  }

  lemma BeginTracked(j: Job, fs: Fs)
    requires j.Valid() && (j.cfg.pcrlock.None? || BootSafety.EmptyEsp(j.site.lay, fs))
    ensures Tracked(j, j.Begin(fs), [], [])
  {
    forall p | p in fs && j.site.lay.IsStub(p) ensures j.site.lay.esp < p {
      assert j.site.lay.esp <= j.site.lay.Linux();
    }
  }

  /** The boot loader is installed without touching what is tracked. */
  lemma SystemdBootTracked(j: Job, st: State, gs: seq<Generation>, homes: seq<Path>)
    requires j.Valid() && Good(j, st) && Tracked(j, st, gs, homes)
    ensures Tracked(j, j.InstallSystemdBoot(st), gs, homes)
  {
    var r := j.InstallSystemdBoot(st);
    InstallSystemdBootAdvances(j, st);
    InstallSystemdBootFrame(j, st);
    ClaimsSame(j, st.disk.fs, r.disk.fs, gs, homes);
    forall i | 0 <= i < |gs| ensures Home(j, r.disk.fs, r.roots, gs[i], homes[i]) {
      HomePersists(j, st, r, gs[i], homes[i]);
    }
  }

  /** Where idempotence can be expected to start from: an empty ESP, or, without Measured Boot, one on which
      at most one stub stands for a target that is given twice. */
  ghost predicate Startable(j: Job, fs: Fs) {
    || BootSafety.EmptyEsp(j.site.lay, fs)
    || (j.cfg.pcrlock.None? && j.site.Inv(fs) && LoneRepeats(j, fs, j.AllTargets()))
  }

  lemma StartableBegins(j: Job, fs: Fs)
    requires j.Valid() && Startable(j, fs)
    ensures j.site.Inv(fs) && Tracked(j, j.Begin(fs), [], []) && LoneRepeats(j, fs, j.AllTargets())
  {
    if BootSafety.EmptyEsp(j.site.lay, fs) {
      BootSafety.EmptyEspInv(j.site, fs);
      forall g ensures j.Candidates(fs, j.IdOf(g)) <= {j.StubTarget(g)} {
        EmptyHasNoCandidate(j, fs, j.IdOf(g));
      }
    }
    BeginTracked(j, fs);
  }

  lemma EmptyHasNoCandidate(j: Job, fs: Fs, id: StubId)
    requires BootSafety.EmptyEsp(j.site.lay, fs)
    ensures j.Candidates(fs, id) == {}
  {
    hide Matches;
    assert j.site.lay.esp <= j.site.lay.Linux();
  }

  /** Up to the sweep of a completed first run. */
  lemma BeforeSweepTracked(j: Job, fs: Fs) returns (homes: seq<Path>)
    requires j.Valid() && Startable(j, fs) && Separate(j, j.AllTargets())
    requires j.site.env.bootVersion(j.cfg.systemdBoot).Some? && j.BeforeSweep(fs).status == Running
    ensures Tracked(j, j.BeforeSweep(fs), j.AllTargets(), homes) && BootSettled(j, j.BeforeSweep(fs).disk.fs)
    ensures |homes| == |j.AllTargets()| && OneHome(j, j.AllTargets(), homes)
  {
    hide Job.InstallAll, Job.InstallSystemdBoot, Tracked, Good, BootSettled, Site.Inv, Targets, Separate, LoneRepeats,
      OneHome, Startable;
    var st := j.Begin(fs);
    StartableBegins(j, fs);
    BootSafety.BeginGood(j, fs);
    var installed := j.InstallAll(st, j.AllTargets());
    InstallAllAdvances(j, st, j.AllTargets());
    assert [] + j.AllTargets() == j.AllTargets();
    homes := InstallAllTracked(j, st, [], [], j.AllTargets());
    RepeatsShareHome(j, installed, j.AllTargets(), homes);
    SystemdBootTracked(j, installed, j.AllTargets(), homes);
    InstallSystemdBootSettles(j, installed);
  }

  /** What a completed first run leaves. */
  lemma FirstRunSettles(j: Job, fs: Fs) returns (homes: seq<Path>)
    requires j.Valid() && Startable(j, fs) && Separate(j, j.AllTargets())
    requires j.site.env.bootVersion(j.cfg.systemdBoot).Some?
    requires j.Install(fs).status == Running && BrokenVersions(j.Retained()) == {}
    ensures Settled(j, j.Install(fs).disk.fs, j.BeforeSweep(fs).roots, j.AllTargets(), homes)
    ensures BootSettled(j, j.Install(fs).disk.fs) && OneHome(j, j.AllTargets(), homes)
  {
    hide Job.BeforeSweep, Settled, BootSettled, Tracked, Good, Startable, Separate, OneHome, Frame, Site.Inv;
    var before := j.BeforeSweep(fs);
    homes := BeforeSweepTracked(j, fs);
    BrokenStays(j, fs);
    StartableBegins(j, fs);
    BootSafety.BeforeSweepSafe(j, fs);
    TrackedSettles(j, before, j.AllTargets(), homes);
    assert j.site.lay.Linux() in j.InitialRoots();
    CollectGarbageFrame(j, before.disk, before.roots);
    SettledSurvivesSweep(j, before.disk.fs, j.Install(fs).disk.fs);
  }

  // ---------------------------------------------------------------------------------------------
  // The second run

  lemma FoundIsInstalled(j: Job, st: State, g: Generation)
    requires j.ReadInstalled(st.disk.fs, j.IdOf(g)).Found?
    requires forall m :: m in j.MeasurementOf(g) ==> m in st.disk.fs
    ensures var reading := j.ReadInstalled(st.disk.fs, j.IdOf(g));
      j.InstallGeneration(st, g) ==
      st.(roots := st.roots + ({reading.stub, reading.kernel, reading.initrd} + j.MeasurementOf(g)))
  {
    assert j.cfg.pcrlock.Some? ==> j.LanzabooteMeasurement(g) in j.MeasurementOf(g);
    var reading := j.ReadInstalled(st.disk.fs, j.IdOf(g));
    UnionAssociative(st.roots, {reading.stub, reading.kernel, reading.initrd}, j.MeasurementOf(g));
  }

  lemma HomeIsFound(j: Job, st: State, roots: set<Path>, g: Generation, p: Path)
    requires j.Valid() && j.site.Inv(st.disk.fs)
    requires Home(j, st.disk.fs, roots, g, p) && j.Candidates(st.disk.fs, j.IdOf(g)) == {p}
    ensures j.InstallGeneration(st, g) == st.(roots := st.roots + Claim(j, st.disk.fs, g, p))
  {
    HomeIsRead(j, st.disk.fs, g, p);
    FoundIsInstalled(j, st, g);
  }

  /** Every target from the `n`th on is found where it is. */
  lemma {:induction false} AllFound(j: Job, st: State, roots: set<Path>, gs: seq<Generation>, homes: seq<Path>, n: nat)
    requires j.Valid() && j.site.Inv(st.disk.fs) && AllFindable(j, st.disk.fs, roots, gs, homes)
    requires st.status == Running && n <= |gs|
    ensures var r := j.InstallAll(st, gs[n..]);
      && r == st.(roots := r.roots) && st.roots <= r.roots
      && (forall i :: n <= i < |gs| ==> Claim(j, st.disk.fs, gs[i], homes[i]) <= r.roots)
    decreases |gs| - n
  {
    if n < |gs| {
      HomeIsFound(j, st, roots, gs[n], homes[n]);
      InstallAllStep(j, st, gs[n..]);
      DropFirst(gs, n);
      AllFound(j, st.(roots := st.roots + Claim(j, st.disk.fs, gs[n], homes[n])), roots, gs, homes, n + 1);
    }
  }

  lemma DropFirst<T>(s: seq<T>, n: nat)
    requires n < |s|
    ensures s[n..][0] == s[n] && s[n..][1..] == s[n + 1..]
  {
  }

  lemma {:induction false} ClaimsCovered(j: Job, fs: Fs, gs: seq<Generation>, homes: seq<Path>, roots: set<Path>)
    requires |homes| == |gs| && forall i :: 0 <= i < |gs| ==> Claim(j, fs, gs[i], homes[i]) <= roots
    ensures Claims(j, fs, gs, homes) <= roots
    decreases |gs|
  {
    if gs != [] {
      ClaimsCovered(j, fs, gs[..|gs| - 1], homes[..|gs| - 1], roots);
    }
  }

  /** Every target is found, and the boot loader stays. */
  lemma SettledBeforeSweep(j: Job, fs: Fs, roots: set<Path>, homes: seq<Path>)
    requires j.Valid() && j.site.Inv(fs) && AllFindable(j, fs, roots, j.AllTargets(), homes) && BootSettled(j, fs)
    requires Readable(j.Retained()) != []
    ensures var st := j.BeforeSweep(fs);
      && st.disk == Disk(fs, []) && st.status == Running && j.InitialRoots() <= st.roots
      && Claims(j, fs, j.AllTargets(), homes) <= st.roots
  {
    hide Job.InstallAll, Job.InstallSystemdBoot, Claims, Site.Inv, Targets, BootSettled;
    var st := j.Begin(fs);
    AllFound(j, st, roots, j.AllTargets(), homes, 0);
    assert j.AllTargets()[0..] == j.AllTargets();
    var installed := j.InstallAll(st, j.AllTargets());
    SettledIdle(j, installed);
    ClaimsCovered(j, fs, j.AllTargets(), homes, installed.roots);
  }

  /** A second job with the same inputs: links and specialisations may come in another order. */
  ghost predicate SameInputs(j: Job, k: Job) {
    k.site == j.site && k.cfg == j.cfg.(links := k.cfg.links)
      && Identities(k, k.AllTargets()) == Identities(j, j.AllTargets())
  }

  function Identities(j: Job, gs: seq<Generation>): set<StubId> {
    set g | g in gs :: j.IdOf(g)
  }

  /** The two jobs read everything but the list of links in the same way. */
  lemma SameReadings(j: Job, k: Job, fs: Fs, g: Generation, h: Generation, p: Path, roots: set<Path>)
    requires SameInputs(j, k) && j.IdOf(g) == k.IdOf(h)
    ensures k.Candidates(fs, k.IdOf(h)) == j.Candidates(fs, j.IdOf(g)) && k.MeasurementOf(h) == j.MeasurementOf(g)
    ensures Home(j, fs, roots, g, p) ==> Home(k, fs, roots, h, p)
    ensures Claim(k, fs, h, p) == Claim(j, fs, g, p)
  {
    hide Matches, Site.Bootable, Site.WellBuilt, Job.AllTargets, Identities;
  }

  lemma SameBootReadings(j: Job, k: Job, fs: Fs)
    requires k.site == j.site && k.cfg == j.cfg.(links := k.cfg.links)
    ensures k.InitialRoots() == j.InitialRoots() && (BootSettled(j, fs) ==> BootSettled(k, fs))
    ensures k.NeedsSystemdBoot(fs) == j.NeedsSystemdBoot(fs)
  {
  }

  /** The stub of a target of the second job, by its identity. */
  ghost function IndexOf(j: Job, gs: seq<Generation>, id: StubId): (i: nat)
    requires id in Identities(j, gs)
    ensures i < |gs| && j.IdOf(gs[i]) == id
  {
    var i :| 0 <= i < |gs| && j.IdOf(gs[i]) == id;
    i
  }

  ghost function Rehomed(j: Job, k: Job, homes: seq<Path>): (r: seq<Path>)
    requires SameInputs(j, k) && |homes| == |j.AllTargets()|
    ensures |r| == |k.AllTargets()|
  {
    var gs, hs := j.AllTargets(), k.AllTargets();
    seq(|hs|, n requires 0 <= n < |hs| =>
      (assert k.IdOf(hs[n]) in Identities(k, hs); homes[IndexOf(j, gs, k.IdOf(hs[n]))]))
  }

  lemma RehomedFindable(j: Job, k: Job, fs: Fs, roots: set<Path>, homes: seq<Path>)
    requires SameInputs(j, k) && AllFindable(j, fs, roots, j.AllTargets(), homes)
    ensures AllFindable(k, fs, roots, k.AllTargets(), Rehomed(j, k, homes))
  {
    hide Job.AllTargets, Home, Job.Candidates, Job.IdOf;
    var gs, hs, r := j.AllTargets(), k.AllTargets(), Rehomed(j, k, homes);
    forall n | 0 <= n < |hs| ensures Home(k, fs, roots, hs[n], r[n]) && k.Candidates(fs, k.IdOf(hs[n])) == {r[n]} {
      assert k.IdOf(hs[n]) in Identities(k, hs);
      var i := IndexOf(j, gs, k.IdOf(hs[n]));
      SameReadings(j, k, fs, gs[i], hs[n], r[n], roots);
    }
  }

  /** What the first job claims for a target, the second claims for a target of the same identity. */
  lemma RehomedClaim(j: Job, k: Job, fs: Fs, homes: seq<Path>, i: nat)
    requires SameInputs(j, k) && |homes| == |j.AllTargets()| && OneHome(j, j.AllTargets(), homes) && i < |homes|
    ensures Claim(j, fs, j.AllTargets()[i], homes[i]) <= Claims(k, fs, k.AllTargets(), Rehomed(j, k, homes))
  {
    hide Job.AllTargets, Claims, Claim, Job.IdOf;
    var gs, hs, r := j.AllTargets(), k.AllTargets(), Rehomed(j, k, homes);
    assert j.IdOf(gs[i]) in Identities(j, gs);
    var n := IndexOf(k, hs, j.IdOf(gs[i]));
    assert k.IdOf(hs[n]) in Identities(k, hs);
    assert r[n] == homes[IndexOf(j, gs, k.IdOf(hs[n]))] == homes[i];
    SameReadings(j, k, fs, gs[i], hs[n], r[n], {});
    ClaimsMember(k, fs, hs, r, n);
  }

  lemma RehomedClaims(j: Job, k: Job, fs: Fs, homes: seq<Path>)
    requires SameInputs(j, k) && |homes| == |j.AllTargets()| && OneHome(j, j.AllTargets(), homes)
    ensures Claims(j, fs, j.AllTargets(), homes) <= Claims(k, fs, k.AllTargets(), Rehomed(j, k, homes))
  {
    hide Job.AllTargets, Claims, Claim, Rehomed, OneHome, SameInputs;
    var gs := j.AllTargets();
    forall i | 0 <= i < |gs|
      ensures Claim(j, fs, gs[i], homes[i]) <= Claims(k, fs, k.AllTargets(), Rehomed(j, k, homes))
    {
      RehomedClaim(j, k, fs, homes, i);
    }
    ClaimsCovered(j, fs, gs, homes, Claims(k, fs, k.AllTargets(), Rehomed(j, k, homes)));
  }

  lemma SameSwept(j: Job, k: Job, fs: Fs, roots: set<Path>)
    requires k.site == j.site && k.cfg == j.cfg.(links := k.cfg.links) && Swept(j, fs, roots)
    ensures Swept(k, fs, roots)
  {
    hide GarbageIn;
  }

  /** On what a completed run has left, another run with the same inputs does nothing. */
  lemma SettledRunIsIdle(j: Job, k: Job, fs: Fs, roots: set<Path>, homes: seq<Path>)
    requires k.Valid() && SameInputs(j, k) && Readable(k.Retained()) != []
    requires Settled(j, fs, roots, j.AllTargets(), homes) && OneHome(j, j.AllTargets(), homes) && BootSettled(j, fs)
    ensures k.Install(fs).disk == Disk(fs, []) && k.Install(fs).status == Running
  {
    hide Job.BeforeSweep, Job.CollectGarbage, BootSettled, Readable, Targets, Claims, Job.AllTargets, Rehomed, OneHome,
      AllFindable, Swept, Site.Inv, SelectLinks, Job.InitialRoots, Identities;
    assert |homes| == |j.AllTargets()| by {
      FindableLength(j, fs, roots, j.AllTargets(), homes);
    }
    SameBootReadings(j, k, fs);
    RehomedFindable(j, k, fs, roots, homes);
    RehomedClaims(j, k, fs, homes);
    SettledBeforeSweep(k, fs, roots, Rehomed(j, k, homes));
    var before := k.BeforeSweep(fs);
    SameSwept(j, k, fs, roots);
    SweptWithMoreRoots(k, fs, roots, before.roots);
    CollectGarbageIdle(k, before.disk, before.roots);
  }

  lemma FindableLength(j: Job, fs: Fs, roots: set<Path>, gs: seq<Generation>, homes: seq<Path>)
    requires AllFindable(j, fs, roots, gs, homes)
    ensures |homes| == |gs|
  {
  }

  lemma SomeReadable(j: Job, k: Job, fs: Fs)
    requires SameInputs(j, k) && j.Install(fs).status == Running
    ensures Readable(k.Retained()) != []
  {
    hide Job.IdOf, SelectLinks, Job.InstallAll, Job.InstallSystemdBoot, Job.CollectGarbage;
    var gs := j.AllTargets();
    assert Readable(j.Retained()) != [];
    assert gs[0] in gs && j.IdOf(gs[0]) in Identities(j, gs);
    var id :| id in Identities(k, k.AllTargets());
  }

  // ---------------------------------------------------------------------------------------------
  // A boot loader without a version

  /** An installation that gets past an unreadable version finds no boot loader and puts one there. */
  lemma UnversionedInstalls(j: Job, st: State)
    requires j.Valid() && j.site.env.bootVersion(j.cfg.systemdBoot).None?
    requires st.status == Running && j.InstallSystemdBoot(st).status == Running
    ensures j.site.lay.Fallback() in j.InstallSystemdBoot(st).disk.fs
  {
    hide Job.UpdateSystemdBoot, Job.AtomicWrite;
    var lay := j.site.lay;
    assert j.NeedsSystemdBoot(st.disk.fs) == Some(true);
    UpdateInstalls(j, st.disk);
    var updated := j.UpdateSystemdBoot(st.disk);
    BootFilesApart(j, lay.LoaderConf(), lay.Fallback());
    assert |lay.LoaderConf()| != |lay.Fallback()|;
    AtomicWriteEffect(j, updated, j.cfg.loaderConf, lay.LoaderConf(), lay.Fallback());
  }

  lemma {:induction false} InstallAllStatus(j: Job, st: State, gs: seq<Generation>)
    requires st.status == Running
    ensures j.InstallAll(st, gs).status in {Running, Aborted}
    decreases |gs|
  {
    hide Job.Reinstall, Job.Register;
    if gs != [] {
      InstallGenerationStatus(j, st, gs[0]);
      if j.InstallGeneration(st, gs[0]).status == Running {
        InstallAllStatus(j, j.InstallGeneration(st, gs[0]), gs[1..]);
      }
    }
  }

  lemma InstallGenerationStatus(j: Job, st: State, g: Generation)
    requires st.status == Running
    ensures j.InstallGeneration(st, g).status in {Running, Aborted}
  {
    hide Job.ReadInstalled, Job.StubImage, Job.AtomicWrite;
  }

  lemma FallbackStays(j: Job, a: Disk, b: Disk, keeps: bool)
    requires j.Valid() && FrameAlong(j, GenerationZone, keeps, a, b) && j.site.lay.Fallback() in a.fs
    ensures j.site.lay.Fallback() in b.fs
  {
    hide InGenerationZone;
    BootFilesOutsideGenerations(j, j.site.lay.Fallback());
    assert !InZone(j, GenerationZone, j.site.lay.Fallback());
  }

  lemma FirstRunLeavesFallback(j: Job, fs: Fs)
    requires j.Valid() && j.site.env.bootVersion(j.cfg.systemdBoot).None? && j.Install(fs).status == Running
    ensures j.site.lay.Fallback() in j.Install(fs).disk.fs
  {
    hide Job.InstallAll, Job.InstallSystemdBoot, Job.CollectGarbage, FrameAlong, Readable, Job.AllTargets, Job.Retained;
    var before := j.BeforeSweep(fs);
    UnversionedInstalls(j, j.InstallAll(j.Begin(fs), j.AllTargets()));
    if before.brokenGens == {} {
      BeforeSweepFrame(j, fs);
      assert j.site.lay.Linux() in j.InitialRoots();
      CollectGarbageFrame(j, before.disk, before.roots);
      FallbackStays(j, before.disk, j.CollectGarbage(before.disk, before.roots), false);
    }
  }

  /** If the version of the new boot loader cannot be read, a run that completes is followed by one that aborts. */
  lemma UnversionedBootLoaderAborts(j: Job, k: Job, fs: Fs)
    requires j.Valid() && k.Valid() && SameInputs(j, k)
    requires j.site.env.bootVersion(j.cfg.systemdBoot).None? && j.Install(fs).status == Running
    ensures k.Install(j.Install(fs).disk.fs).status == Aborted
  {
    hide Job.InstallAll, Job.InstallSystemdBoot, Job.CollectGarbage, FrameAlong, Readable, Job.AllTargets, Job.Retained,
      Identities;
    var first := j.Install(fs).disk.fs;
    FirstRunLeavesFallback(j, fs);
    SomeReadable(j, k, fs);
    var st := k.Begin(first);
    var installed := k.InstallAll(st, k.AllTargets());
    InstallAllStatus(k, st, k.AllTargets());
    InstallAllFrame(k, st, k.AllTargets());
    FallbackStays(k, st.disk, installed.disk, true);
    if installed.status == Running {
      UnversionedAborts(k, installed);
    }
  }

  lemma UnversionedAborts(j: Job, st: State)
    requires j.site.env.bootVersion(j.cfg.systemdBoot).None? && j.site.lay.Fallback() in st.disk.fs
    ensures j.InstallSystemdBoot(st).status == Aborted
  {
  }

  // ---------------------------------------------------------------------------------------------
  // Idempotence

  /** If no retained generation is malformed, the second run with the same inputs performs no file-system operation
      at all, in whatever order links and specialisations are visited, if and only if the version of the boot loader
      can be read. */
  lemma SecondRunDoesNothing(j: Job, k: Job, fs: Fs)
    requires j.Valid() && k.Valid() && SameInputs(j, k) && Startable(j, fs) && Separate(j, j.AllTargets())
    requires j.Install(fs).status == Running && BrokenVersions(j.Retained()) == {}
    ensures var first := j.Install(fs).disk.fs;
      (k.Install(first).status == Running && k.Install(first).disk == Disk(first, [])) <==>
      j.site.env.bootVersion(j.cfg.systemdBoot).Some?
  {
    hide Job.Install, Separate, Startable, Settled, BootSettled, OneHome, Readable, SameInputs, Job.Retained, Job.Valid;
    if j.site.env.bootVersion(j.cfg.systemdBoot).Some? {
      var homes := FirstRunSettles(j, fs);
      SomeReadable(j, k, fs);
      SettledLength(j, j.Install(fs).disk.fs, j.BeforeSweep(fs).roots, j.AllTargets(), homes);
      SettledRunIsIdle(j, k, j.Install(fs).disk.fs, j.BeforeSweep(fs).roots, homes);
    } else {
      UnversionedBootLoaderAborts(j, k, fs);
    }
  }

  lemma SettledLength(j: Job, fs: Fs, roots: set<Path>, gs: seq<Generation>, homes: seq<Path>)
    requires Settled(j, fs, roots, gs, homes)
    ensures |homes| == |gs|
  {
  }
}
