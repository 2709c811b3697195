/** What a first run puts on an empty ESP, byte for byte, and in which order things happen. */
module FirstRun {
  import opened FileSystem
  import opened EfiPaths
  import opened StubNames
  import opened Generations
  import opened GarbageCollector
  import opened Esp
  import opened Installation
  import opened InstallSafety
  import opened RunFrame
  import opened Idempotence
  import opened SecondRun
  import BootSafety
  import RunOrder
  import OsRelease
  import OsReleaseExact

  /** The image that is built for a target. */
  ghost function ImageOf(j: Job, g: Generation): Bytes {
    if g.initrd.Some? && j.StubImage(g, g.initrd.value).Some? then j.StubImage(g, g.initrd.value).value else []
  }

  /** The stub of `g` is the signed image built for `h`, and its measurement is that of this image. */
  ghost predicate BuiltFor(j: Job, fs: Fs, g: Generation, h: Generation) {
    && j.IdOf(h) == j.IdOf(g) && h.initrd.Some?
    && j.StubTarget(g) in fs && fs[j.StubTarget(g)] == File(j.cfg.sign(ImageOf(j, h)))
    && forall m :: m in j.MeasurementOf(g) ==> m in fs && fs[m] == File(j.site.env.lockPe(ImageOf(j, h)))
  }

  ghost predicate Rooted(j: Job, roots: set<Path>, g: Generation) {
    j.StubTarget(g) in roots && j.MeasurementOf(g) <= roots
  }

  /** Every stub is the fresh one of a target done so far, and every such target has its own. */
  ghost predicate Fresh(j: Job, st: State, done: seq<Generation>) {
    && (forall p :: p in st.disk.fs && j.site.lay.IsStub(p) ==> exists h :: h in done && p == j.StubTarget(h))
    && (forall g :: g in done ==> Done(j, st, done, g))
  }

  ghost predicate Done(j: Job, st: State, done: seq<Generation>, g: Generation) {
    && Rooted(j, st.roots, g) && j.site.Bootable(st.disk.fs, j.StubTarget(g))
    && exists h :: h in done && BuiltFor(j, st.disk.fs, g, h)
  }

  /** With Measured Boot, targets of the same version and specialisation have the same identity: they share the file
      of their measurement. */
  ghost predicate TagsTellApart(j: Job, gs: seq<Generation>) {
    j.cfg.pcrlock.Some? ==>
      forall g, h :: g in gs && h in gs && g.VersionTag() == h.VersionTag() ==> j.IdOf(g) == j.IdOf(h)
  }

  // ---------------------------------------------------------------------------------------------
  // Installing one target

  /** A stub of a target that the pattern of `g` finds belongs to a target of the same identity. */
  lemma FoundIsOwn(j: Job, g: Generation, h: Generation)
    requires j.Valid() && Separate(j, [g, h]) && Matches(j.IdOf(g), j.StubTarget(h)[|j.site.lay.esp| + 2])
    ensures j.IdOf(g) == j.IdOf(h)
  {
    hide Matches, Shadows, Job.StubTarget;
    StubTargetIsStub(j, h);
    assert g in [g, h] && h in [g, h];
    if j.IdOf(g) != j.IdOf(h) {
      PatternsShareExactly(j.IdOf(g), j.IdOf(h));
    }
  }

  lemma FreshCandidates(j: Job, st: State, done: seq<Generation>, g: Generation, p: Path)
    requires j.Valid() && Fresh(j, st, done) && Separate(j, done + [g]) && p in j.Candidates(st.disk.fs, j.IdOf(g))
    ensures p == j.StubTarget(g) && exists h :: h in done && j.IdOf(h) == j.IdOf(g)
  {
    hide Matches, Shadows, Job.StubTarget, Done, Job.Valid;
    CandidateIsStub(j, st.disk.fs, j.IdOf(g), p);
    var h :| h in done && p == j.StubTarget(h);
    assert h in done + [g] && g in done + [g];
    assert Separate(j, [g, h]);
    FoundIsOwn(j, g, h);
    SameIdentity(j, g, h);
  }

  /** Writing on the ESP leaves what is below the pcrlock directory alone. */
  lemma EspWriteKeeps(j: Job, disk: Disk, content: Bytes, to: Path, p: Path)
    requires j.Valid() && j.cfg.pcrlock.Some? && j.cfg.pcrlock.value <= p && p in disk.fs
    requires j.site.lay.esp < to
    ensures var fs := j.AtomicWrite(disk, content, to).fs; p in fs && fs[p] == disk.fs[p]
  {
    hide Job.AtomicWrite, Job.Valid;
    OffEsp(j, p);
    assert j.site.lay.esp <= TmpPath(to);
    AtomicWriteEffect(j, disk, content, to, p);
  }

  lemma StoredKeeps(j: Job, st: State, content: Bytes, lbl: string, p: Path)
    requires j.Valid() && j.cfg.pcrlock.Some? && j.cfg.pcrlock.value <= p && p in st.disk.fs
    ensures var fs := j.InstallStored(st, content, lbl).disk.fs; p in fs && fs[p] == st.disk.fs[p]
  {
    hide Job.AtomicWrite, Job.Valid;
    EspWriteKeeps(j, st.disk, content, j.StoreTarget(content, lbl), p);
  }

  lemma MeasureKeeps(j: Job, st: State, g: Generation, image: Bytes, p: Path)
    requires j.cfg.pcrlock.Some?
    ensures var fs := j.MeasureImage(st, g, image).disk.fs;
      && (p in st.disk.fs && p != j.LanzabooteMeasurement(g) ==> p in fs && fs[p] == st.disk.fs[p])
      && j.LanzabooteMeasurement(g) in fs && fs[j.LanzabooteMeasurement(g)] == File(j.site.env.lockPe(image))
  {
    hide Prefixes;
  }

  lemma MeasurementBelow(j: Job, g: Generation)
    requires j.cfg.pcrlock.Some?
    ensures j.cfg.pcrlock.value <= j.LanzabooteMeasurement(g) && j.MeasurementOf(g) == {j.LanzabooteMeasurement(g)}
  {
  }

  lemma StubKeeps(j: Job, st: State, g: Generation, image: Bytes, p: Path)
    requires j.Valid() && j.cfg.pcrlock.Some? && j.cfg.pcrlock.value <= p
    ensures var fs, m := j.InstallStub(st, g, image).disk.fs, j.LanzabooteMeasurement(g);
      && (p in st.disk.fs && p != m ==> p in fs && fs[p] == st.disk.fs[p])
      && m in fs && fs[m] == File(j.site.env.lockPe(image))
  {
    hide Job.AtomicWrite, Job.Valid, Job.MeasureImage, Job.LanzabooteMeasurement;
    var measured, m := j.MeasureImage(st, g, image), j.LanzabooteMeasurement(g);
    MeasureKeeps(j, st, g, image, p);
    MeasurementBelow(j, g);
    assert j.site.lay.esp < j.StubTarget(g);
    EspWriteKeeps(j, measured.disk, j.cfg.sign(image), j.StubTarget(g), m);
    if p in st.disk.fs && p != m {
      EspWriteKeeps(j, measured.disk, j.cfg.sign(image), j.StubTarget(g), p);
    }
  }

  /** A fresh installation writes the measurement of its image, and leaves those of others alone. */
  lemma ReinstallMeasurements(j: Job, st: State, g: Generation, p: Path)
    requires j.Valid() && j.cfg.pcrlock.Some? && j.cfg.pcrlock.value <= p && j.Reinstall(st, g).status == Running
    ensures var fs, m := j.Reinstall(st, g).disk.fs, j.LanzabooteMeasurement(g);
      && (p in st.disk.fs && p != m ==> p in fs && fs[p] == st.disk.fs[p])
      && m in fs && fs[m] == File(j.site.env.lockPe(ImageOf(j, g)))
  {
    hide Job.InstallStored, Job.Valid, Job.InstallStub, Job.StubImage, Job.LanzabooteMeasurement;
    var withKernel := j.InstallStored(st, g.kernel, j.KernelLabel(g));
    var withInitrd := j.InstallStored(withKernel, g.initrd.value, j.InitrdLabel(g));
    if p in st.disk.fs {
      StoredKeeps(j, st, g.kernel, j.KernelLabel(g), p);
      StoredKeeps(j, withKernel, g.initrd.value, j.InitrdLabel(g), p);
    }
    StubKeeps(j, withInitrd, g, j.StubImage(g, g.initrd.value).value, p);
  }

  lemma TagsDiffer(j: Job, gs: seq<Generation>, g: Generation, h: Generation)
    requires TagsTellApart(j, gs) && g in gs && h in gs && j.IdOf(g) != j.IdOf(h) && j.cfg.pcrlock.Some?
    ensures j.LanzabooteMeasurement(g) != j.LanzabooteMeasurement(h)
  {
    hide Generation.VersionTag, Job.IdOf;
    var m, n := j.LanzabooteMeasurement(g), j.LanzabooteMeasurement(h);
    assert m[|m| - 1] == g.VersionTag() + ".pcrlock" && n[|n| - 1] == h.VersionTag() + ".pcrlock";
    if m == n {
      CutSuffix(g.VersionTag(), ".pcrlock", h.VersionTag(), ".pcrlock");
    }
  }

  /** A target of a new identity is built from scratch. */
  lemma NewIsReinstalled(j: Job, st: State, done: seq<Generation>, g: Generation)
    requires j.Valid() && Fresh(j, st, done) && Separate(j, done + [g])
    requires forall h :: h in done ==> j.IdOf(h) != j.IdOf(g)
    ensures j.InstallGeneration(st, g) == j.Reinstall(st, g)
  {
    hide Job.Candidates, Fresh, Separate, Job.Valid, Job.Reinstall;
    forall p ensures p !in j.Candidates(st.disk.fs, j.IdOf(g)) {
      if p in j.Candidates(st.disk.fs, j.IdOf(g)) {
        FreshCandidates(j, st, done, g, p);
      }
    }
    assert j.Candidates(st.disk.fs, j.IdOf(g)) == {};
  }

  lemma NewTargetElsewhere(j: Job, gs: seq<Generation>, g: Generation, h: Generation)
    requires j.Valid() && Separate(j, gs) && g in gs && h in gs && j.IdOf(g) != j.IdOf(h)
    ensures j.StubTarget(g) != j.StubTarget(h)
  {
    hide Matches, Shadows, Job.StubTarget, Job.Valid;
    StubTargetIsStub(j, g);
    assert Separate(j, [g, h]);
    if j.StubTarget(g) == j.StubTarget(h) {
      FoundIsOwn(j, g, h);
    }
  }

  lemma OtherStaysDone(j: Job, st: State, done: seq<Generation>, g: Generation, x: Generation)
    requires j.Valid() && Good(j, st) && g.WellNamed() && j.Meant(g) && st.status == Running
    requires Separate(j, done + [g]) && TagsTellApart(j, done + [g]) && x in done && Done(j, st, done, x)
    requires j.IdOf(x) != j.IdOf(g) && j.Reinstall(st, g).status == Running
    ensures Done(j, j.Reinstall(st, g), done + [g], x)
  {
    hide Good, Job.Valid, Job.Reinstall, Separate, TagsTellApart, Job.StubTarget, Site.Bootable, ImageOf,
      Site.StoreIntact, Site.StubsWellBuilt, Job.Meant, Generation.WellNamed, Reinstalled;
    var r := j.Reinstall(st, g);
    assert x in done + [g] && g in done + [g];
    ReinstallAdvances(j, st, g);
    NewTargetElsewhere(j, done + [g], x, g);
    StubTargetIsStub(j, x);
    var h :| h in done && BuiltFor(j, st.disk.fs, x, h);
    if j.cfg.pcrlock.Some? {
      TagsDiffer(j, done + [g], x, g);
      MeasurementBelow(j, x);
      ReinstallMeasurements(j, st, g, j.LanzabooteMeasurement(x));
    }
    assert BuiltFor(j, r.disk.fs, x, h) && h in done + [g];
  }

  lemma NewIsDone(j: Job, st: State, done: seq<Generation>, g: Generation)
    requires j.Valid() && Good(j, st) && g.WellNamed() && j.Meant(g) && st.status == Running
    requires j.Reinstall(st, g).status == Running
    ensures Done(j, j.Reinstall(st, g), done + [g], g)
  {
    hide Good, Job.Valid, Job.Reinstall, Job.StubTarget, Site.Bootable, Job.StubImage, Job.Candidates, SameStubsBut,
      Job.Meant, Generation.WellNamed, Site.WellBuilt, Advances;
    var r := j.Reinstall(st, g);
    ReinstallAdvances(j, st, g);
    RunOrder.TargetContent(j, st, g);
    if j.cfg.pcrlock.Some? {
      MeasurementBelow(j, g);
      ReinstallMeasurements(j, st, g, j.LanzabooteMeasurement(g));
    }
    assert BuiltFor(j, r.disk.fs, g, g) && g in done + [g];
  }

  lemma FreshStubs(j: Job, st: State, done: seq<Generation>, g: Generation)
    requires j.Valid() && Good(j, st) && g.WellNamed() && j.Meant(g) && st.status == Running && Fresh(j, st, done)
    ensures forall p :: p in j.Reinstall(st, g).disk.fs && j.site.lay.IsStub(p) ==>
      exists h :: h in done + [g] && p == j.StubTarget(h)
  {
    hide Good, Job.Valid, Job.Reinstall, Job.StubTarget, Layout.IsStub, Done, Reinstalled, Advances, Job.Meant;
    ReinstallAdvances(j, st, g);
    forall p | p in j.Reinstall(st, g).disk.fs && j.site.lay.IsStub(p)
      ensures exists h :: h in done + [g] && p == j.StubTarget(h)
    {
      if p == j.StubTarget(g) {
        assert g in done + [g];
      } else {
        assert p in st.disk.fs;
        var h :| h in done && p == j.StubTarget(h);
        assert h in done + [g];
      }
    }
  }

  lemma NewFresh(j: Job, st: State, done: seq<Generation>, g: Generation)
    requires j.Valid() && Good(j, st) && g.WellNamed() && j.Meant(g) && st.status == Running && Fresh(j, st, done)
    requires Separate(j, done + [g]) && TagsTellApart(j, done + [g])
    requires forall h :: h in done ==> j.IdOf(h) != j.IdOf(g)
    requires j.InstallGeneration(st, g).status == Running
    ensures Fresh(j, j.InstallGeneration(st, g), done + [g])
  {
    hide Good, Job.Valid, Job.InstallGeneration, Job.Reinstall, Done, Separate, TagsTellApart, Job.Meant, Job.IdOf,
      Generation.WellNamed, Layout.IsStub, Job.StubTarget;
    NewIsReinstalled(j, st, done, g);
    FreshStubs(j, st, done, g);
    NewIsDone(j, st, done, g);
    var r := j.Reinstall(st, g);
    forall x | x in done + [g] ensures Done(j, r, done + [g], x) {
      if x in done {
        OtherStaysDone(j, st, done, g, x);
      }
    }
  }

  /** A target of an identity that was installed before is found as it is. */
  lemma RepeatedFresh(j: Job, st: State, done: seq<Generation>, g: Generation, h: Generation)
    requires j.Valid() && Good(j, st) && Fresh(j, st, done) && Separate(j, done + [g])
    requires h in done && j.IdOf(h) == j.IdOf(g)
    ensures var r := j.InstallGeneration(st, g); r.disk == st.disk && st.roots <= r.roots && r.status == st.status
  {
    hide Good, Job.Valid, Job.ReadInstalled, Separate, Job.StubTarget, Site.Bootable, ImageOf, Fresh, Job.Candidates,
      Job.InstallGeneration, Layout.IsStub;
    assert Done(j, st, done, h) by {
      FreshDone(j, st, done, h);
    }
    SameIdentity(j, g, h);
    StubTargetIsStub(j, g);
    OnlyFreshCandidate(j, st, done, g, h);
    GoodInv(j, st);
    HomeIsRead(j, st.disk.fs, g, j.StubTarget(g));
    FoundIsInstalled(j, st, g);
  }

  lemma FreshDone(j: Job, st: State, done: seq<Generation>, h: Generation)
    requires Fresh(j, st, done) && h in done
    ensures Done(j, st, done, h)
  {
  }

  lemma OnlyFreshCandidate(j: Job, st: State, done: seq<Generation>, g: Generation, h: Generation)
    requires j.Valid() && Fresh(j, st, done) && Separate(j, done + [g]) && h in done && j.IdOf(h) == j.IdOf(g)
    ensures j.Candidates(st.disk.fs, j.IdOf(g)) == {j.StubTarget(g)}
  {
    hide Job.Valid, Separate, Job.StubTarget, Site.Bootable, ImageOf, Matches, Fresh;
    FreshDone(j, st, done, h);
    SameIdentity(j, g, h);
    StubTargetIsStub(j, g);
    assert j.StubTarget(g) in j.Candidates(st.disk.fs, j.IdOf(g));
    forall q | q in j.Candidates(st.disk.fs, j.IdOf(g)) ensures q == j.StubTarget(g) {
      FreshCandidates(j, st, done, g, q);
    }
  }

  lemma RepeatedStaysFresh(j: Job, a: State, b: State, done: seq<Generation>, g: Generation, h: Generation)
    requires Fresh(j, a, done) && h in done && j.IdOf(h) == j.IdOf(g)
    requires b.disk == a.disk && a.roots <= b.roots
    ensures Fresh(j, b, done + [g])
  {
    hide Done, Layout.IsStub, Job.StubTarget, Job.IdOf;
    assert forall x :: x in done ==> x in done + [g];
    forall x | x in done + [g] ensures Done(j, b, done + [g], x) {
      DoneCarries(j, a, b, done, g, x, if x in done then x else h);
    }
  }

  lemma DoneCarries(j: Job, a: State, b: State, done: seq<Generation>, g: Generation, x: Generation, y: Generation)
    requires Done(j, a, done, y) && j.IdOf(x) == j.IdOf(y) && b.disk == a.disk && a.roots <= b.roots
    ensures Done(j, b, done + [g], x)
  {
    hide Site.Bootable, ImageOf, Job.StubTarget, Job.IdOf, Job.MeasurementOf;
    SameIdentity(j, x, y);
    var z :| z in done && BuiltFor(j, a.disk.fs, y, z);
    assert BuiltFor(j, b.disk.fs, x, z) && z in done + [g];
  }

  lemma OneMoreFresh(j: Job, st: State, done: seq<Generation>, g: Generation)
    requires j.Valid() && Good(j, st) && g.WellNamed() && j.Meant(g) && st.status == Running && Fresh(j, st, done)
    requires Separate(j, done + [g]) && TagsTellApart(j, done + [g])
    requires j.InstallGeneration(st, g).status == Running
    ensures Fresh(j, j.InstallGeneration(st, g), done + [g])
  {
    hide Good, Job.Valid, Job.InstallGeneration, Fresh, Separate, TagsTellApart, Job.Meant, Job.IdOf,
      Generation.WellNamed;
    if h :| h in done && j.IdOf(h) == j.IdOf(g) {
      RepeatedFresh(j, st, done, g, h);
      RepeatedStaysFresh(j, st, j.InstallGeneration(st, g), done, g, h);
    } else {
      NewFresh(j, st, done, g);
    }
  }

  // ---------------------------------------------------------------------------------------------
  // The whole run

  lemma TagsPrefix(j: Job, a: seq<Generation>, b: seq<Generation>)
    requires TagsTellApart(j, a + b)
    ensures TagsTellApart(j, a)
  {
    assert forall g :: g in a ==> g in a + b;
  }

  lemma {:induction false} AllFresh(j: Job, st: State, done: seq<Generation>, gs: seq<Generation>)
    requires j.Valid() && Good(j, st) && st.status == Running && Fresh(j, st, done)
    requires Separate(j, done + gs) && TagsTellApart(j, done + gs)
    requires forall g :: g in gs ==> g.WellNamed() && j.Meant(g)
    requires j.InstallAll(st, gs).status == Running
    ensures Fresh(j, j.InstallAll(st, gs), done + gs)
    decreases |gs|
  {
    hide Good, Job.Valid, Job.InstallGeneration, Fresh, Separate, TagsTellApart, Job.Meant, Generation.WellNamed;
    if gs == [] {
      assert done + gs == done;
      NothingToInstall(j, st);
    } else {
      var g := gs[0];
      assert g in gs && forall x :: x in gs[1..] ==> x in gs;
      MoveFirst(done, gs);
      SeparatePrefix(j, done + [g], gs[1..]);
      TagsPrefix(j, done + [g], gs[1..]);
      InstallAllStep(j, st, gs);
      InstallGenerationAdvances(j, st, g);
      OneMoreFresh(j, st, done, g);
      AllFresh(j, j.InstallGeneration(st, g), done + [g], gs[1..]);
    }
  }

  lemma BeginFresh(j: Job, fs: Fs)
    requires BootSafety.EmptyEsp(j.site.lay, fs)
    ensures Fresh(j, j.Begin(fs), [])
  {
    forall p | p in fs ensures !j.site.lay.IsStub(p) {
      assert j.site.lay.esp <= j.site.lay.Linux();
    }
  }

  lemma MeasurementOutsideBoot(j: Job, g: Generation)
    requires j.Valid() && j.cfg.pcrlock.Some?
    ensures !InBootZone(j, j.LanzabooteMeasurement(g))
  {
    hide Job.Valid;
    var m, lock := j.LanzabooteMeasurement(g), j.cfg.pcrlock.value;
    MeasurementBelow(j, g);
    assert m[|lock|] == "635-lanzaboote.pcrlock.d";
    var dir := Parent(j.BootloaderMeasurement("next"));
    assert |dir| == |lock| + 1 && dir[|lock|] == "630-bootloader.pcrlock.d";
    forall b | b in BootFiles(j) ensures m != b && m != TmpPath(b) {
      MeasurementApart(j, b, m);
    }
  }

  lemma BootKeepsMeasurement(j: Job, st: State, g: Generation)
    requires j.Valid() && j.cfg.pcrlock.Some? && j.LanzabooteMeasurement(g) in st.disk.fs
    ensures var m, fs := j.LanzabooteMeasurement(g), j.InstallSystemdBoot(st).disk.fs; m in fs && fs[m] == st.disk.fs[m]
  {
    hide Job.Valid, Job.InstallSystemdBoot, LeadingDirs, InBootZone, IsScratch, Job.LanzabooteMeasurement;
    InstallSystemdBootFrame(j, st);
    MeasurementOutsideBoot(j, g);
    assert !InZone(j, BootZone, j.LanzabooteMeasurement(g));
  }

  lemma BootKeepsDone(j: Job, st: State, gs: seq<Generation>, g: Generation)
    requires j.Valid() && Good(j, st) && Done(j, st, gs, g)
    ensures Done(j, j.InstallSystemdBoot(st), gs, g)
  {
    hide Good, Job.Valid, Job.InstallSystemdBoot, Job.StubTarget, Site.Bootable, ImageOf, Job.LanzabooteMeasurement,
      Layout.IsStub, Job.IdOf;
    var r := j.InstallSystemdBoot(st);
    InstallSystemdBootAdvances(j, st);
    ImprovesAtOnce(j.site, st.disk, r.disk);
    StubTargetIsStub(j, g);
    var h :| h in gs && BuiltFor(j, st.disk.fs, g, h);
    if j.cfg.pcrlock.Some? {
      MeasurementBelow(j, g);
      BootKeepsMeasurement(j, st, g);
    }
    assert BuiltFor(j, r.disk.fs, g, h);
  }

  lemma SweepKeepsDone(j: Job, st: State, gs: seq<Generation>, g: Generation)
    requires j.Valid() && Good(j, st) && Done(j, st, gs, g) && j.InitialRoots() <= st.roots
    ensures exists h :: h in gs && BuiltFor(j, j.CollectGarbage(st.disk, st.roots).fs, g, h)
  {
    hide Good, Job.Valid, Job.CollectGarbage, Job.StubTarget, Site.Bootable, ImageOf, Layout.IsStub, Job.InitialRoots;
    var after := j.CollectGarbage(st.disk, st.roots).fs;
    CollectGarbageThins(j, st.disk, st.roots);
    StubTargetIsStub(j, g);
    forall m | m in j.MeasurementOf(g) ensures m in after {
      MeasurementSurvives(j, st.disk, st.roots, g, m);
    }
    var h :| h in gs && BuiltFor(j, st.disk.fs, g, h);
    assert BuiltFor(j, after, g, h);
  }

  lemma BeforeSweepDone(j: Job, fs: Fs, g: Generation)
    requires j.Valid() && BootSafety.EmptyEsp(j.site.lay, fs) && g in j.AllTargets()
    requires Separate(j, j.AllTargets()) && TagsTellApart(j, j.AllTargets()) && j.BeforeSweep(fs).status == Running
    ensures Good(j, j.BeforeSweep(fs)) && j.InitialRoots() <= j.BeforeSweep(fs).roots
    ensures Done(j, j.BeforeSweep(fs), j.AllTargets(), g)
  {
    hide Job.InstallAll, Job.InstallSystemdBoot, Good, Done, Separate, TagsTellApart, Readable, Job.AllTargets,
      Job.Retained, Job.InitialRoots, Advances, Site.Inv, Served;
    var st := j.Begin(fs);
    BootSafety.EmptyEspInv(j.site, fs);
    BootSafety.BeginGood(j, fs);
    BootSafety.BeforeSweepSafe(j, fs);
    BeginFresh(j, fs);
    var installed := j.InstallAll(st, j.AllTargets());
    InstallAllAdvances(j, st, j.AllTargets());
    assert [] + j.AllTargets() == j.AllTargets();
    AllFresh(j, st, [], j.AllTargets());
    BootKeepsDone(j, installed, j.AllTargets(), g);
  }

  /** After a completed run on an empty ESP, the stub of each target is the signed image built for a target of its
      identity, and with Measured Boot its measurement is the one of that image. */
  lemma FirstRunBuilds(j: Job, fs: Fs, g: Generation)
    requires j.Valid() && BootSafety.EmptyEsp(j.site.lay, fs) && g in j.AllTargets()
    requires Separate(j, j.AllTargets()) && TagsTellApart(j, j.AllTargets()) && j.Install(fs).status == Running
    ensures exists h :: h in j.AllTargets() && BuiltFor(j, j.Install(fs).disk.fs, g, h)
  {
    hide Job.BeforeSweep, Job.CollectGarbage, Good, BuiltFor, Separate, TagsTellApart, Job.AllTargets, Job.InitialRoots;
    BeforeSweepDone(j, fs, g);
    var before := j.BeforeSweep(fs);
    if j.Install(fs) != before {
      SweepKeepsDone(j, before, j.AllTargets(), g);
    }
  }

  // ---------------------------------------------------------------------------------------------
  // What is in a stub

  lemma JoinThree(a: string, b: string, c: string, sep: char)
    ensures Join([a, b, c], sep) == a + [sep] + (b + [sep] + c)
  {
    assert [a, b, c][1..] == [b, c] && [b, c][1..] == [c];
    assert Join([c], sep) == c;
    assert Join([b, c], sep) == b + [sep] + c;
  }

  lemma NoSlashInHash(j: Job, content: Bytes)
    requires j.Valid()
    ensures '/' !in j.site.env.base32(j.site.env.sha256(content))
  {
    assert IsHashString(j.site.env.base32(j.site.env.sha256(content)));
  }

  /** The path of a content-addressed file as the firmware wants it. */
  lemma StoredPathSpelled(j: Job, content: Bytes, lbl: string)
    requires j.Valid() && '/' !in lbl
    ensures EspRelativeUefiPath(j.site.lay.esp, j.StoreTarget(content, lbl)) ==
      Some("\\EFI\\nixos\\" + (lbl + "-" + j.site.env.base32(j.site.env.sha256(content)) + ".efi"))
  {
    hide Job.Valid, Join, Replace;
    var hash := j.site.env.base32(j.site.env.sha256(content));
    var name := lbl + j.site.StoreSuffix(j.site.env.sha256(content));
    assert name == lbl + "-" + hash + ".efi";
    assert '/' !in name by {
      NoSlashInHash(j, content);
    }
    var rel := ["EFI", "nixos", name];
    assert j.StoreTarget(content, lbl)[|j.site.lay.esp|..] == rel;
    assert forall i :: 0 <= i < |rel| ==> '/' !in rel[i] by {
      assert '/' !in "EFI" && '/' !in "nixos" && '/' !in name;
    }
    ReplaceJoin(rel, '/', '\\');
    JoinThree("EFI", "nixos", name, '\\');
    assert "\\" + ("EFI" + "\\" + ("nixos" + "\\" + name)) == "\\EFI\\nixos\\" + name;
  }

  /** Everything that is embedded in the stub of a generation. */
  ghost predicate Embedded(j: Job, h: Generation, initrd: Bytes, s: Sections) {
    var env, v := j.site.env, h.KernelVersion();
    && s.linux == Some("\\EFI\\nixos\\" + ("kernel-" + v + "-" + env.base32(env.sha256(h.kernel)) + ".efi"))
    && s.linuxh == Some(env.sha256(h.kernel))
    && s.initrd == Some("\\EFI\\nixos\\" + ("initrd-" + v + "-" + env.base32(env.sha256(initrd)) + ".efi"))
    && s.initrdh == Some(env.sha256(initrd))
    && s.cmdline.Some? && Spells(s.cmdline.value, ["init=" + h.init] + h.kernelParams)
    && s.osrel.Some? && DescribesItself(h, s.osrel.value)
  }

  /** The os-release text says who it is about, unless the label, the sort key or the specialisation cannot be read
      back. */
  ghost predicate DescribesItself(h: Generation, text: string) {
    OsRelease.PlainDate(h) && OsRelease.CleanValue(h.sortKey) && OsRelease.CleanLabel(h.label_)
    && OsRelease.NoBreaks(h.DescribeSpecialisation()) ==>
      var about := "Generation " + Decimal(h.version)
        + (if h.specialisationName.Some? then "-" + h.specialisationName.value else "")
        + ", " + (if h.buildTime.Some? then h.buildTime.value else "Unknown");
      OsRelease.Parse(text) ==
      map["ID" := h.sortKey, "PRETTY_NAME" := h.label_ + " (" + about + ")", "VERSION_ID" := about]
  }

  lemma TextDescribesItself(h: Generation)
    ensures DescribesItself(h, OsRelease.GenerationText(h))
  {
    hide OsRelease.Parse, OsRelease.CleanValue, OsRelease.CleanLabel, OsRelease.NoBreaks, OsRelease.PlainDate,
      OsRelease.GenerationText;
    if OsRelease.PlainDate(h) {
      OsReleaseExact.GenerationReadBackExactly(h);
    }
  }

  lemma ImageEmbeds(j: Job, h: Generation)
    requires j.Valid() && h.WellNamed() && h.initrd.Some?
    ensures Embedded(j, h, h.initrd.value, j.site.env.sections(j.cfg.sign(ImageOf(j, h))))
  {
    hide EspRelativeUefiPath, Job.StoreTarget, DescribesItself, Spells, Generation.Cmdline, OsRelease.GenerationText,
      Generation.KernelVersion;
    var initrd := h.initrd.value;
    StubImageWellBuilt(j, h, initrd);
    KernelVersionPlain(h);
    StoredPathSpelled(j, h.kernel, j.KernelLabel(h));
    StoredPathSpelled(j, initrd, j.InitrdLabel(h));
    CmdlineIs(h);
    TextDescribesItself(h);
  }

  /** Spelled out: the stub that a first run on an empty ESP leaves for a target names, as its kernel and its initrd,
      the files that hold those of a target of the same identity, with their hashes, and has that target's command
      line and description; the measurement next to it is that of this very stub. */
  lemma FirstRunSpelledOut(j: Job, fs: Fs, g: Generation) returns (h: Generation)
    requires j.Valid() && BootSafety.EmptyEsp(j.site.lay, fs) && g in j.AllTargets()
    requires Separate(j, j.AllTargets()) && TagsTellApart(j, j.AllTargets()) && j.Install(fs).status == Running
    ensures h in j.AllTargets() && j.IdOf(h) == j.IdOf(g) && h.initrd.Some?
    ensures var after := j.Install(fs).disk.fs;
      && j.StubTarget(g) in after && after[j.StubTarget(g)].File?
      && Embedded(j, h, h.initrd.value, j.site.env.sections(after[j.StubTarget(g)].content))
      && (j.cfg.pcrlock.Some? ==>
          var m := j.cfg.pcrlock.value + ["635-lanzaboote.pcrlock.d", g.VersionTag() + ".pcrlock"];
          m in after && after[m] == File(j.site.env.lockPe(after[j.StubTarget(g)].content)))
  {
    hide Job.Install, Separate, TagsTellApart, Job.AllTargets, Embedded, ImageOf, Job.StubTarget, Generation.VersionTag,
      BootSafety.EmptyEsp;
    FirstRunBuilds(j, fs, g);
    h :| h in j.AllTargets() && BuiltFor(j, j.Install(fs).disk.fs, g, h);
    ImageEmbeds(j, h);
    if j.cfg.pcrlock.Some? {
      var lock, dir, name := j.cfg.pcrlock.value, "635-lanzaboote.pcrlock.d", g.VersionTag() + ".pcrlock";
      assert j.LanzabooteMeasurement(g) == lock + [dir, name];
      MeasurementBelow(j, g);
      assert j.site.env.lockPe(j.cfg.sign(ImageOf(j, h))) == j.site.env.lockPe(ImageOf(j, h));
    }
  }

  /** Otherwise the measurements get in each other's way: that of `g` becomes the one of the image built for `h`. */
  lemma SharedTagOverwrites(j: Job, st: State, g: Generation, h: Generation)
    requires j.Valid() && j.cfg.pcrlock.Some? && g.VersionTag() == h.VersionTag()
    requires j.Reinstall(st, h).status == Running
    ensures var fs, m := j.Reinstall(st, h).disk.fs, j.LanzabooteMeasurement(g);
      m in fs && fs[m] == File(j.site.env.lockPe(ImageOf(j, h)))
  {
    hide Job.Valid, Job.Reinstall, ImageOf;
    MeasurementBelow(j, h);
    ReinstallMeasurements(j, st, h, j.LanzabooteMeasurement(h));
  }

  // ---------------------------------------------------------------------------------------------
  // What happens first

  lemma StubOffMeasurement(j: Job, g: Generation)
    requires j.Valid() && j.cfg.pcrlock.Some?
    ensures var to, m := j.StubTarget(g), j.LanzabooteMeasurement(g); to != m && to !in Prefixes(Parent(m))
  {
    hide Job.Valid;
    var to, m := j.StubTarget(g), j.LanzabooteMeasurement(g);
    MeasurementBelow(j, g);
    OffEsp(j, m);
    assert j.site.lay.esp <= to;
  }

  /** The states of measuring an image: the stub does not change in any of them. */
  lemma MeasuringSteps(j: Job, st: State, g: Generation, image: Bytes, i: nat)
    requires j.Valid() && j.cfg.pcrlock.Some?
    requires |st.disk.trace| <= i < |j.MeasureImage(st, g, image).disk.trace|
    ensures var to, now := j.StubTarget(g), j.MeasureImage(st, g, image).disk.trace[i];
      (to in now <==> to in st.disk.fs) && (to in now ==> now[to] == st.disk.fs[to])
    ensures var to, now := j.StubTarget(g), j.MeasureImage(st, g, image).disk.fs;
      (to in now <==> to in st.disk.fs) && (to in now ==> now[to] == st.disk.fs[to])
  {
    hide Job.Valid, Prefixes, Job.StubTarget, Job.LanzabooteMeasurement;
    StubOffMeasurement(j, g);
    var m := j.LanzabooteMeasurement(g);
    var made := st.disk.MakeDirs(Parent(m));
    var content := j.site.env.lockPe(image);
    assert j.MeasureImage(st, g, image).disk.trace ==
      st.disk.trace + [made.fs, made.fs[m := File([])], made.fs[m := File(content)]];
  }

  /** The states of an atomic write: its target changes only in the last one. */
  lemma WritingSteps(j: Job, disk: Disk, content: Bytes, to: Path, i: nat)
    requires to !in Prefixes(Parent(to)) && to != TmpPath(to)
    requires |disk.trace| <= i < |j.AtomicWrite(disk, content, to).trace|
    ensures var d := j.AtomicWrite(disk, content, to);
      && |d.trace| == |disk.trace| + 4 && d.trace[|disk.trace| + 3] == d.fs
      && (i < |disk.trace| + 3 ==>
          (to in d.trace[i] <==> to in disk.fs) && (to in d.trace[i] ==> d.trace[i][to] == disk.fs[to]))
  {
    hide Prefixes, TmpPath;
    var tmp := TmpPath(to);
    var made := disk.MakeDirs(Parent(to));
    var written := made.Write(tmp, content);
    assert written.trace == disk.trace + [made.fs, made.fs[tmp := File([])], made.fs[tmp := File(content)]];
    assert written.fs[tmp] == File(content);
  }

  lemma StubIsNoTmp(j: Job, g: Generation)
    ensures j.StubTarget(g) !in Prefixes(Parent(j.StubTarget(g))) && j.StubTarget(g) != TmpPath(j.StubTarget(g))
  {
    hide Layout.IsStub;
    StubTargetIsStub(j, g);
    TmpQuiet(j.site.lay, j.StubTarget(g));
  }

  /** With Measured Boot, at no step is there a new stub without its measurement. */
  lemma MeasuredBeforeInstalled(j: Job, st: State, g: Generation, image: Bytes, i: nat)
    requires j.Valid() && j.cfg.pcrlock.Some? && |st.disk.trace| <= i < |j.InstallStub(st, g, image).disk.trace|
    ensures var to, m, now := j.StubTarget(g), j.LanzabooteMeasurement(g), j.InstallStub(st, g, image).disk.trace[i];
      || ((to in now <==> to in st.disk.fs) && (to in now ==> now[to] == st.disk.fs[to]))
      || (m in now && now[m] == File(j.site.env.lockPe(image)))
  {
    hide Job.Valid, Job.MeasureImage, Job.AtomicWrite, Job.StubTarget, Job.LanzabooteMeasurement, TmpPath, Prefixes;
    var to := j.StubTarget(g);
    var measured, r := j.MeasureImage(st, g, image), j.InstallStub(st, g, image);
    MeasureExtends(j, st, g, image);
    MeasuringSteps(j, st, g, image, |measured.disk.trace| - 1);
    StubIsNoTmp(j, g);
    if i < |measured.disk.trace| {
      MeasuringSteps(j, st, g, image, i);
      WriteExtends(j, measured.disk, j.cfg.sign(image), to);
    } else {
      WritingSteps(j, measured.disk, j.cfg.sign(image), to, i);
      MeasurementBelow(j, g);
      StubKeeps(j, st, g, image, j.LanzabooteMeasurement(g));
    }
  }

  lemma MeasureExtends(j: Job, st: State, g: Generation, image: Bytes)
    requires j.cfg.pcrlock.Some?
    ensures |j.MeasureImage(st, g, image).disk.trace| == |st.disk.trace| + 3
  {
  }

  lemma WriteExtends(j: Job, disk: Disk, content: Bytes, to: Path)
    ensures disk.trace <= j.AtomicWrite(disk, content, to).trace
  {
  }

  /** If only the measurement of an installed generation is missing, its old stub stays rooted next to the new one:
      with boot counting, two bootable stubs of one generation can be there. */
  lemma TwoStubsCoexist(j: Job, st: State, g: Generation, kernel: Path, initrd: Path, p: Path)
    requires j.Valid() && Good(j, st) && g.WellNamed() && j.Meant(g) && st.status == Running && j.cfg.pcrlock.Some?
    requires j.ReadInstalled(st.disk.fs, j.IdOf(g)) == Found(p, kernel, initrd) && p != j.StubTarget(g)
    requires j.LanzabooteMeasurement(g) !in st.disk.fs && j.InstallGeneration(st, g).status == Running
    ensures var r := j.InstallGeneration(st, g);
      && p in r.roots && j.site.Bootable(r.disk.fs, p)
      && j.StubTarget(g) in r.roots && j.site.Bootable(r.disk.fs, j.StubTarget(g))
  {
    hide Good, Job.Valid, Job.ReadInstalled, Job.Reinstall, Site.Bootable, Job.StubTarget, Job.LanzabooteMeasurement,
      SameStubsBut, Job.Candidates, Site.StoreIntact, Site.StubsWellBuilt, Site.WellBuilt;
    GoodInv(j, st);
    ReadInstalledSound(j, st.disk.fs, j.IdOf(g));
    RegisterSound(j, st, g);
    var rooted := st.(roots := st.roots + {p, kernel, initrd});
    assert j.Register(st, g) == (rooted, NotInstalled);
    ReinstallAdvances(j, rooted, g);
  }

  lemma StubNotInNixos(j: Job, roots: set<Path>, p: Path)
    requires j.site.lay.IsStub(p)
    ensures !Condemned(roots, Everything, j.site.lay.Nixos(), p)
  {
    assert j.site.lay.Linux()[|j.site.lay.esp| + 1] == "Linux" && j.site.lay.Nixos()[|j.site.lay.esp| + 1] == "nixos";
  }

  /** Kernels and initrds go first: there is a point in the sweep up to which no stub is deleted and from which on
      nothing in EFI/nixos is garbage. */
  lemma KernelsSweptFirst(j: Job, disk: Disk, roots: set<Path>) returns (n: nat)
    requires j.Valid()
    ensures var trace := j.CollectGarbage(disk, roots).trace;
      && |disk.trace| <= n <= |trace|
      && (forall i, p :: |disk.trace| <= i < n && p in disk.fs && j.site.lay.IsStub(p) ==> p in trace[i])
      && (forall i :: n <= i < |trace| ==> GarbageIn(trace[i], roots, Everything, j.site.lay.Nixos()) == {})
  {
    hide Sweep, Condemned, Job.Valid, GarbageIn, Layout.IsStub;
    var nixos := j.site.lay.Nixos();
    var stored := j.Collect(disk, roots, Everything, nixos);
    n := |stored.trace|;
    var last := j.CollectGarbage(disk, roots);
    assert j.site.env.Valid() by {
      RunOrder.EnvIsValid(j);
    }
    CollectParts(j, disk, roots, Everything, nixos);
    CollectCleans(j, disk, roots, Everything, nixos);
    LaterParts(j, disk, roots);
    forall p | p in disk.fs && j.site.lay.IsStub(p) ensures !Condemned(roots, Everything, nixos, p) {
      StubNotInNixos(j, roots, p);
    }
    forall i | n <= i < |last.trace| ensures GarbageIn(last.trace[i], roots, Everything, nixos) == {} {
      GarbageShrinks(stored.fs, last.trace[i], roots, Everything, nixos);
    }
  }

  /** The states of one sweep. */
  lemma CollectParts(j: Job, disk: Disk, roots: set<Path>, filter: Path -> bool, dir: Path)
    requires j.site.env.Valid()
    ensures var d := j.Collect(disk, roots, filter, dir);
      && disk.trace <= d.trace && (forall p :: p in d.fs ==> p in disk.fs)
      && (forall i, p :: |disk.trace| <= i < |d.trace| && p in d.trace[i] ==> p in disk.fs)
      && (forall i, p :: |disk.trace| <= i < |d.trace| && p in disk.fs && !Condemned(roots, filter, dir, p) ==>
          p in d.trace[i])
  {
    hide Sweep, Condemned;
    var walk := j.site.env.walk(disk.fs, dir, GarbageIn(disk.fs, roots, filter, dir));
    assert IsWalk(disk.fs, dir, GarbageIn(disk.fs, roots, filter, dir), walk);
    SweepSound(disk, roots, filter, dir, walk);
  }

  lemma LaterParts(j: Job, disk: Disk, roots: set<Path>)
    requires j.site.env.Valid()
    ensures var stored, last := j.Collect(disk, roots, Everything, j.site.lay.Nixos()), j.CollectGarbage(disk, roots);
      && stored.trace <= last.trace
      && (forall i, p :: |stored.trace| <= i < |last.trace| && p in last.trace[i] ==> p in stored.fs)
  {
    hide Job.Collect, Condemned;
    var stored := j.Collect(disk, roots, Everything, j.site.lay.Nixos());
    var stubs := j.Collect(stored, roots, IsOurs, j.site.lay.Linux());
    CollectParts(j, stored, roots, IsOurs, j.site.lay.Linux());
    if j.cfg.pcrlock.Some? {
      var last := j.Collect(stubs, roots, Everything, j.LanzabooteDir());
      CollectParts(j, stubs, roots, Everything, j.LanzabooteDir());
      assert last.trace[..|stubs.trace|] == stubs.trace;
      forall i, p | |stored.trace| <= i < |last.trace| && p in last.trace[i] ensures p in stored.fs {
        if i < |stubs.trace| {
          assert last.trace[i] == stubs.trace[i];
        }
      }
    }
  }
}
