/** What a run keeps at every single file-system operation, and what it leaves behind. */
module InstallSafety {
  import opened FileSystem
  import opened EfiPaths
  import opened StubNames
  import opened Generations
  import opened GarbageCollector
  import opened Esp
  import opened Installation

  /** Every state from `a` to `b` is an improvement on `a`. */
  ghost predicate Advances(site: Site, a: Disk, b: Disk) {
    && a.trace <= b.trace
    && (forall i | |a.trace| <= i < |b.trace| :: site.Improves(a.fs, b.trace[i]))
    && site.Improves(a.fs, b.fs)
  }

  lemma AdvancesTransitive(site: Site, a: Disk, b: Disk, c: Disk)
    requires Advances(site, a, b) && Advances(site, b, c)
    ensures Advances(site, a, c)
  {
    forall i | |a.trace| <= i < |c.trace| ensures site.Improves(a.fs, c.trace[i]) {
      if i < |b.trace| {
        assert c.trace[i] == b.trace[i];
      } else {
        ImprovesTransitive(site, a.fs, b.fs, c.trace[i]);
      }
    }
    ImprovesTransitive(site, a.fs, b.fs, c.fs);
  }

  /** The kernel and the initrd of a rooted stub are rooted too. */
  ghost predicate RootsClosed(site: Site, fs: Fs, roots: set<Path>)
    requires site.Inv(fs)
  {
    forall p | p in fs && p in roots && site.lay.IsStub(p) ::
      site.KernelOf(fs[p].content) in roots && site.InitrdOf(fs[p].content) in roots
  }

  ghost predicate Good(j: Job, st: State) {
    j.site.Inv(st.disk.fs) && RootsClosed(j.site, st.disk.fs, st.roots) && j.site.lay.Roots() <= st.roots
  }

  /** The generation has a stub that its search pattern finds, that boots, and that is rooted. */
  ghost predicate Served(j: Job, st: State, g: Generation) {
    exists p :: p in j.Candidates(st.disk.fs, j.IdOf(g)) && p in st.roots && j.site.Bootable(st.disk.fs, p)
  }

  // ---------------------------------------------------------------------------------------------
  // Single operations

  /** Neither a stub nor a content-addressed file. */
  predicate Quiet(lay: Layout, p: Path) {
    !lay.IsStub(p) && !lay.IsStored(p)
  }

  lemma TmpQuiet(lay: Layout, to: Path)
    ensures Quiet(lay, TmpPath(to))
  {
    if to != [] {
      var name := TmpName(to[|to| - 1]);
      assert TmpPath(to)[|to| - 1] == name;
      assert name[|name| - 4..][3] == name[|name| - 1] == 'p';
    }
  }

  lemma ShallowQuiet(lay: Layout, to: Path)
    requires |to| <= |lay.esp| + 3
    ensures forall q :: q in Prefixes(Parent(to)) ==> Quiet(lay, q)
  {
  }

  lemma PrefixesComparable(a: Path, b: Path, c: Path)
    ensures a <= c && b <= c ==> a <= b || b <= a
  {
    if a <= c && b <= c {
      assert a == c[..|a|] && b == c[..|b|];
    }
  }

  lemma OffEsp(j: Job, p: Path)
    requires j.Valid() && j.cfg.pcrlock.Some? && j.cfg.pcrlock.value <= p
    ensures !(j.site.lay.esp <= p)
  {
    PrefixesComparable(j.site.lay.esp, j.cfg.pcrlock.value, p);
  }

  lemma MeasurementQuiet(j: Job, to: Path, q: Path)
    requires j.Valid() && j.cfg.pcrlock.Some? && j.cfg.pcrlock.value <= to && q <= to
    ensures Quiet(j.site.lay, q)
  {
    OffEsp(j, to);
    assert j.site.lay.esp <= j.site.lay.Linux() && j.site.lay.esp <= j.site.lay.Nixos();
  }

  lemma MakeDirsSame(site: Site, disk: Disk, p: Path)
    requires forall q :: q in Prefixes(p) ==> Quiet(site.lay, q)
    ensures site.SameBoot(disk.fs, disk.MakeDirs(p).fs)
  {
  }

  lemma WriteSame(site: Site, disk: Disk, p: Path, content: Bytes)
    requires Quiet(site.lay, p)
    ensures site.SameBoot(disk.fs, disk.Write(p, content).fs)
    ensures disk.Write(p, content).trace == disk.trace + [disk.fs[p := File([])], disk.fs[p := File(content)]]
    ensures site.SameBoot(disk.fs, disk.fs[p := File([])])
  {
  }

  /** An atomic write changes nothing that matters for booting until its last step. */
  lemma AtomicWriteSteps(j: Job, disk: Disk, content: Bytes, to: Path)
    requires forall q :: q in Prefixes(Parent(to)) ==> Quiet(j.site.lay, q)
    ensures var d := j.AtomicWrite(disk, content, to);
      && disk.trace <= d.trace && |d.trace| == |disk.trace| + 4
      && d.trace[|disk.trace| + 3] == d.fs
      && (forall i | |disk.trace| <= i < |disk.trace| + 3 :: j.site.SameBoot(disk.fs, d.trace[i]))
      && j.site.SameBoot(disk.fs[to := File(content)], d.fs)
      && to in d.fs && d.fs[to] == File(content)
  {
    var made := disk.MakeDirs(Parent(to));
    var tmp := TmpPath(to);
    TmpQuiet(j.site.lay, to);
    MakeDirsSame(j.site, disk, Parent(to));
    WriteSame(j.site, made, tmp, content);
    var written := made.Write(tmp, content);
    assert written.fs[tmp] == File(content);
  }

  lemma QuietWriteAdvances(j: Job, disk: Disk, content: Bytes, to: Path)
    requires j.site.Inv(disk.fs) && Quiet(j.site.lay, to)
    requires forall q :: q in Prefixes(Parent(to)) ==> Quiet(j.site.lay, q)
    ensures var d := j.AtomicWrite(disk, content, to);
      Advances(j.site, disk, d) && j.site.SameBoot(disk.fs, d.fs)
  {
    var d := j.AtomicWrite(disk, content, to);
    AtomicWriteSteps(j, disk, content, to);
    SameBootImproves(j.site, disk.fs, d.fs);
    forall i | |disk.trace| <= i < |d.trace| ensures j.site.Improves(disk.fs, d.trace[i]) {
      SameBootImproves(j.site, disk.fs, d.trace[i]);
    }
  }

  /** `lock_pe`. */
  lemma MeasureAdvances(j: Job, disk: Disk, content: Bytes, to: Path)
    requires j.Valid() && j.site.Inv(disk.fs) && j.cfg.pcrlock.Some? && j.cfg.pcrlock.value <= Parent(to)
    ensures var d := disk.MakeDirs(Parent(to)).Write(to, content);
      Advances(j.site, disk, d) && j.site.SameBoot(disk.fs, d.fs)
  {
    hide Job.Valid, Site.Inv, Quiet, Site.Improves, Layout.IsStub, Layout.IsStored;
    MeasurementQuiet(j, to, to);
    forall q | q in Prefixes(Parent(to)) ensures Quiet(j.site.lay, q) {
      MeasurementQuiet(j, to, q);
    }
    var made := disk.MakeDirs(Parent(to));
    var d := made.Write(to, content);
    MakeDirsSame(j.site, disk, Parent(to));
    WriteSame(j.site, made, to, content);
    forall i | |disk.trace| <= i < |d.trace| ensures j.site.Improves(disk.fs, d.trace[i]) {
      SameBootImproves(j.site, disk.fs, d.trace[i]);
    }
    SameBootImproves(j.site, disk.fs, d.fs);
  }

  // ---------------------------------------------------------------------------------------------
  // Installing one generation

  lemma StoreTargetIsStore(j: Job, content: Bytes, lbl: string)
    ensures var to := j.StoreTarget(content, lbl);
      j.site.IsStoreFor(to, j.site.env.sha256(content)) && |to| == |j.site.lay.esp| + 3
  {
    var d := j.site.env.sha256(content);
    var name := lbl + j.site.StoreSuffix(d);
    assert j.StoreTarget(content, lbl)[|j.site.lay.esp| + 2] == name;
    assert name[|name| - |j.site.StoreSuffix(d)|..] == j.site.StoreSuffix(d);
    assert name[|name| - 4..] == ".efi";
  }

  lemma StoreWriteAdvances(j: Job, disk: Disk, content: Bytes, to: Path)
    requires j.site.env.Valid() && j.site.Inv(disk.fs)
    requires j.site.IsStoreFor(to, j.site.env.sha256(content))
    ensures var d := j.AtomicWrite(disk, content, to);
      && Advances(j.site, disk, d) && to in d.fs
      && SameStubs(j.site.lay, disk.fs, d.fs)
      && (forall p | p in disk.fs && j.site.lay.IsStored(p) :: p in d.fs)
  {
    var d := j.AtomicWrite(disk, content, to);
    ShallowQuiet(j.site.lay, to);
    AtomicWriteSteps(j, disk, content, to);
    StoreImproves(j.site, disk.fs, d.fs, to, content);
    forall i | |disk.trace| <= i < |d.trace| ensures j.site.Improves(disk.fs, d.trace[i]) {
      if i < |disk.trace| + 3 {
        SameBootImproves(j.site, disk.fs, d.trace[i]);
      }
    }
    forall p | j.site.lay.IsStub(p) ensures p != to {
      StubsAreNotStored(j.site.lay, p);
    }
  }

  ghost predicate SameStubs(lay: Layout, a: Fs, b: Fs) {
    forall p | lay.IsStub(p) :: (p in a <==> p in b) && (p in a ==> a[p] == b[p])
  }

  ghost predicate SameStubsBut(lay: Layout, a: Fs, b: Fs, to: Path) {
    forall p | lay.IsStub(p) && p != to :: (p in a <==> p in b) && (p in a ==> a[p] == b[p])
  }

  /** Growing roots over unchanged stubs. */
  lemma GoodGrows(j: Job, a: State, b: State)
    requires Good(j, a) && j.site.Inv(b.disk.fs) && SameStubs(j.site.lay, a.disk.fs, b.disk.fs)
    requires a.roots <= b.roots
    requires forall p | p in b.roots && p !in a.roots :: !j.site.lay.IsStub(p)
    ensures Good(j, b)
  {
  }

  /** Installing a content-addressed file: rooted, present afterwards, stubs untouched. */
  lemma InstallStoredAdvances(j: Job, st: State, content: Bytes, lbl: string)
    requires j.Valid() && Good(j, st)
    ensures var r, to := j.InstallStored(st, content, lbl), j.StoreTarget(content, lbl);
      && Advances(j.site, st.disk, r.disk) && Good(j, r)
      && r == st.(disk := r.disk, roots := st.roots + {to})
      && to in r.disk.fs && SameStubs(j.site.lay, st.disk.fs, r.disk.fs)
      && (forall p | p in st.disk.fs && j.site.lay.IsStored(p) :: p in r.disk.fs)
  {
    var to, fs := j.StoreTarget(content, lbl), st.disk.fs;
    StoreTargetIsStore(j, content, lbl);
    SameBootImproves(j.site, fs, fs);
    if to !in fs {
      StoreWriteAdvances(j, st.disk, content, to);
    }
    if j.site.lay.IsStub(to) {
      StubsAreNotStored(j.site.lay, to);
    }
    GoodGrows(j, st, j.InstallStored(st, content, lbl));
  }

  lemma CandidateIsStub(j: Job, fs: Fs, id: StubId, p: Path)
    requires p in j.Candidates(fs, id)
    ensures j.site.lay.IsStub(p)
  {
    MatchingIsStubName(id, p[|j.site.lay.esp| + 2]);
  }

  /** What is read from a well-built stub. */
  lemma ReadInstalledSound(j: Job, fs: Fs, id: StubId)
    requires j.Valid() && j.site.Inv(fs)
    ensures var r := j.ReadInstalled(fs, id);
      && r != Panic
      && (r.Found? ==>
        && r.stub in j.Candidates(fs, id) && j.site.lay.IsStub(r.stub) && j.site.Bootable(fs, r.stub)
        && r.kernel == j.site.KernelOf(fs[r.stub].content) && j.site.lay.IsStored(r.kernel)
        && r.initrd == j.site.InitrdOf(fs[r.stub].content) && j.site.lay.IsStored(r.initrd))
  {
    var names := j.Candidates(fs, id);
    if names != {} {
      var p := j.site.env.firstListed(fs, names);
      CandidateIsStub(j, fs, id, p);
      BootableIffPresent(j.site, fs, p);
    }
  }

  /** Under the invariant a generation is reported as installed only if it boots, and reading its
      stub cannot fail in an unexpected way. */
  lemma RegisterSound(j: Job, st: State, g: Generation)
    requires j.Valid() && Good(j, st)
    ensures var (r, outcome) := j.Register(st, g);
      && Good(j, r) && r == st.(roots := r.roots) && st.roots <= r.roots
      && outcome != Failed
      && (outcome == Installed ==> Served(j, r, g))
  {
    hide Job.ReadInstalled, Site.StoreIntact, Site.StubsWellBuilt, RootsClosed, Job.Valid, Site.Bootable, Matches;
    ReadInstalledSound(j, st.disk.fs, j.IdOf(g));
    var reading := j.ReadInstalled(st.disk.fs, j.IdOf(g));
    if reading.Found? {
      var rooted := st.(roots := st.roots + {reading.stub, reading.kernel, reading.initrd});
      RootedReadingGood(j, st, reading);
      if j.cfg.pcrlock.Some? {
        var file := j.LanzabooteMeasurement(g);
        MeasurementQuiet(j, file, file);
        GoodGrows(j, rooted, rooted.(roots := rooted.roots + {file}));
      }
    }
  }

  lemma RootedReadingGood(j: Job, st: State, reading: Reading)
    requires Good(j, st) && reading.Found?
    requires reading.stub in st.disk.fs && j.site.lay.IsStub(reading.stub)
    requires reading.kernel == j.site.KernelOf(st.disk.fs[reading.stub].content) && j.site.lay.IsStored(reading.kernel)
    requires reading.initrd == j.site.InitrdOf(st.disk.fs[reading.stub].content) && j.site.lay.IsStored(reading.initrd)
    ensures Good(j, st.(roots := st.roots + {reading.stub, reading.kernel, reading.initrd}))
  {
    hide Site.StoreIntact, Layout.IsStub, Layout.IsStored, Layout.Roots, Site.WellBuilt, Site.Labelled;
    var fs, roots := st.disk.fs, st.roots + {reading.stub, reading.kernel, reading.initrd};
    forall p | p in fs && p in roots && j.site.lay.IsStub(p)
      ensures j.site.KernelOf(fs[p].content) in roots && j.site.InitrdOf(fs[p].content) in roots
    {
      StubsAreNotStored(j.site.lay, p);
      assert p == reading.stub || p in st.roots;
    }
  }

  lemma ServedPersists(j: Job, a: State, b: State, g: Generation)
    requires Served(j, a, g) && j.site.Improves(a.disk.fs, b.disk.fs) && a.roots <= b.roots
    ensures Served(j, b, g)
  {
    var p :| p in j.Candidates(a.disk.fs, j.IdOf(g)) && p in a.roots && j.site.Bootable(a.disk.fs, p);
    CandidateIsStub(j, a.disk.fs, j.IdOf(g), p);
    assert p in j.Candidates(b.disk.fs, j.IdOf(g));
  }

  lemma StoreTargetPlain(j: Job, content: Bytes, lbl: string)
    requires j.Valid() && lbl != "" && '/' !in lbl && '\\' !in lbl
    ensures var to := j.StoreTarget(content, lbl); j.site.lay.esp < to && Plain(to[|j.site.lay.esp|..])
  {
    var d := j.site.env.sha256(content);
    var name := lbl + j.site.StoreSuffix(d);
    assert IsHashString(j.site.env.base32(d));
    assert j.StoreTarget(content, lbl)[|j.site.lay.esp|..] == ["EFI", "nixos", name];
    assert PlainComponent(name);
    assert PlainComponent("EFI") && PlainComponent("nixos");
  }

  lemma KernelVersionPlain(g: Generation)
    requires g.WellNamed()
    ensures '/' !in g.KernelVersion() && '\\' !in g.KernelVersion()
  {
    SplitInvents(g.kernelDirname, '-', '/');
    SplitInvents(g.kernelDirname, '-', '\\');
  }

  /** The image that is built points at the files that were just installed. */
  lemma StubImageWellBuilt(j: Job, g: Generation, initrd: Bytes)
    requires j.Valid() && g.WellNamed()
    ensures var image := j.StubImage(g, initrd);
      && image.Some?
      && j.site.WellBuilt(j.cfg.sign(image.value))
      && j.site.KernelOf(j.cfg.sign(image.value)) == j.StoreTarget(g.kernel, j.KernelLabel(g))
      && j.site.InitrdOf(j.cfg.sign(image.value)) == j.StoreTarget(initrd, j.InitrdLabel(g))
  {
    hide Job.StoreTarget, EspRelativeUefiPath, Generation.WellNamed;
    KernelVersionPlain(g);
    StoreTargetPlain(j, g.kernel, j.KernelLabel(g));
    StoreTargetPlain(j, initrd, j.InitrdLabel(g));
    UefiPathRoundTrip(j.site.lay.esp, j.StoreTarget(g.kernel, j.KernelLabel(g)));
    UefiPathRoundTrip(j.site.lay.esp, j.StoreTarget(initrd, j.InitrdLabel(g)));
    StoreTargetIsStore(j, g.kernel, j.KernelLabel(g));
    StoreTargetIsStore(j, initrd, j.InitrdLabel(g));
  }

  lemma StubTargetIsStub(j: Job, g: Generation)
    ensures j.site.lay.IsStub(j.StubTarget(g)) && |j.StubTarget(g)| == |j.site.lay.esp| + 3
    ensures Matches(j.IdOf(g), j.StubTarget(g)[|j.site.lay.esp| + 2])
  {
    StubNameMatches(j.IdOf(g), j.cfg.bootcountingInitialTries);
    MatchingIsStubName(j.IdOf(g), j.StubTarget(g)[|j.site.lay.esp| + 2]);
  }

  /** The signed stub replaces whatever had its final name, in the last of four steps. */
  lemma StubWriteAdvances(j: Job, disk: Disk, stub: Bytes, to: Path)
    requires j.site.Inv(disk.fs) && j.site.lay.IsStub(to)
    requires j.site.WellBuilt(stub) && j.site.Labelled(to[|j.site.lay.esp| + 2], stub)
    requires j.site.KernelOf(stub) in disk.fs && j.site.InitrdOf(stub) in disk.fs
    ensures var d := j.AtomicWrite(disk, stub, to);
      && Advances(j.site, disk, d) && j.site.Bootable(d.fs, to) && to in d.fs && d.fs[to] == File(stub)
      && SameStubsBut(j.site.lay, disk.fs, d.fs, to)
  {
    hide Job.AtomicWrite, Site.StoreIntact, Site.StubsWellBuilt, Site.Labelled, Site.WellBuilt, Layout.IsStored,
      Prefixes;
    var d := j.AtomicWrite(disk, stub, to);
    ShallowQuiet(j.site.lay, to);
    AtomicWriteSteps(j, disk, stub, to);
    StubImproves(j.site, disk.fs, d.fs, to, stub);
    forall i | |disk.trace| <= i < |d.trace| ensures j.site.Improves(disk.fs, d.trace[i]) {
      if i < |disk.trace| + 3 {
        SameBootImproves(j.site, disk.fs, d.trace[i]);
      }
    }
  }

  /** The measurement of the image, if Measured Boot is on. */
  lemma MeasureImageAdvances(j: Job, st: State, g: Generation, image: Bytes)
    requires j.Valid() && Good(j, st)
    ensures var r := j.MeasureImage(st, g, image);
      && Advances(j.site, st.disk, r.disk) && j.site.SameBoot(st.disk.fs, r.disk.fs) && Good(j, r)
      && r == st.(disk := r.disk, roots := st.roots + j.MeasurementOf(g))
  {
    SameBootImproves(j.site, st.disk.fs, st.disk.fs);
    if j.cfg.pcrlock.Some? {
      var file := j.LanzabooteMeasurement(g);
      assert j.cfg.pcrlock.value <= Parent(file);
      MeasureAdvances(j, st.disk, j.site.env.lockPe(image), file);
      MeasurementQuiet(j, file, file);
      GoodGrows(j, st, j.MeasureImage(st, g, image));
    }
  }

  /** The digests that address two generations collide only if toplevel and key are the same. */
  predicate ToldApart(j1: Job, g1: Generation, j2: Job, g2: Generation) {
    var env, k1, k2 := j1.site.env, j1.cfg.publicKey, j2.cfg.publicKey;
    env.sha256(env.stubInputs(g1.toplevel, k1)) == env.sha256(env.stubInputs(g2.toplevel, k2)) ==>
      g1.toplevel == g2.toplevel && k1 == k2
  }

  /** A file found by the search patterns of two generations, with counters of fewer digits than a hash, belongs to
      the same version, specialisation, toplevel and key. */
  lemma SearchesExclusive(j1: Job, g1: Generation, c1: Counter, j2: Job, g2: Generation, c2: Counter, name: string)
    requires j1.site == j2.site && j1.site.env.Valid() && ToldApart(j1, g1, j2, g2)
    requires MatchesWith(j1.IdOf(g1), c1, name) && MatchesWith(j2.IdOf(g2), c2, name)
    requires (c1.LeftDone? ==> |c1.done| < HASH_LENGTH) && (c2.LeftDone? ==> |c2.done| < HASH_LENGTH)
    ensures g1.version == g2.version && g1.specialisationName == g2.specialisationName
    ensures g1.toplevel == g2.toplevel && j1.cfg.publicKey == j2.cfg.publicKey
  {
    hide MatchesWith;
    PatternsExclusive(j1.IdOf(g1), c1, j2.IdOf(g2), c2, name);
  }

  /** The name of the stub stands for no other generation. */
  lemma StubImageLabelled(j: Job, g: Generation, initrd: Bytes)
    requires j.Valid() && g.WellNamed() && j.Meant(g)
    ensures j.StubImage(g, initrd).Some?
    ensures j.site.Labelled(j.StubTarget(g)[|j.site.lay.esp| + 2], j.cfg.sign(j.StubImage(g, initrd).value))
  {
    hide Matches, StubName;
    StubImageWellBuilt(j, g, initrd);
    StubTargetIsStub(j, g);
    var name := j.StubTarget(g)[|j.site.lay.esp| + 2];
    if j.site.meaning.Some? {
      forall id | IsProper(id) && Matches(id, name) ensures id == j.IdOf(g) {
        ProperPatternsExclusive(id, j.IdOf(g), name);
      }
    }
  }

  lemma InstallStubAdvances(j: Job, st: State, g: Generation, image: Bytes)
    requires j.Valid() && Good(j, st)
    requires j.site.WellBuilt(j.cfg.sign(image))
    requires j.site.Labelled(j.StubTarget(g)[|j.site.lay.esp| + 2], j.cfg.sign(image))
    requires var stub := j.cfg.sign(image);
      && j.site.KernelOf(stub) in st.disk.fs && j.site.InitrdOf(stub) in st.disk.fs
      && j.site.KernelOf(stub) in st.roots && j.site.InitrdOf(stub) in st.roots
    ensures var r := j.InstallStub(st, g, image);
      && Advances(j.site, st.disk, r.disk) && Good(j, r)
      && r == st.(disk := r.disk, roots := st.roots + {j.StubTarget(g)} + j.MeasurementOf(g))
      && SameStubsBut(j.site.lay, st.disk.fs, r.disk.fs, j.StubTarget(g))
      && r.disk.fs[j.StubTarget(g)] == File(j.cfg.sign(image))
      && j.StubTarget(g) in j.Candidates(r.disk.fs, j.IdOf(g)) && j.site.Bootable(r.disk.fs, j.StubTarget(g))
  {
    hide Job.AtomicWrite, Job.Valid, Site.StoreIntact, Site.StubsWellBuilt, Site.Bootable, Job.MeasureImage,
      Site.Labelled;
    var stub, to := j.cfg.sign(image), j.StubTarget(g);
    var measured := j.MeasureImage(st, g, image);
    MeasureImageAdvances(j, st, g, image);
    StubTargetIsStub(j, g);
    StubWriteAdvances(j, measured.disk, stub, to);
    var r := j.InstallStub(st, g, image);
    AdvancesTransitive(j.site, st.disk, measured.disk, r.disk);
    StubWriteGood(j, measured, r, to);
    assert SameStubsBut(j.site.lay, st.disk.fs, r.disk.fs, to);
  }

  /** One stub is replaced and rooted, its kernel and initrd being rooted already. */
  lemma StubWriteGood(j: Job, a: State, b: State, to: Path)
    requires Good(j, a) && j.site.Inv(b.disk.fs) && SameStubsBut(j.site.lay, a.disk.fs, b.disk.fs, to)
    requires b.roots == a.roots + {to} && to in b.disk.fs && j.site.lay.IsStub(to)
    requires j.site.KernelOf(b.disk.fs[to].content) in a.roots && j.site.InitrdOf(b.disk.fs[to].content) in a.roots
    ensures Good(j, b)
  {
  }

  /** The stub is in place, boots, and its roots are exactly what was added. */
  ghost predicate Reinstalled(j: Job, before: State, g: Generation, after: State) {
    var to, fs := j.StubTarget(g), after.disk.fs;
    && to in j.Candidates(fs, j.IdOf(g)) && j.site.Bootable(fs, to) && fs[to].File? && j.site.WellBuilt(fs[to].content)
    && after.roots == before.roots + {to, j.site.KernelOf(fs[to].content), j.site.InitrdOf(fs[to].content)}
      + j.MeasurementOf(g)
  }

  lemma InstallStoredPair(j: Job, st: State, g: Generation, initrd: Bytes)
    requires j.Valid() && Good(j, st) && st.status == Running
    ensures var a := j.InstallStored(st, g.kernel, j.KernelLabel(g));
      var r := j.InstallStored(a, initrd, j.InitrdLabel(g));
      var kernelTo, initrdTo := j.StoreTarget(g.kernel, j.KernelLabel(g)), j.StoreTarget(initrd, j.InitrdLabel(g));
      && a.status == Running && Advances(j.site, st.disk, r.disk) && Good(j, r)
      && SameStubs(j.site.lay, st.disk.fs, r.disk.fs)
      && r == st.(disk := r.disk, roots := st.roots + {kernelTo, initrdTo})
      && kernelTo in r.disk.fs && initrdTo in r.disk.fs
  {
    InstallStoredAdvances(j, st, g.kernel, j.KernelLabel(g));
    var a := j.InstallStored(st, g.kernel, j.KernelLabel(g));
    InstallStoredAdvances(j, a, initrd, j.InitrdLabel(g));
    AdvancesTransitive(j.site, st.disk, a.disk, j.InstallStored(a, initrd, j.InitrdLabel(g)).disk);
    StoreTargetIsStore(j, g.kernel, j.KernelLabel(g));
  }

  /** All three files installed, in the order kernel, initrd, stub. */
  lemma InstallTrio(j: Job, st: State, g: Generation, initrd: Bytes, stored: State)
    requires j.Valid() && Good(j, st) && g.WellNamed() && j.Meant(g) && st.status == Running
    requires stored == j.InstallStored(j.InstallStored(st, g.kernel, j.KernelLabel(g)), initrd, j.InitrdLabel(g))
    ensures j.StubImage(g, initrd).Some? && stored.status == Running
    ensures var r := j.InstallStub(stored, g, j.StubImage(g, initrd).value);
      && Advances(j.site, st.disk, r.disk) && Good(j, r) && r == st.(disk := r.disk, roots := r.roots)
      && SameStubsBut(j.site.lay, st.disk.fs, r.disk.fs, j.StubTarget(g))
      && Reinstalled(j, st, g, r)
  {
    hide Advances, Good, Job.Valid, Job.InstallStored, Job.InstallStub, Job.StubImage, Site.Bootable, Job.Meant,
      Site.WellBuilt, Site.Labelled, Job.StoreTarget, Generation.WellNamed, Layout.IsStub;
    InstallStoredPair(j, st, g, initrd);
    StubImageWellBuilt(j, g, initrd);
    StubImageLabelled(j, g, initrd);
    var image := j.StubImage(g, initrd).value;
    InstallStubAdvances(j, stored, g, image);
    AdvancesTransitive(j.site, st.disk, stored.disk, j.InstallStub(stored, g, image).disk);
  }

  lemma ReinstallAdvances(j: Job, st: State, g: Generation)
    requires j.Valid() && Good(j, st) && g.WellNamed() && j.Meant(g) && st.status == Running
    ensures var r := j.Reinstall(st, g);
      && Advances(j.site, st.disk, r.disk) && Good(j, r)
      && st.roots <= r.roots && r.brokenGens == st.brokenGens
      && SameStubsBut(j.site.lay, st.disk.fs, r.disk.fs, j.StubTarget(g))
      && (r.status == Running ==> Reinstalled(j, st, g, r))
  {
    InstallStoredAdvances(j, st, g.kernel, j.KernelLabel(g));
    if g.initrd.Some? {
      var stored := j.InstallStored(j.InstallStored(st, g.kernel, j.KernelLabel(g)), g.initrd.value, j.InitrdLabel(g));
      InstallTrio(j, st, g, g.initrd.value, stored);
      assert j.Reinstall(st, g) == j.InstallStub(stored, g, j.StubImage(g, g.initrd.value).value);
    } else {
      assert j.Reinstall(st, g).status == Aborted;
    }
  }

  lemma InstallGenerationAdvances(j: Job, st: State, g: Generation)
    requires j.Valid() && Good(j, st) && g.WellNamed() && j.Meant(g) && st.status == Running
    ensures var r := j.InstallGeneration(st, g);
      && Advances(j.site, st.disk, r.disk) && Good(j, r)
      && st.roots <= r.roots && r.brokenGens == st.brokenGens
      && (r.status == Running ==> Served(j, r, g))
  {
    RegisterSound(j, st, g);
    SameBootImproves(j.site, st.disk.fs, st.disk.fs);
    var (registered, outcome) := j.Register(st, g);
    if outcome == NotInstalled {
      ReinstallAdvances(j, registered, g);
    }
  }

  lemma {:induction false} InstallAllAdvances(j: Job, st: State, gs: seq<Generation>)
    requires j.Valid() && Good(j, st) && st.status == Running
    requires forall g :: g in gs ==> g.WellNamed() && j.Meant(g)
    ensures var r := j.InstallAll(st, gs);
      && Advances(j.site, st.disk, r.disk) && Good(j, r)
      && st.roots <= r.roots && r.brokenGens == st.brokenGens
      && (r.status == Running ==> forall g :: g in gs ==> Served(j, r, g))
    decreases |gs|
  {
    SameBootImproves(j.site, st.disk.fs, st.disk.fs);
    if gs != [] {
      var next := j.InstallGeneration(st, gs[0]);
      assert gs[0] in gs && forall g :: g in gs[1..] ==> g in gs;
      InstallGenerationAdvances(j, st, gs[0]);
      if next.status == Running {
        InstallAllAdvances(j, next, gs[1..]);
        var r := j.InstallAll(next, gs[1..]);
        AdvancesTransitive(j.site, st.disk, next.disk, r.disk);
        if r.status == Running {
          forall g | g in gs ensures Served(j, r, g) {
            if g == gs[0] {
              ServedPersists(j, next, r, g);
            } else {
              assert g in gs[1..];
            }
          }
        }
      }
    }
  }

  // ---------------------------------------------------------------------------------------------
  // The boot loader

  lemma BootFilesQuiet(lay: Layout, to: Path)
    requires to in {lay.Fallback(), lay.SystemdBoot(), lay.LoaderConf()}
    ensures Quiet(lay, to) && forall q :: q in Prefixes(Parent(to)) ==> Quiet(lay, q)
  {
    ShallowQuiet(lay, to);
    assert lay.Linux()[|lay.esp| + 1] == "Linux" && lay.Nixos()[|lay.esp| + 1] == "nixos";
    assert lay.Fallback()[|lay.esp| + 1] == "BOOT" && lay.SystemdBoot()[|lay.esp| + 1] == "systemd";
  }

  lemma UpdateSystemdBootAdvances(j: Job, disk: Disk)
    requires j.Valid() && j.site.Inv(disk.fs)
    ensures var d := j.UpdateSystemdBoot(disk);
      Advances(j.site, disk, d) && j.site.SameBoot(disk.fs, d.fs)
  {
    var lay, signed := j.site.lay, j.cfg.sign(j.cfg.systemdBoot);
    SameBootImproves(j.site, disk.fs, disk.fs);
    var measured := disk;
    if j.cfg.pcrlock.Some? {
      var next := j.BootloaderMeasurement("next");
      assert j.cfg.pcrlock.value <= Parent(next);
      measured := disk.MakeDirs(Parent(next)).Write(next, j.site.env.lockPe(j.cfg.systemdBoot));
      MeasureAdvances(j, disk, j.site.env.lockPe(j.cfg.systemdBoot), next);
    }
    BootFilesQuiet(lay, lay.Fallback());
    BootFilesQuiet(lay, lay.SystemdBoot());
    QuietWriteAdvances(j, measured, signed, lay.Fallback());
    var first := j.AtomicWrite(measured, signed, lay.Fallback());
    AdvancesTransitive(j.site, disk, measured, first);
    QuietWriteAdvances(j, first, signed, lay.SystemdBoot());
    var copied := j.AtomicWrite(first, signed, lay.SystemdBoot());
    AdvancesTransitive(j.site, disk, first, copied);
    assert j.site.SameBoot(disk.fs, copied.fs);
    if j.cfg.pcrlock.Some? {
      RenameMeasurementAdvances(j, copied);
      AdvancesTransitive(j.site, disk, copied, j.UpdateSystemdBoot(disk));
    }
  }

  lemma RenameMeasurementAdvances(j: Job, disk: Disk)
    requires j.Valid() && j.site.Inv(disk.fs) && j.cfg.pcrlock.Some?
    ensures var d := disk.Rename(j.BootloaderMeasurement("next"), j.BootloaderMeasurement("current"));
      Advances(j.site, disk, d) && j.site.SameBoot(disk.fs, d.fs)
  {
    var next, current := j.BootloaderMeasurement("next"), j.BootloaderMeasurement("current");
    MeasurementQuiet(j, next, next);
    MeasurementQuiet(j, current, current);
    SameBootImproves(j.site, disk.fs, disk.Rename(next, current).fs);
  }

  lemma InstallLoaderConfAdvances(j: Job, st: State)
    requires j.Valid() && Good(j, st)
    ensures var r := j.InstallFile(st, j.cfg.loaderConf, j.site.lay.LoaderConf());
      && Advances(j.site, st.disk, r.disk) && Good(j, r) && r.roots == st.roots && r.brokenGens == st.brokenGens
      && SameStubs(j.site.lay, st.disk.fs, r.disk.fs)
  {
    hide Job.AtomicWrite, Job.Valid, Site.StoreIntact, Site.StubsWellBuilt, Site.Bootable, Prefixes, Layout.IsStub,
      Layout.IsStored;
    var to := j.site.lay.LoaderConf();
    SameBootImproves(j.site, st.disk.fs, st.disk.fs);
    BootFilesQuiet(j.site.lay, to);
    QuietWriteAdvances(j, st.disk, j.cfg.loaderConf, to);
    GoodGrows(j, st, st.(disk := j.AtomicWrite(st.disk, j.cfg.loaderConf, to)));
  }

  lemma InstallSystemdBootAdvances(j: Job, st: State)
    requires j.Valid() && Good(j, st)
    ensures var r := j.InstallSystemdBoot(st);
      && Advances(j.site, st.disk, r.disk) && Good(j, r) && r.roots == st.roots && r.brokenGens == st.brokenGens
      && SameStubs(j.site.lay, st.disk.fs, r.disk.fs)
  {
    SameBootImproves(j.site, st.disk.fs, st.disk.fs);
    var need := j.NeedsSystemdBoot(st.disk.fs);
    if need.Some? {
      var updated := st;
      if need.value {
        updated := st.(disk := j.UpdateSystemdBoot(st.disk));
        UpdateSystemdBootAdvances(j, st.disk);
        GoodGrows(j, st, updated);
      }
      InstallLoaderConfAdvances(j, updated);
      AdvancesTransitive(j.site, st.disk, updated.disk, j.InstallSystemdBoot(st).disk);
    }
  }

  // ---------------------------------------------------------------------------------------------
  // The sweep

  /** A file of depth one in a swept directory survives if the directory and the file are rooted. */
  lemma RootedNotCondemned(lay: Layout, roots: set<Path>, filter: Path -> bool, dir: Path, p: Path)
    requires p in roots && dir in roots && (dir <= p ==> |p| == |dir| + 1)
    ensures !Condemned(roots, filter, dir, p)
  {
    if dir <= p {
      assert p[..|dir|] == dir && p[..|p|] == p;
    }
  }

  /** Neither the sweep of the pcrlock directory nor that of the other ESP directory reaches `p`. */
  lemma BootFileNotCondemned(j: Job, roots: set<Path>, filter: Path -> bool, dir: Path, p: Path)
    requires j.Valid() && j.InitialRoots() <= roots && p in roots
    requires j.site.lay.IsStub(p) || j.site.lay.IsStored(p)
    requires dir in {j.site.lay.Nixos(), j.site.lay.Linux()} || (j.cfg.pcrlock.Some? && dir == j.LanzabooteDir())
    ensures !Condemned(roots, filter, dir, p)
  {
    if j.cfg.pcrlock.Some? && dir == j.LanzabooteDir() && dir <= p {
      assert j.cfg.pcrlock.value <= dir;
      MeasurementQuiet(j, p, p);
    }
    RootedNotCondemned(j.site.lay, roots, filter, dir, p);
  }

  /** Every state of one sweep is part of the state before it and keeps the rooted boot files. */
  ghost predicate Thins(site: Site, roots: set<Path>, a: Fs, b: Fs) {
    && (forall p :: p in b ==> p in a && b[p] == a[p])
    && (forall p :: p in a && p in roots && (site.lay.IsStub(p) || site.lay.IsStored(p)) ==> p in b)
  }

  ghost predicate ThinsAlong(site: Site, roots: set<Path>, a: Disk, b: Disk) {
    && a.trace <= b.trace
    && (forall i | |a.trace| <= i < |b.trace| :: Thins(site, roots, a.fs, b.trace[i]))
    && Thins(site, roots, a.fs, b.fs)
  }

  lemma ThinsAlongTransitive(site: Site, roots: set<Path>, a: Disk, b: Disk, c: Disk)
    requires ThinsAlong(site, roots, a, b) && ThinsAlong(site, roots, b, c)
    ensures ThinsAlong(site, roots, a, c)
  {
    forall i | |a.trace| <= i < |c.trace| ensures Thins(site, roots, a.fs, c.trace[i]) {
      if i < |b.trace| {
        assert c.trace[i] == b.trace[i];
      }
    }
  }

  /** So does every state in the middle of a removal. */
  lemma ThinsBetween(site: Site, roots: set<Path>, a: Fs, b: Fs, c: Fs, x: Fs)
    requires Thins(site, roots, a, b) && Thins(site, roots, a, c) && Between(b, c, x)
    ensures Thins(site, roots, a, x)
  {
    hide Layout.IsStub, Layout.IsStored;
  }

  lemma CollectThins(j: Job, disk: Disk, roots: set<Path>, filter: Path -> bool, dir: Path)
    requires j.Valid() && j.InitialRoots() <= roots
    requires dir in {j.site.lay.Nixos(), j.site.lay.Linux()} || (j.cfg.pcrlock.Some? && dir == j.LanzabooteDir())
    ensures ThinsAlong(j.site, roots, disk, j.Collect(disk, roots, filter, dir))
  {
    hide Condemned, Sweep;
    var walk := j.site.env.walk(disk.fs, dir, GarbageIn(disk.fs, roots, filter, dir));
    assert IsWalk(disk.fs, dir, GarbageIn(disk.fs, roots, filter, dir), walk);
    SweepSound(disk, roots, filter, dir, walk);
    forall p | p in disk.fs && p in roots && (j.site.lay.IsStub(p) || j.site.lay.IsStored(p))
      ensures !Condemned(roots, filter, dir, p)
    {
      BootFileNotCondemned(j, roots, filter, dir, p);
    }
  }

  lemma CollectGarbageThins(j: Job, disk: Disk, roots: set<Path>)
    requires j.Valid() && j.InitialRoots() <= roots
    ensures ThinsAlong(j.site, roots, disk, j.CollectGarbage(disk, roots))
  {
    var lay := j.site.lay;
    var stored := j.Collect(disk, roots, Everything, lay.Nixos());
    var stubs := j.Collect(stored, roots, IsOurs, lay.Linux());
    CollectThins(j, disk, roots, Everything, lay.Nixos());
    CollectThins(j, stored, roots, IsOurs, lay.Linux());
    ThinsAlongTransitive(j.site, roots, disk, stored, stubs);
    if j.cfg.pcrlock.Some? {
      CollectThins(j, stubs, roots, Everything, j.LanzabooteDir());
      ThinsAlongTransitive(j.site, roots, disk, stubs, j.CollectGarbage(disk, roots));
    }
  }

  /** A rooted stub that boots before the sweep boots in every state that thins it out. */
  lemma ThinsKeepsBootable(site: Site, roots: set<Path>, a: Fs, b: Fs, p: Path)
    requires site.Inv(a) && RootsClosed(site, a, roots) && Thins(site, roots, a, b)
    requires site.lay.IsStub(p) && p in roots && site.Bootable(a, p)
    ensures site.Inv(b) && site.Bootable(b, p)
  {
    InvUnderDeletion(site, a, b);
    BootableIffPresent(site, a, p);
    BootableIffPresent(site, b, p);
  }
}
