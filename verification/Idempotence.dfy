/** A second run with the same inputs writes nothing and deletes nothing. */
module Idempotence {
  import opened FileSystem
  import opened EfiPaths
  import opened StubNames
  import opened Generations
  import opened GarbageCollector
  import opened Esp
  import opened Installation
  import opened InstallSafety
  import opened RunFrame
  import BootSafety

  /** The search patterns of two targets are the same or have no file name in common. */
  ghost predicate Separate(j: Job, gs: seq<Generation>) {
    forall g, h :: g in gs && h in gs && j.IdOf(g) != j.IdOf(h) ==> !Shadows(j.IdOf(g), j.IdOf(h))
  }

  /** The pattern of `g` finds at most one stub: the one that installing `g` would replace, or one that boots. */
  ghost predicate Lone(j: Job, fs: Fs, g: Generation) {
    || j.Candidates(fs, j.IdOf(g)) <= {j.StubTarget(g)}
    || (j.cfg.pcrlock.None? && exists p :: j.Candidates(fs, j.IdOf(g)) == {p} && j.site.Bootable(fs, p))
  }

  /** The same stub identity is to be installed twice. */
  ghost predicate Repeated(j: Job, gs: seq<Generation>, g: Generation) {
    exists i, k :: 0 <= i < k < |gs| && j.IdOf(gs[i]) == j.IdOf(g) && j.IdOf(gs[k]) == j.IdOf(g)
  }

  ghost predicate LoneRepeats(j: Job, fs: Fs, gs: seq<Generation>) {
    forall g :: g in gs && Repeated(j, gs, g) ==> Lone(j, fs, g)
  }

  /** Targets with the same identity have the same stub. */
  ghost predicate OneHome(j: Job, gs: seq<Generation>, homes: seq<Path>)
    requires |homes| == |gs|
  {
    forall i, k :: 0 <= i < |gs| && 0 <= k < |gs| && j.IdOf(gs[i]) == j.IdOf(gs[k]) ==> homes[i] == homes[k]
  }

  /** `p` is the rooted, bootable stub of `g`, and its measurement is in place. */
  ghost predicate Home(j: Job, fs: Fs, roots: set<Path>, g: Generation, p: Path) {
    && p in j.Candidates(fs, j.IdOf(g)) && p in roots
    && j.site.lay.IsStub(p) && j.site.Bootable(fs, p)
    && (forall m :: m in j.MeasurementOf(g) ==> m in fs && m in roots)
  }

  /** What installing `g` with its stub at `p` roots. */
  ghost function Claim(j: Job, fs: Fs, g: Generation, p: Path): set<Path> {
    if p in fs && fs[p].File? && j.site.WellBuilt(fs[p].content) then
      {p, j.site.KernelOf(fs[p].content), j.site.InitrdOf(fs[p].content)} + j.MeasurementOf(g)
    else {}
  }

  ghost function Claims(j: Job, fs: Fs, gs: seq<Generation>, homes: seq<Path>): set<Path>
    requires |homes| == |gs|
    decreases |gs|
  {
    if gs == [] then {}
    else Claims(j, fs, gs[..|gs| - 1], homes[..|gs| - 1]) + Claim(j, fs, gs[|gs| - 1], homes[|gs| - 1])
  }

  /** Each target done so far has its stub, and nothing else has been rooted. */
  ghost predicate Tracked(j: Job, st: State, gs: seq<Generation>, homes: seq<Path>) {
    && |homes| == |gs|
    && (forall i :: 0 <= i < |gs| ==> Home(j, st.disk.fs, st.roots, gs[i], homes[i]))
    && st.roots == j.InitialRoots() + Claims(j, st.disk.fs, gs, homes)
    && (j.cfg.pcrlock.Some? ==> forall p | p in st.disk.fs && j.site.lay.IsStub(p) :: p in homes)
  }

  lemma {:induction false} ClaimsSame(j: Job, a: Fs, b: Fs, gs: seq<Generation>, homes: seq<Path>)
    requires |homes| == |gs|
    requires forall i :: 0 <= i < |gs| ==> homes[i] in a && homes[i] in b && a[homes[i]] == b[homes[i]]
    ensures Claims(j, a, gs, homes) == Claims(j, b, gs, homes)
    decreases |gs|
  {
    if gs != [] {
      ClaimsSame(j, a, b, gs[..|gs| - 1], homes[..|gs| - 1]);
    }
  }

  lemma {:induction false} ClaimsMember(j: Job, fs: Fs, gs: seq<Generation>, homes: seq<Path>, i: nat)
    requires |homes| == |gs| && i < |gs|
    ensures Claim(j, fs, gs[i], homes[i]) <= Claims(j, fs, gs, homes)
    decreases |gs|
  {
    if i < |gs| - 1 {
      ClaimsMember(j, fs, gs[..|gs| - 1], homes[..|gs| - 1], i);
    }
  }

  /** The only stubs among the claims are the homes. */
  lemma {:induction false} ClaimedStub(j: Job, fs: Fs, gs: seq<Generation>, homes: seq<Path>, p: Path)
    requires j.Valid() && |homes| == |gs| && p in Claims(j, fs, gs, homes) && j.site.lay.IsStub(p)
    ensures p in homes
    decreases |gs|
  {
    var n := |gs| - 1;
    if p in Claim(j, fs, gs[n], homes[n]) {
      StubsAreNotStored(j.site.lay, p);
      if p in j.MeasurementOf(gs[n]) {
        MeasurementQuiet(j, p, p);
      }
      assert p == homes[n];
    } else {
      ClaimedStub(j, fs, gs[..n], homes[..n], p);
    }
  }

  lemma InitialRootsNoStub(j: Job, p: Path)
    requires j.Valid() && p in j.InitialRoots()
    ensures !j.site.lay.IsStub(p)
  {
    var lay := j.site.lay;
    if j.cfg.pcrlock.Some? && p in {j.cfg.pcrlock.value, j.LanzabooteDir()} {
      MeasurementQuiet(j, p, p);
    } else {
      BootFilesQuiet(lay, lay.Fallback());
      BootFilesQuiet(lay, lay.SystemdBoot());
      BootFilesQuiet(lay, lay.LoaderConf());
    }
  }

  /** Two targets of different identity never share a stub. */
  lemma HomesApart(j: Job, fs: Fs, roots: set<Path>, g: Generation, h: Generation, p: Path)
    requires j.site.env.Valid() && Separate(j, [g, h]) && j.IdOf(g) != j.IdOf(h)
    requires Home(j, fs, roots, g, p) && |p| == |j.site.lay.esp| + 3
    ensures !Matches(j.IdOf(h), p[|j.site.lay.esp| + 2])
  {
    hide Matches, Shadows;
    assert g in [g, h] && h in [g, h];
    PatternsShareExactly(j.IdOf(g), j.IdOf(h));
    assert Matches(j.IdOf(g), p[|j.site.lay.esp| + 2]);
  }

  /** What a target is found by and measured under depends on its identity alone. */
  lemma SameIdentity(j: Job, g: Generation, h: Generation)
    requires j.IdOf(g) == j.IdOf(h)
    ensures j.MeasurementOf(g) == j.MeasurementOf(h) && j.StubTarget(g) == j.StubTarget(h)
  {
  }

  /** The only stub that is found, if it boots, is the one that is read. */
  lemma HomeIsRead(j: Job, fs: Fs, g: Generation, p: Path)
    requires j.Valid() && j.site.Inv(fs) && j.site.lay.IsStub(p) && j.site.Bootable(fs, p)
    requires j.Candidates(fs, j.IdOf(g)) == {p}
    ensures j.ReadInstalled(fs, j.IdOf(g)) == Found(p, j.site.KernelOf(fs[p].content), j.site.InitrdOf(fs[p].content))
  {
    hide Site.StoreIntact, Matches;
    BootableIffPresent(j.site, fs, p);
    assert j.site.env.firstListed(fs, {p}) in {p};
  }

  // ---------------------------------------------------------------------------------------------
  // The first run

  /** While a target is installed, the homes of the others stay as they are. */
  lemma HomePersists(j: Job, a: State, b: State, g: Generation, p: Path)
    requires Home(j, a.disk.fs, a.roots, g, p)
    requires j.site.Improves(a.disk.fs, b.disk.fs) && a.roots <= b.roots && Keeps(j, a.disk.fs, b.disk.fs)
    ensures Home(j, b.disk.fs, b.roots, g, p)
  {
    assert p in j.Candidates(b.disk.fs, j.IdOf(g));
    forall m | m in j.MeasurementOf(g) ensures m in b.disk.fs {
      MeasurementIsNotScratch(j, g);
    }
  }

  lemma MeasurementIsNotScratch(j: Job, g: Generation)
    requires j.cfg.pcrlock.Some?
    ensures !IsScratch(j, j.LanzabooteMeasurement(g))
  {
    var m, lock := j.LanzabooteMeasurement(g), j.cfg.pcrlock.value;
    var name := g.VersionTag() + ".pcrlock";
    assert m[|m| - 1] == name && name[|name| - 1] == 'k';
    assert |name| >= 5 ==> name[|name| - 5..][4] == name[|name| - 1];
    assert m[|lock|] == "635-lanzaboote.pcrlock.d"
      && j.BootloaderMeasurement("next")[|lock|] == "630-bootloader.pcrlock.d";
  }

  lemma ClaimsExtend(j: Job, a: Fs, b: Fs, gs: seq<Generation>, homes: seq<Path>, g: Generation, p: Path)
    requires |homes| == |gs|
    requires forall i :: 0 <= i < |homes| ==> homes[i] in a && homes[i] in b && a[homes[i]] == b[homes[i]]
    ensures Claims(j, b, gs + [g], homes + [p]) == Claims(j, a, gs, homes) + Claim(j, b, g, p)
  {
    ClaimsSame(j, a, b, gs, homes);
    assert (gs + [g])[..|gs|] == gs && (homes + [p])[..|gs|] == homes;
  }

  /** `b` keeps the homes of `a` as they are, apart from which only `p` may be a stub. */
  ghost predicate HomesKept(j: Job, a: State, b: State, homes: seq<Path>, p: Path) {
    && j.site.Improves(a.disk.fs, b.disk.fs) && Keeps(j, a.disk.fs, b.disk.fs)
    && (forall i :: 0 <= i < |homes| ==>
        homes[i] in a.disk.fs && homes[i] in b.disk.fs && a.disk.fs[homes[i]] == b.disk.fs[homes[i]])
    && (j.cfg.pcrlock.Some? ==> forall q | q in b.disk.fs && j.site.lay.IsStub(q) :: q in homes || q == p)
  }

  lemma HomesExtend(j: Job, a: State, b: State, gs: seq<Generation>, homes: seq<Path>, g: Generation, p: Path, i: nat)
    requires Tracked(j, a, gs, homes) && Home(j, b.disk.fs, b.roots, g, p) && HomesKept(j, a, b, homes, p)
    requires a.roots <= b.roots && i < |gs| + 1
    ensures Home(j, b.disk.fs, b.roots, (gs + [g])[i], (homes + [p])[i])
  {
    if i < |gs| {
      assert (gs + [g])[i] == gs[i] && (homes + [p])[i] == homes[i];
      HomePersists(j, a, b, gs[i], homes[i]);
    } else {
      assert (gs + [g])[i] == g && (homes + [p])[i] == p;
    }
  }

  lemma TrackedExtends(j: Job, a: State, b: State, gs: seq<Generation>, homes: seq<Path>, g: Generation, p: Path)
    requires Tracked(j, a, gs, homes) && Home(j, b.disk.fs, b.roots, g, p) && HomesKept(j, a, b, homes, p)
    requires b.roots == a.roots + Claim(j, b.disk.fs, g, p)
    ensures Tracked(j, b, gs + [g], homes + [p])
  {
    ClaimsExtend(j, a.disk.fs, b.disk.fs, gs, homes, g, p);
    forall i | 0 <= i < |gs + [g]| ensures Home(j, b.disk.fs, b.roots, (gs + [g])[i], (homes + [p])[i]) {
      HomesExtend(j, a, b, gs, homes, g, p, i);
    }
    UnionAssociative(j.InitialRoots(), Claims(j, a.disk.fs, gs, homes), Claim(j, b.disk.fs, g, p));
    StubsExtend(j, b.disk.fs, homes, p);
  }

  lemma UnionAssociative(x: set<Path>, y: set<Path>, z: set<Path>)
    ensures x + y + z == x + (y + z)
  {
  }

  lemma StubsExtend(j: Job, fs: Fs, homes: seq<Path>, p: Path)
    ensures (forall q | q in fs && j.site.lay.IsStub(q) :: q in homes || q == p) ==>
            (forall q | q in fs && j.site.lay.IsStub(q) :: q in homes + [p])
  {
  }

  /** No target before `g` has its identity, and none can be mistaken for it. */
  ghost predicate IsNew(j: Job, gs: seq<Generation>, g: Generation) {
    forall h :: h in gs ==> j.IdOf(h) != j.IdOf(g) && Separate(j, [h, g])
  }

  /** With Measured Boot, a first run on an empty ESP finds no stub of a target that is yet to come. */
  lemma NothingFound(j: Job, st: State, gs: seq<Generation>, homes: seq<Path>, g: Generation, p: Path)
    requires j.site.env.Valid() && j.cfg.pcrlock.Some? && Tracked(j, st, gs, homes) && IsNew(j, gs, g)
    ensures p !in j.Candidates(st.disk.fs, j.IdOf(g))
  {
    if p in j.Candidates(st.disk.fs, j.IdOf(g)) {
      CandidateIsStub(j, st.disk.fs, j.IdOf(g), p);
      HomeOf(j, st, gs, homes, g, p);
    }
  }

  /** No home of another target is found by the pattern of `g`. */
  lemma HomeOf(j: Job, st: State, gs: seq<Generation>, homes: seq<Path>, g: Generation, p: Path)
    requires |homes| == |gs| && (forall i :: 0 <= i < |gs| ==> Home(j, st.disk.fs, st.roots, gs[i], homes[i]))
    requires j.site.env.Valid() && IsNew(j, gs, g) && p in homes && |p| == |j.site.lay.esp| + 3
    ensures !Matches(j.IdOf(g), p[|j.site.lay.esp| + 2])
  {
    var i :| 0 <= i < |homes| && homes[i] == p;
    assert gs[i] in gs;
    HomesApart(j, st.disk.fs, st.roots, gs[i], g, p);
  }

  lemma FoundHome(j: Job, st: State, g: Generation) returns (p: Path)
    requires j.Valid() && j.site.Inv(st.disk.fs) && j.Register(st, g).1 == Installed
    ensures var r := j.Register(st, g).0;
      && Home(j, r.disk.fs, r.roots, g, p)
      && r == st.(roots := st.roots + Claim(j, r.disk.fs, g, p))
  {
    hide Job.ReadInstalled, Site.StoreIntact, Matches, Job.Register;
    ReadInstalledSound(j, st.disk.fs, j.IdOf(g));
    var reading := j.ReadInstalled(st.disk.fs, j.IdOf(g));
    RegisterRoots(j, st, g);
    p := reading.stub;
    assert Claim(j, st.disk.fs, g, p) == {p, reading.kernel, reading.initrd} + j.MeasurementOf(g);
  }

  lemma RegisterRoots(j: Job, st: State, g: Generation)
    requires j.Register(st, g).1 == Installed
    ensures var reading, r := j.ReadInstalled(st.disk.fs, j.IdOf(g)), j.Register(st, g).0;
      && reading.Found?
      && r == st.(roots := st.roots + {reading.stub, reading.kernel, reading.initrd} + j.MeasurementOf(g))
      && (forall m :: m in j.MeasurementOf(g) ==> m in st.disk.fs)
  {
  }

  lemma FoundTracked(j: Job, st: State, gs: seq<Generation>, homes: seq<Path>, g: Generation) returns (p: Path)
    requires j.Valid() && j.site.Inv(st.disk.fs) && Tracked(j, st, gs, homes)
    requires j.Register(st, g).1 == Installed
    ensures Tracked(j, j.Register(st, g).0, gs + [g], homes + [p])
  {
    p := FoundHome(j, st, g);
    SameBootImproves(j.site, st.disk.fs, st.disk.fs);
    TrackedExtends(j, st, j.Register(st, g).0, gs, homes, g, p);
  }

  lemma TargetIsNoHome(j: Job, st: State, gs: seq<Generation>, homes: seq<Path>, g: Generation)
    requires j.site.env.Valid() && Tracked(j, st, gs, homes) && IsNew(j, gs, g)
    ensures j.StubTarget(g) !in homes
  {
    StubTargetIsStub(j, g);
    if j.StubTarget(g) in homes {
      HomeOf(j, st, gs, homes, g, j.StubTarget(g));
    }
  }

  lemma ReinstallKeeps(j: Job, st: State, g: Generation)
    requires j.Register(st, g) == (st, NotInstalled)
    ensures Keeps(j, st.disk.fs, j.Reinstall(st, g).disk.fs)
  {
    InstallGenerationFrame(j, st, g);
  }

  lemma StubMeasures(j: Job, st: State, g: Generation, image: Bytes)
    ensures forall m :: m in j.MeasurementOf(g) ==> m in j.InstallStub(st, g, image).disk.fs
  {
    if j.cfg.pcrlock.Some? {
      var measured := j.MeasureImage(st, g, image);
      assert j.LanzabooteMeasurement(g) in measured.disk.fs;
      StubZone(j, g);
      AtomicWriteFrame(j, GenerationZone, measured.disk, j.cfg.sign(image), j.StubTarget(g));
      MeasurementIsNotScratch(j, g);
    }
  }

  lemma ReinstallMeasures(j: Job, st: State, g: Generation)
    requires j.Reinstall(st, g).status == Running
    ensures forall m :: m in j.MeasurementOf(g) ==> m in j.Reinstall(st, g).disk.fs
  {
    var stored := j.InstallStored(j.InstallStored(st, g.kernel, j.KernelLabel(g)), g.initrd.value, j.InitrdLabel(g));
    StubMeasures(j, stored, g, j.StubImage(g, g.initrd.value).value);
  }

  /** A fresh stub is a home, and its roots are its claim. */
  lemma ReinstalledHome(j: Job, st: State, g: Generation)
    requires j.Valid() && Good(j, st) && g.WellNamed() && j.Meant(g) && st.status == Running
    requires j.Reinstall(st, g).status == Running
    ensures var r := j.Reinstall(st, g);
      && Home(j, r.disk.fs, r.roots, g, j.StubTarget(g))
      && r.roots == st.roots + Claim(j, r.disk.fs, g, j.StubTarget(g))
  {
    ReinstallAdvances(j, st, g);
    ReinstallMeasures(j, st, g);
    StubTargetIsStub(j, g);
  }

  lemma ReinstalledKeepsHomes(j: Job, st: State, gs: seq<Generation>, homes: seq<Path>, g: Generation)
    requires j.Valid() && Good(j, st) && Tracked(j, st, gs, homes) && j.StubTarget(g) !in homes
    requires g.WellNamed() && j.Meant(g) && st.status == Running && j.Register(st, g) == (st, NotInstalled)
    ensures HomesKept(j, st, j.Reinstall(st, g), homes, j.StubTarget(g))
  {
    ReinstallAdvances(j, st, g);
    ReinstallKeeps(j, st, g);
  }

  lemma ReinstalledTracked(j: Job, st: State, gs: seq<Generation>, homes: seq<Path>, g: Generation)
    requires j.Valid() && Good(j, st) && Tracked(j, st, gs, homes) && IsNew(j, gs, g)
    requires g.WellNamed() && j.Meant(g) && st.status == Running
    requires j.Register(st, g) == (st, NotInstalled) && j.Reinstall(st, g).status == Running
    ensures Tracked(j, j.Reinstall(st, g), gs + [g], homes + [j.StubTarget(g)])
  {
    ReinstalledHome(j, st, g);
    TargetIsNoHome(j, st, gs, homes, g);
    ReinstalledKeepsHomes(j, st, gs, homes, g);
    TrackedExtends(j, st, j.Reinstall(st, g), gs, homes, g, j.StubTarget(g));
  }

  lemma UnreadableRegisters(j: Job, st: State, g: Generation)
    requires j.Valid() && Good(j, st)
    requires j.cfg.pcrlock.None? || j.Candidates(st.disk.fs, j.IdOf(g)) == {}
    ensures j.Register(st, g).1 == Installed || j.Register(st, g) == (st, NotInstalled)
  {
    ReadInstalledSound(j, st.disk.fs, j.IdOf(g));
  }

  /** A target of a new identity. */
  lemma InstallNewTracked(j: Job, st: State, done: seq<Generation>, homes: seq<Path>, g: Generation) returns (p: Path)
    requires j.Valid() && Good(j, st) && st.status == Running && Tracked(j, st, done, homes)
    requires IsNew(j, done, g) && g.WellNamed() && j.Meant(g)
    requires j.InstallGeneration(st, g).status == Running
    ensures Tracked(j, j.InstallGeneration(st, g), done + [g], homes + [p])
  {
    if j.cfg.pcrlock.Some? {
      forall q ensures q !in j.Candidates(st.disk.fs, j.IdOf(g)) {
        NothingFound(j, st, done, homes, g, q);
      }
    }
    UnreadableRegisters(j, st, g);
    p := j.StubTarget(g);
    if j.Register(st, g).1 == Installed {
      p := FoundTracked(j, st, done, homes, g);
    } else {
      ReinstalledTracked(j, st, done, homes, g);
    }
  }

  lemma LoneIsOnly(j: Job, fs: Fs, g: Generation, p: Path)
    requires Lone(j, fs, g) && p in j.Candidates(fs, j.IdOf(g))
    ensures j.Candidates(fs, j.IdOf(g)) == {p}
  {
    hide Job.Candidates, Site.Bootable;
  }

  /** A target that was installed before is found where it was put. */
  lemma RepeatedIsFound(j: Job, st: State, done: seq<Generation>, homes: seq<Path>, g: Generation, i: nat)
    requires j.Valid() && Good(j, st) && Tracked(j, st, done, homes) && Lone(j, st.disk.fs, g)
    requires i < |done| && j.IdOf(done[i]) == j.IdOf(g)
    ensures j.Register(st, g).1 == Installed
  {
    hide Job.ReadInstalled, Site.Inv, Job.Valid, Job.Candidates, Lone, RootsClosed, Claims;
    var p := homes[i];
    assert Home(j, st.disk.fs, st.roots, done[i], p);
    LoneIsOnly(j, st.disk.fs, g, p);
    HomeIsRead(j, st.disk.fs, g, p);
    SameIdentity(j, g, done[i]);
    assert j.cfg.pcrlock.Some? ==> j.LanzabooteMeasurement(g) in j.MeasurementOf(g);
  }

  ghost predicate Fresh(j: Job, done: seq<Generation>, g: Generation) {
    forall i :: 0 <= i < |done| ==> j.IdOf(done[i]) != j.IdOf(g)
  }

  /** One more target installed. */
  lemma InstallOneTracked(j: Job, st: State, done: seq<Generation>, homes: seq<Path>, g: Generation) returns (p: Path)
    requires j.Valid() && Good(j, st) && st.status == Running && Tracked(j, st, done, homes)
    requires Separate(j, done + [g]) && g.WellNamed() && j.Meant(g)
    requires !Fresh(j, done, g) ==> Lone(j, st.disk.fs, g)
    requires j.InstallGeneration(st, g).status == Running
    ensures Tracked(j, j.InstallGeneration(st, g), done + [g], homes + [p])
  {
    hide Tracked, Good, Job.Valid, Job.Meant, Lone, Job.Register, Shadows;
    if Fresh(j, done, g) {
      assert IsNew(j, done, g) by {
        assert g in done + [g] && forall h :: h in done ==> h in done + [g];
      }
      p := InstallNewTracked(j, st, done, homes, g);
    } else {
      var i :| 0 <= i < |done| && j.IdOf(done[i]) == j.IdOf(g);
      TrackedLength(j, st, done, homes);
      RepeatedIsFound(j, st, done, homes, g, i);
      GoodInv(j, st);
      p := FoundTracked(j, st, done, homes, g);
    }
  }

  lemma TrackedLength(j: Job, st: State, gs: seq<Generation>, homes: seq<Path>)
    requires Tracked(j, st, gs, homes)
    ensures |homes| == |gs|
  {
  }

  lemma GoodInv(j: Job, st: State)
    requires Good(j, st)
    ensures j.site.Inv(st.disk.fs)
  {
  }

  /** Installing another target leaves the stubs of `g` as they are. */
  lemma OthersCandidates(j: Job, a: Fs, b: Fs, g: Generation, h: Generation)
    requires j.site.env.Valid() && Separate(j, [h, g]) && j.IdOf(h) != j.IdOf(g)
    requires SameStubsBut(j.site.lay, a, b, j.StubTarget(h))
    ensures j.Candidates(a, j.IdOf(g)) == j.Candidates(b, j.IdOf(g))
  {
    hide Matches, Shadows;
    assert g in [h, g] && h in [h, g];
    StubTargetIsStub(j, h);
    PatternsShareExactly(j.IdOf(h), j.IdOf(g));
    forall p | p in j.Candidates(a, j.IdOf(g)) || p in j.Candidates(b, j.IdOf(g)) ensures p in a && p in b {
      if p in a {
        CandidateIsStub(j, a, j.IdOf(g), p);
      } else {
        CandidateIsStub(j, b, j.IdOf(g), p);
      }
    }
  }

  lemma OwnCandidates(j: Job, a: Fs, b: Fs, g: Generation)
    requires SameStubsBut(j.site.lay, a, b, j.StubTarget(g)) && j.Candidates(a, j.IdOf(g)) <= {j.StubTarget(g)}
    ensures j.Candidates(b, j.IdOf(g)) <= {j.StubTarget(g)}
  {
    hide Matches;
    forall p | p in j.Candidates(b, j.IdOf(g)) ensures p == j.StubTarget(g) {
      CandidateIsStub(j, b, j.IdOf(g), p);
      assert p in a ==> p in j.Candidates(a, j.IdOf(g));
    }
  }

  lemma BootingIsInstalled(j: Job, st: State, g: Generation, p: Path)
    requires j.Valid() && Good(j, st) && j.cfg.pcrlock.None?
    requires j.Candidates(st.disk.fs, j.IdOf(g)) == {p} && j.site.Bootable(st.disk.fs, p)
    ensures j.Register(st, g).1 == Installed
  {
    hide Job.ReadInstalled, Site.StoreIntact, Site.StubsWellBuilt;
    CandidateIsStub(j, st.disk.fs, j.IdOf(g), p);
    HomeIsRead(j, st.disk.fs, g, p);
  }

  lemma LoneReinstalled(j: Job, st: State, h: Generation, g: Generation, b: Fs)
    requires j.Valid() && Good(j, st) && Separate(j, [h, g]) && Lone(j, st.disk.fs, g)
    requires j.Register(st, h).1 == NotInstalled
    requires SameStubsBut(j.site.lay, st.disk.fs, b, j.StubTarget(h)) && j.site.Improves(st.disk.fs, b)
    ensures Lone(j, b, g)
  {
    hide Job.Candidates, Job.Register, Good, Separate, Site.Inv, Site.Bootable;
    if j.IdOf(h) != j.IdOf(g) {
      OthersCandidates(j, st.disk.fs, b, g, h);
      if p :| j.Candidates(st.disk.fs, j.IdOf(g)) == {p} && j.site.Bootable(st.disk.fs, p) {
        CandidateIsStub(j, st.disk.fs, j.IdOf(g), p);
        assert j.site.Bootable(b, p);
      }
    } else {
      SameIdentity(j, h, g);
      if p :| j.cfg.pcrlock.None? && j.Candidates(st.disk.fs, j.IdOf(h)) == {p} && j.site.Bootable(st.disk.fs, p) {
        BootingIsInstalled(j, st, h, p);
      } else {
        OwnCandidates(j, st.disk.fs, b, g);
      }
    }
  }

  lemma LonePersists(j: Job, st: State, h: Generation, g: Generation)
    requires j.Valid() && Good(j, st) && st.status == Running && h.WellNamed() && j.Meant(h)
    requires Separate(j, [h, g]) && Lone(j, st.disk.fs, g)
    ensures Lone(j, j.InstallGeneration(st, h).disk.fs, g)
  {
    hide Good, Lone, Job.Reinstall, Job.ReadInstalled, Site.Improves, SameStubsBut;
    RegisterSound(j, st, h);
    var (registered, outcome) := j.Register(st, h);
    if outcome == NotInstalled {
      ReinstallAdvances(j, registered, h);
      ImprovesAtOnce(j.site, registered.disk, j.Reinstall(registered, h).disk);
      LoneReinstalled(j, st, h, g, j.Reinstall(registered, h).disk.fs);
    }
  }

  lemma ImprovesAtOnce(site: Site, a: Disk, b: Disk)
    requires Advances(site, a, b)
    ensures site.Improves(a.fs, b.fs)
  {
  }

  lemma LoneRepeatsPersist(j: Job, st: State, h: Generation, gs: seq<Generation>)
    requires j.Valid() && Good(j, st) && st.status == Running && h.WellNamed() && j.Meant(h)
    requires Separate(j, gs) && h in gs && LoneRepeats(j, st.disk.fs, gs)
    ensures LoneRepeats(j, j.InstallGeneration(st, h).disk.fs, gs)
  {
    hide Good, Lone, Job.InstallGeneration, Repeated, Shadows, Job.Valid;
    forall g | g in gs && Repeated(j, gs, g) ensures Lone(j, j.InstallGeneration(st, h).disk.fs, g) {
      assert Separate(j, [h, g]);
      LonePersists(j, st, h, g);
    }
  }

  lemma {:induction false} InstallAllTracked(j: Job, st: State, done: seq<Generation>, homes: seq<Path>,
      gs: seq<Generation>)
    returns (all: seq<Path>)
    requires j.Valid() && Good(j, st) && st.status == Running && Tracked(j, st, done, homes)
    requires Separate(j, done + gs) && LoneRepeats(j, st.disk.fs, done + gs)
    requires forall g :: g in gs ==> g.WellNamed() && j.Meant(g)
    requires j.InstallAll(st, gs).status == Running
    ensures Tracked(j, j.InstallAll(st, gs), done + gs, all)
    ensures LoneRepeats(j, j.InstallAll(st, gs).disk.fs, done + gs)
    decreases |gs|
  {
    hide Good, Tracked, Separate, LoneRepeats, Job.InstallGeneration, Job.Valid, Job.Meant, Generation.WellNamed, Lone;
    all := homes;
    if gs == [] {
      assert done + gs == done;
      NothingToInstall(j, st);
    } else {
      var g := gs[0];
      assert g in gs && forall x :: x in gs[1..] ==> x in gs;
      MoveFirst(done, gs);
      SeparatePrefix(j, done + [g], gs[1..]);
      InstallGenerationAdvances(j, st, g);
      var next := j.InstallGeneration(st, g);
      InstallAllStep(j, st, gs);
      AgainIsLone(j, st.disk.fs, done, gs);
      LoneRepeatsPersist(j, st, g, done + gs);
      var p := InstallOneTracked(j, st, done, homes, g);
      all := InstallAllTracked(j, next, done + [g], homes + [p], gs[1..]);
    }
  }

  lemma AgainIsLone(j: Job, fs: Fs, done: seq<Generation>, gs: seq<Generation>)
    requires gs != [] && LoneRepeats(j, fs, done + gs)
    ensures !Fresh(j, done, gs[0]) ==> Lone(j, fs, gs[0])
    ensures gs[0] in done + gs
  {
    hide Lone;
    var all, n := done + gs, |done|;
    assert all[n] == gs[0];
    if i :| 0 <= i < n && j.IdOf(done[i]) == j.IdOf(gs[0]) {
      assert all[i] == done[i];
      assert Repeated(j, all, gs[0]);
    }
  }

  lemma NothingToInstall(j: Job, st: State)
    ensures j.InstallAll(st, []) == st
  {
  }

  /** At the end, targets of the same identity share one stub. */
  lemma RepeatsShareHome(j: Job, st: State, gs: seq<Generation>, homes: seq<Path>)
    requires Tracked(j, st, gs, homes) && LoneRepeats(j, st.disk.fs, gs)
    ensures |homes| == |gs| && OneHome(j, gs, homes)
  {
    hide Tracked, Lone, Job.IdOf;
    TrackedLength(j, st, gs, homes);
    forall i, k | 0 <= i < |gs| && 0 <= k < |gs| && j.IdOf(gs[i]) == j.IdOf(gs[k]) ensures homes[i] == homes[k] {
      if i != k {
        assert Repeated(j, gs, gs[i]);
        BothFound(j, st, gs, homes, i, k);
      }
    }
  }

  lemma BothFound(j: Job, st: State, gs: seq<Generation>, homes: seq<Path>, i: nat, k: nat)
    requires Tracked(j, st, gs, homes) && i < |gs| && k < |gs|
    requires j.IdOf(gs[i]) == j.IdOf(gs[k]) && Lone(j, st.disk.fs, gs[i])
    ensures homes[i] == homes[k]
  {
    hide Job.Candidates, Site.Bootable;
    assert Home(j, st.disk.fs, st.roots, gs[i], homes[i]) && Home(j, st.disk.fs, st.roots, gs[k], homes[k]);
    assert homes[i] in j.Candidates(st.disk.fs, j.IdOf(gs[i])) && homes[k] in j.Candidates(st.disk.fs, j.IdOf(gs[i]));
  }

  lemma MoveFirst<T>(a: seq<T>, b: seq<T>)
    requires b != []
    ensures a + b == (a + [b[0]]) + b[1..]
  {
  }

  lemma InstallAllStep(j: Job, st: State, gs: seq<Generation>)
    requires gs != [] && st.status == Running
    ensures j.InstallAll(st, gs) == j.InstallAll(j.InstallGeneration(st, gs[0]), gs[1..])
    ensures j.InstallAll(st, gs).status == Running ==> j.InstallGeneration(st, gs[0]).status == Running
  {
  }

  lemma SeparatePrefix(j: Job, a: seq<Generation>, b: seq<Generation>)
    requires Separate(j, a + b)
    ensures Separate(j, a)
  {
    hide Shadows;
    assert forall g :: g in a ==> g in a + b;
  }
}
