/** Orders that make no difference to a second run, and one that does. */
module RunOrder {
  import opened FileSystem
  import opened EfiPaths
  import opened StubNames
  import opened Generations
  import opened GarbageCollector
  import opened Esp
  import opened Installation
  import opened InstallSafety
  import opened RunFrame
  import opened Idempotence
  import opened SecondRun
  import Sorting
  import BootSafety

  // ---------------------------------------------------------------------------------------------
  // Specialisations are kept in a hash map

  /** The same link, read by another process: the specialisations come in any order, here and further down. */
  predicate Reshuffled(j: Job, a: GenerationLink, b: GenerationLink) {
    && a.version == b.version && (a.generation.Some? <==> b.generation.Some?)
    && (a.generation.Some? ==> GroupOf(j, a.generation.value) == GroupOf(j, b.generation.value))
  }

  /** The stub identities of a generation and its specialisations. */
  function GroupOf(j: Job, g: Generation): set<StubId> {
    Identities(j, [g] + g.specialisations)
  }

  predicate AllReshuffled(j: Job, a: seq<GenerationLink>, b: seq<GenerationLink>) {
    |a| == |b| && forall i :: 0 <= i < |a| ==> Reshuffled(j, a[i], b[i])
  }

  /** A specialisation moved to another place is still the same generation. */
  lemma PermutedIsReshuffled(j: Job, a: GenerationLink, b: GenerationLink)
    requires a.version == b.version && a.generation.Some? && b.generation.Some?
    requires b.generation.value == a.generation.value.(specialisations := b.generation.value.specialisations)
    requires multiset(a.generation.value.specialisations) == multiset(b.generation.value.specialisations)
    ensures Reshuffled(j, a, b)
  {
    var g, h := a.generation.value, b.generation.value;
    assert j.IdOf(g) == j.IdOf(h);
    forall x ensures x in g.specialisations <==> x in h.specialisations {
      assert x in multiset(g.specialisations) <==> x in multiset(h.specialisations);
    }
    GroupIs(j, g);
    GroupIs(j, h);
    assert Identities(j, g.specialisations) == Identities(j, h.specialisations);
  }

  lemma GroupIs(j: Job, g: Generation)
    ensures GroupOf(j, g) == {j.IdOf(g)} + Identities(j, g.specialisations)
  {
    IdentitiesConcat(j, [g], g.specialisations);
  }

  lemma IdentitiesConcat(j: Job, a: seq<Generation>, b: seq<Generation>)
    ensures Identities(j, a + b) == Identities(j, a) + Identities(j, b)
  {
    hide Job.IdOf;
    forall g | g in a || g in b ensures g in a + b {
    }
  }

  lemma {:induction false} InsertRelated(j: Job, x: GenerationLink, y: GenerationLink, s: seq<GenerationLink>,
      t: seq<GenerationLink>)
    requires Reshuffled(j, x, y) && AllReshuffled(j, s, t)
    ensures AllReshuffled(j, Sorting.Insert(VersionOrder, x, s), Sorting.Insert(VersionOrder, y, t))
    decreases |s|
  {
    hide GroupOf;
    if s != [] && !VersionOrder(x, s[0]) {
      InsertRelated(j, x, y, s[1..], t[1..]);
    }
  }

  lemma {:induction false} SortRelated(j: Job, s: seq<GenerationLink>, t: seq<GenerationLink>)
    requires AllReshuffled(j, s, t)
    ensures AllReshuffled(j, Sorting.Sort(VersionOrder, s), Sorting.Sort(VersionOrder, t))
    decreases |s|
  {
    hide Reshuffled;
    if s != [] {
      SortRelated(j, s[1..], t[1..]);
      InsertRelated(j, s[0], t[0], Sorting.Sort(VersionOrder, s[1..]), Sorting.Sort(VersionOrder, t[1..]));
    }
  }

  lemma {:induction false} TargetsRelated(j: Job, s: seq<GenerationLink>, t: seq<GenerationLink>)
    requires AllReshuffled(j, s, t)
    ensures Identities(j, Targets(Readable(s))) == Identities(j, Targets(Readable(t)))
    decreases |s|
  {
    hide GroupOf, Identities, Targets, Readable;
    if s != [] {
      TargetsRelated(j, s[1..], t[1..]);
      FirstTargets(j, s);
      FirstTargets(j, t);
    } else {
      assert s == t;
    }
  }

  lemma FirstTargets(j: Job, links: seq<GenerationLink>)
    requires links != []
    ensures Identities(j, Targets(Readable(links))) ==
      (if links[0].generation.Some? then GroupOf(j, links[0].generation.value) else {})
      + Identities(j, Targets(Readable(links[1..])))
  {
    hide Job.IdOf, Identities;
    var rest := Readable(links[1..]);
    if links[0].generation.Some? {
      var g := links[0].generation.value;
      assert Readable(links)[1..] == rest;
      assert Targets(Readable(links)) == [g] + g.specialisations + Targets(rest);
      IdentitiesConcat(j, [g] + g.specialisations, Targets(rest));
    } else {
      assert Readable(links) == rest;
    }
  }

  lemma ReshuffledInputs(j: Job, k: Job)
    requires k.site == j.site && k.cfg == j.cfg.(links := k.cfg.links) && AllReshuffled(j, j.cfg.links, k.cfg.links)
    ensures SameInputs(j, k)
  {
    hide Reshuffled, Sorting.Sort, Targets, Readable;
    SortRelated(j, j.cfg.links, k.cfg.links);
    TargetsRelated(j, j.Retained(), k.Retained());
    assert Identities(k, k.AllTargets()) == Identities(j, k.AllTargets());
  }

  /** A second process that visits the specialisations in its own order does nothing either. */
  lemma SecondProcessDoesNothing(j: Job, k: Job, fs: Fs)
    requires j.Valid() && k.Valid() && Startable(j, fs) && Separate(j, j.AllTargets())
    requires k.site == j.site && k.cfg == j.cfg.(links := k.cfg.links) && AllReshuffled(j, j.cfg.links, k.cfg.links)
    requires j.site.env.bootVersion(j.cfg.systemdBoot).Some?
    requires j.Install(fs).status == Running && BrokenVersions(j.Retained()) == {}
    ensures var first := j.Install(fs).disk.fs;
      k.Install(first).status == Running && k.Install(first).disk == Disk(first, [])
  {
    hide Job.Install, Separate, Startable, AllReshuffled, SameInputs, Job.Valid, Job.Retained;
    ReshuffledInputs(j, k);
    SecondRunDoesNothing(j, k, fs);
  }

  // ---------------------------------------------------------------------------------------------
  // A target that is given twice

  /** A stub of `g` that lost its kernel or initrd, that installing `g` does not replace, and that is listed first. */
  ghost predicate Stray(j: Job, fs: Fs, g: Generation, p: Path) {
    && g.initrd.Some? && p in j.Candidates(fs, j.IdOf(g)) && p != j.StubTarget(g) && !j.site.Bootable(fs, p)
    && fs[p].File? && j.site.WellBuilt(fs[p].content)
    && j.site.KernelOf(fs[p].content) == j.StoreTarget(g.kernel, j.KernelLabel(g))
    && j.site.InitrdOf(fs[p].content) == j.StoreTarget(g.initrd.value, j.InitrdLabel(g))
    && forall a, names :: p in names ==> j.site.env.firstListed(a, names) == p
  }

  lemma StrayIsUnread(j: Job, fs: Fs, g: Generation, p: Path)
    requires j.Valid() && j.site.Inv(fs) && Stray(j, fs, g, p)
    ensures j.ReadInstalled(fs, j.IdOf(g)) == Unreadable
  {
    hide Matches, Site.StoreIntact;
    CandidateIsStub(j, fs, j.IdOf(g), p);
    BootableIffPresent(j.site, fs, p);
    assert j.site.env.firstListed(fs, j.Candidates(fs, j.IdOf(g))) == p;
  }

  /** Once it boots, a stub that is listed first is the one that is found. */
  lemma ListedIsFound(j: Job, st: State, g: Generation, p: Path)
    requires j.Valid() && Good(j, st) && j.cfg.pcrlock.None? && j.site.Bootable(st.disk.fs, p)
    requires p in j.Candidates(st.disk.fs, j.IdOf(g))
    requires forall a, names :: p in names ==> j.site.env.firstListed(a, names) == p
    ensures j.site.lay.IsStub(p) && p in st.disk.fs && st.disk.fs[p].File? && j.site.WellBuilt(st.disk.fs[p].content)
    ensures j.InstallGeneration(st, g) == st.(roots := st.roots + Claim(j, st.disk.fs, g, p))
  {
    hide Matches, Site.StoreIntact;
    var fs := st.disk.fs;
    CandidateIsStub(j, fs, j.IdOf(g), p);
    BootableIffPresent(j.site, fs, p);
    assert j.site.env.firstListed(fs, j.Candidates(fs, j.IdOf(g))) == p;
    FoundIsInstalled(j, st, g);
  }

  lemma TargetContent(j: Job, st: State, g: Generation)
    requires j.Valid() && g.WellNamed() && j.Reinstall(st, g).status == Running
    ensures g.initrd.Some? && j.StubImage(g, g.initrd.value).Some?
    ensures var fs := j.Reinstall(st, g).disk.fs;
      j.StubTarget(g) in fs && fs[j.StubTarget(g)] == File(j.cfg.sign(j.StubImage(g, g.initrd.value).value))
  {
    hide Job.AtomicWrite, Job.StubImage;
    var stored := j.InstallStored(j.InstallStored(st, g.kernel, j.KernelLabel(g)), g.initrd.value, j.InitrdLabel(g));
    var image := j.StubImage(g, g.initrd.value).value;
    AtomicWriteEffect(j, j.MeasureImage(stored, g, image).disk, j.cfg.sign(image), j.StubTarget(g), []);
  }

  /** Installing the target afresh gives the stray stub back what it had lost. */
  lemma StrayRevives(j: Job, st: State, g: Generation, p: Path)
    requires j.Valid() && Good(j, st) && g.WellNamed() && j.Meant(g) && st.status == Running
    requires Stray(j, st.disk.fs, g, p) && j.Reinstall(st, g).status == Running
    ensures var r := j.Reinstall(st, g);
      && Good(j, r) && j.StubTarget(g) in r.roots && j.StubTarget(g) in r.disk.fs
      && p in j.Candidates(r.disk.fs, j.IdOf(g)) && j.site.Bootable(r.disk.fs, p)
  {
    hide Matches, Job.Reinstall, Site.StoreIntact, Job.StubImage, Job.StoreTarget, Job.Valid;
    var r := j.Reinstall(st, g);
    ReinstallAdvances(j, st, g);
    TargetContent(j, st, g);
    StubImageWellBuilt(j, g, g.initrd.value);
    StubTargetIsStub(j, g);
    CandidateIsStub(j, st.disk.fs, j.IdOf(g), p);
    BootableIffPresent(j.site, r.disk.fs, j.StubTarget(g));
    BootableIffPresent(j.site, r.disk.fs, p);
  }

  /** Both stubs are there, both are rooted, and the stray one boots. */
  ghost predicate BothRooted(j: Job, st: State, g: Generation, p: Path) {
    && Good(j, st) && st.status == Running && p in st.roots && j.StubTarget(g) in st.roots
    && j.StubTarget(g) in st.disk.fs && p in j.Candidates(st.disk.fs, j.IdOf(g)) && j.site.Bootable(st.disk.fs, p)
  }

  lemma TwiceInstalled(j: Job, st: State, g: Generation, p: Path)
    requires j.Valid() && Good(j, st) && g.WellNamed() && j.Meant(g) && st.status == Running && j.cfg.pcrlock.None?
    requires Stray(j, st.disk.fs, g, p) && j.InstallAll(st, [g, g]).status == Running
    ensures BothRooted(j, j.InstallAll(st, [g, g]), g, p)
  {
    hide Good, Job.Valid, Job.InstallGeneration, Job.Reinstall, Job.InstallAll, Site.Bootable, Job.Candidates,
      Job.Meant, Job.StubTarget, Generation.WellNamed;
    assert [g, g][1..] == [g] && [g][1..] == [];
    StrayReinstalls(j, st, g, p);
    var r := j.Reinstall(st, g);
    InstallAllStep(j, st, [g, g]);
    StrayRevives(j, st, g, p);
    InstallAllStep(j, r, [g]);
    ListedIsFound(j, r, g, p);
    InstallGenerationAdvances(j, r, g);
    NothingToInstall(j, j.InstallGeneration(r, g));
    assert p in Claim(j, r.disk.fs, g, p);
  }

  lemma StrayReinstalls(j: Job, st: State, g: Generation, p: Path)
    requires j.Valid() && Good(j, st) && Stray(j, st.disk.fs, g, p)
    ensures j.InstallGeneration(st, g) == j.Reinstall(st, g)
  {
    hide Good, Job.Valid, Job.Reinstall, Stray, Job.ReadInstalled;
    StrayInv(j, st);
    StrayIsUnread(j, st.disk.fs, g, p);
  }

  lemma StrayInv(j: Job, st: State)
    requires Good(j, st)
    ensures j.site.Inv(st.disk.fs)
  {
  }

  lemma BootedKeepsBoth(j: Job, st: State, g: Generation, p: Path)
    requires j.Valid() && BothRooted(j, st, g, p) && j.InstallSystemdBoot(st).status == Running
    ensures BothRooted(j, j.InstallSystemdBoot(st), g, p)
  {
    hide Matches, Site.StoreIntact, Site.StubsWellBuilt, RootsClosed, Job.InstallSystemdBoot, Job.Valid;
    InstallSystemdBootAdvances(j, st);
    StubTargetIsStub(j, g);
    CandidateIsStub(j, st.disk.fs, j.IdOf(g), p);
  }

  lemma SweptKeepsBoth(j: Job, st: State, g: Generation, p: Path)
    requires j.Valid() && BothRooted(j, st, g, p) && j.InitialRoots() <= st.roots
    ensures var after := j.CollectGarbage(st.disk, st.roots).fs;
      && j.site.Inv(after) && j.StubTarget(g) in after
      && p in j.Candidates(after, j.IdOf(g)) && j.site.Bootable(after, p)
  {
    hide Matches, Site.StoreIntact, Site.StubsWellBuilt, RootsClosed, Job.CollectGarbage, Job.Valid;
    CollectGarbageThins(j, st.disk, st.roots);
    StubTargetIsStub(j, g);
    CandidateIsStub(j, st.disk.fs, j.IdOf(g), p);
    ThinsKeepsBootable(j.site, st.roots, st.disk.fs, j.CollectGarbage(st.disk, st.roots).fs, p);
  }

  /** On such an ESP the listed stub is all that a run finds and roots. */
  lemma OnlyListedRooted(j: Job, fs: Fs, g: Generation, p: Path)
    requires j.Valid() && j.site.Inv(fs) && j.cfg.pcrlock.None? && j.AllTargets() == [g, g] && BootSettled(j, fs)
    requires p in j.Candidates(fs, j.IdOf(g)) && j.site.Bootable(fs, p) && Readable(j.Retained()) != []
    requires forall a, names :: p in names ==> j.site.env.firstListed(a, names) == p
    ensures j.BeforeSweep(fs) == j.Begin(fs).(roots := j.InitialRoots() + Claim(j, fs, g, p))
    ensures j.site.lay.IsStub(p) && fs[p].File? && j.site.WellBuilt(fs[p].content)
  {
    hide Good, Job.Valid, Job.InstallGeneration, Job.InstallSystemdBoot, BootSettled, Claim, Job.Candidates, Readable,
      Job.AllTargets, Job.InitialRoots, Site.Bootable;
    assert [g, g][1..] == [g] && [g][1..] == [];
    var st := j.Begin(fs);
    BootSafety.BeginGood(j, fs);
    ListedIsFound(j, st, g, p);
    var a := j.InstallGeneration(st, g);
    assert Good(j, a) by {
      assert g in j.AllTargets();
      TargetsAreMeant(j, g);
      InstallGenerationAdvances(j, st, g);
    }
    ListedIsFound(j, a, g, p);
    var b := j.InstallGeneration(a, g);
    assert a.roots + Claim(j, fs, g, p) == a.roots;
    InstallAllStep(j, st, [g, g]);
    InstallAllStep(j, a, [g]);
    NothingToInstall(j, b);
    SettledIdle(j, b);
  }

  lemma TargetsAreMeant(j: Job, g: Generation)
    requires j.Valid() && g in j.AllTargets()
    ensures g.WellNamed() && j.Meant(g)
  {
  }

  lemma TargetIsGarbage(j: Job, disk: Disk, roots: set<Path>, g: Generation)
    requires j.Valid() && j.StubTarget(g) !in roots
    ensures j.StubTarget(g) !in j.CollectGarbage(disk, roots).fs
  {
    hide Job.CollectGarbage, Job.Valid, StubName;
    CollectGarbageCleans(j, disk, roots) by {
      EnvIsValid(j);
    }
    var to := j.StubTarget(g);
    StubTargetIsStub(j, g);
    assert IsOurs(to) && IsGarbage(roots, IsOurs, to);
    var after := j.CollectGarbage(disk, roots).fs;
    assert to in after ==> to in GarbageIn(after, roots, IsOurs, j.site.lay.Linux());
  }

  lemma EnvIsValid(j: Job)
    requires j.Valid()
    ensures j.site.env.Valid()
  {
  }

  lemma UnclaimedTarget(j: Job, fs: Fs, g: Generation, p: Path)
    requires j.Valid() && j.cfg.pcrlock.None? && p != j.StubTarget(g)
    requires p in fs && fs[p].File? && j.site.WellBuilt(fs[p].content)
    ensures j.StubTarget(g) !in j.InitialRoots() + Claim(j, fs, g, p)
  {
    var to := j.StubTarget(g);
    StubTargetIsStub(j, g);
    StubsAreNotStored(j.site.lay, to);
    if to in j.InitialRoots() {
      InitialRootsNoStub(j, to);
    }
  }

  lemma FirstRunKeepsBoth(j: Job, fs: Fs, g: Generation, p: Path)
    requires j.Valid() && j.site.Inv(fs) && j.cfg.pcrlock.None? && j.AllTargets() == [g, g] && Stray(j, fs, g, p)
    requires j.site.env.bootVersion(j.cfg.systemdBoot).Some?
    requires j.Install(fs).status == Running && BrokenVersions(j.Retained()) == {}
    ensures var first := j.Install(fs).disk.fs;
      && j.site.Inv(first) && j.StubTarget(g) in first && BootSettled(j, first) && Readable(j.Retained()) != []
      && p in j.Candidates(first, j.IdOf(g)) && j.site.Bootable(first, p)
  {
    hide Job.InstallAll, Job.InstallSystemdBoot, Good, BothRooted, BootSettled, Stray, Readable, Job.AllTargets,
      Job.Retained, Job.Valid, Job.CollectGarbage, Frame, Site.Inv;
    var st, before := j.Begin(fs), j.BeforeSweep(fs);
    assert g in j.AllTargets();
    TargetsAreMeant(j, g);
    BootSafety.BeginGood(j, fs);
    var installed := j.InstallAll(st, [g, g]);
    TwiceInstalled(j, st, g, p);
    BootedKeepsBoth(j, installed, g, p);
    RootedRuns(j, installed, g, p);
    InstallSystemdBootSettles(j, installed);
    BrokenStays(j, fs);
    BeforeSweepFrame(j, fs);
    SweptKeepsBoth(j, before, g, p);
    assert j.site.lay.Linux() in j.InitialRoots();
    CollectGarbageFrame(j, before.disk, before.roots);
    SettledSurvivesSweep(j, before.disk.fs, j.Install(fs).disk.fs);
  }

  lemma RootedRuns(j: Job, st: State, g: Generation, p: Path)
    requires BothRooted(j, st, g, p)
    ensures st.status == Running
  {
  }

  /** Without Measured Boot, a target that is given twice can make the second run delete what the first installed:
      the first run roots both the fresh stub and the stray one it revived, the second finds only the latter. */
  lemma RepeatedTargetNotIdle(j: Job, fs: Fs, g: Generation, p: Path)
    requires j.Valid() && j.site.Inv(fs) && j.cfg.pcrlock.None? && j.AllTargets() == [g, g] && Stray(j, fs, g, p)
    requires j.site.env.bootVersion(j.cfg.systemdBoot).Some?
    requires j.Install(fs).status == Running && BrokenVersions(j.Retained()) == {}
    ensures var first := j.Install(fs).disk.fs;
      j.StubTarget(g) in first && j.Install(first).status == Running && j.StubTarget(g) !in j.Install(first).disk.fs
    ensures !Lone(j, fs, g) && Repeated(j, j.AllTargets(), g)
  {
    hide Job.Valid, Job.BeforeSweep, Job.CollectGarbage, Job.StubTarget, Claim, Readable, BootSettled, Job.InitialRoots,
      Job.AllTargets, Job.Retained, Site.Inv, Stray, Lone, Repeated, Job.Candidates;
    var first := j.Install(fs).disk.fs;
    FirstRunKeepsBoth(j, fs, g, p);
    StrayIsListed(j, fs, g, p);
    OnlyListedRooted(j, first, g, p);
    UnclaimedTarget(j, first, g, p);
    TargetIsGarbage(j, Disk(first, []), j.InitialRoots() + Claim(j, first, g, p), g);
    StrayIsNotLone(j, fs, g, p);
  }

  lemma StrayIsListed(j: Job, fs: Fs, g: Generation, p: Path)
    requires Stray(j, fs, g, p)
    ensures p != j.StubTarget(g) && forall a, names :: p in names ==> j.site.env.firstListed(a, names) == p
  {
  }

  lemma StrayIsNotLone(j: Job, fs: Fs, g: Generation, p: Path)
    requires j.AllTargets() == [g, g] && Stray(j, fs, g, p)
    ensures !Lone(j, fs, g) && Repeated(j, j.AllTargets(), g)
  {
    hide Job.AllTargets, Job.Candidates, Site.Bootable, Site.WellBuilt, Job.StoreTarget;
    var gs := j.AllTargets();
    assert j.IdOf(gs[0]) == j.IdOf(g) && j.IdOf(gs[1]) == j.IdOf(g);
  }
}
