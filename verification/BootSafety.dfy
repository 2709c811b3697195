/** The main guarantees: over every step of a run, and over every history of an ESP. */
module BootSafety {
  import opened FileSystem
  import opened EfiPaths
  import opened StubNames
  import opened Generations
  import opened GarbageCollector
  import opened Esp
  import opened Installation
  import opened InstallSafety

  lemma BeginGood(j: Job, fs: Fs)
    requires j.Valid() && j.site.Inv(fs)
    ensures Good(j, j.Begin(fs))
  {
    var lay := j.site.lay;
    forall p | p in j.InitialRoots() ensures !lay.IsStub(p) {
      if j.cfg.pcrlock.Some? && p in {j.cfg.pcrlock.value, j.LanzabooteDir()} {
        MeasurementQuiet(j, p, p);
      } else {
        BootFilesQuiet(lay, lay.Fallback());
        BootFilesQuiet(lay, lay.SystemdBoot());
        BootFilesQuiet(lay, lay.LoaderConf());
      }
    }
  }

  /** Up to the sweep, every state is an improvement on the first. If the run gets that far, every
      retained generation and specialisation is served. */
  lemma BeforeSweepSafe(j: Job, fs: Fs)
    requires j.Valid() && j.site.Inv(fs)
    ensures var st := j.BeforeSweep(fs);
      && Advances(j.site, Disk(fs, []), st.disk) && Good(j, st)
      && j.InitialRoots() <= st.roots && st.brokenGens == BrokenVersions(j.Retained())
      && (st.status == Running ==> forall g :: g in j.AllTargets() ==> Served(j, st, g))
  {
    var st := j.Begin(fs);
    BeginGood(j, fs);
    SameBootImproves(j.site, fs, fs);
    if Readable(j.Retained()) != [] {
      InstallAllAdvances(j, st, j.AllTargets());
      var installed := j.InstallAll(st, j.AllTargets());
      if installed.status == Running {
        InstallSystemdBootAdvances(j, installed);
        var booted := j.InstallSystemdBoot(installed);
        AdvancesTransitive(j.site, st.disk, installed.disk, booted.disk);
        forall g | g in j.AllTargets() ensures Served(j, booted, g) {
          ServedPersists(j, installed, booted, g);
        }
      }
    }
  }

  /** Safety at every single file-system operation of a run, sweep included: no stub that booted before
      the run stops booting until the sweep begins, no stub carries its final name before its kernel and
      initrd are in place, and the sweep breaks no rooted stub in any of its states. */
  lemma EveryStepSafe(j: Job, fs: Fs, i: nat)
    requires j.Valid() && j.site.Inv(fs)
    requires i < |j.Install(fs).disk.trace|
    ensures var before, now := j.BeforeSweep(fs), j.Install(fs).disk.trace[i];
      && j.site.Inv(now)
      && (i < |before.disk.trace| ==> j.site.Improves(fs, now))
      && (i >= |before.disk.trace| ==> RootedBoot(j, before, now))
  {
    var before := j.BeforeSweep(fs);
    BeforeSweepSafe(j, fs);
    CollectGarbageThins(j, before.disk, before.roots);
    var trace := j.Install(fs).disk.trace;
    if i >= |before.disk.trace| {
      assert Thins(j.site, before.roots, before.disk.fs, trace[i]);
      ThinnedIsSafe(j, fs, trace[i]);
    } else {
      assert trace[i] == before.disk.trace[i];
    }
  }

  /** The rooted stubs that booted when the sweep began. */
  ghost predicate RootedBoot(j: Job, before: State, now: Fs) {
    forall p | j.site.lay.IsStub(p) && p in before.roots && j.site.Bootable(before.disk.fs, p) ::
      j.site.Bootable(now, p)
  }

  lemma ThinnedIsSafe(j: Job, fs: Fs, now: Fs)
    requires j.Valid() && j.site.Inv(fs)
    requires var before := j.BeforeSweep(fs); Thins(j.site, before.roots, before.disk.fs, now)
    ensures j.site.Inv(now) && RootedBoot(j, j.BeforeSweep(fs), now)
  {
    hide Job.BeforeSweep, Thins, Site.Inv, RootsClosed, Site.Bootable, Job.Valid, Advances;
    var before := j.BeforeSweep(fs);
    BeforeSweepSafe(j, fs);
    ThinsIsPart(j.site, before.roots, before.disk.fs, now);
    InvUnderDeletion(j.site, before.disk.fs, now);
    forall p | j.site.lay.IsStub(p) && p in before.roots && j.site.Bootable(before.disk.fs, p)
      ensures j.site.Bootable(now, p)
    {
      ThinsKeepsBootable(j.site, before.roots, before.disk.fs, now, p);
    }
  }

  lemma ThinsIsPart(site: Site, roots: set<Path>, a: Fs, b: Fs)
    requires Thins(site, roots, a, b)
    ensures forall p :: p in b ==> p in a && b[p] == a[p]
  {
  }

  lemma StepThins(j: Job, fs: Fs, i: nat, x: Fs)
    requires j.Valid() && j.site.Inv(fs)
    requires var before, trace := j.BeforeSweep(fs), j.Install(fs).disk.trace;
      |before.disk.trace| <= i < |trace| && Between(StateBefore(before.disk, trace, i), trace[i], x)
    ensures var before := j.BeforeSweep(fs); Thins(j.site, before.roots, before.disk.fs, x)
  {
    hide Job.BeforeSweep, Job.CollectGarbage, Job.Valid, Thins, Between, Site.Inv, Good, Advances;
    var before, trace := j.BeforeSweep(fs), j.Install(fs).disk.trace;
    BeforeSweepSafe(j, fs);
    CollectGarbageThins(j, before.disk, before.roots);
    NothingThins(j.site, before.roots, before.disk.fs);
    ThinsBetween(j.site, before.roots, before.disk.fs, StateBefore(before.disk, trace, i), trace[i], x);
  }

  lemma NothingThins(site: Site, roots: set<Path>, fs: Fs)
    ensures Thins(site, roots, fs, fs)
  {
  }

  /** The removal of a directory is not atomic: the sweep is safe in the middle of it as well. */
  lemma EveryRemovalSafe(j: Job, fs: Fs, i: nat, x: Fs)
    requires j.Valid() && j.site.Inv(fs)
    requires var before, trace := j.BeforeSweep(fs), j.Install(fs).disk.trace;
      |before.disk.trace| <= i < |trace| && Between(StateBefore(before.disk, trace, i), trace[i], x)
    ensures j.site.Inv(x) && RootedBoot(j, j.BeforeSweep(fs), x)
  {
    hide Job.BeforeSweep, Job.Install, Thins, Between, Site.Inv, RootedBoot;
    StepThins(j, fs, i, x);
    ThinnedIsSafe(j, fs, x);
  }

  lemma InstallThins(j: Job, fs: Fs)
    requires j.Valid() && j.site.Inv(fs)
    ensures Thins(j.site, j.BeforeSweep(fs).roots, j.BeforeSweep(fs).disk.fs, j.Install(fs).disk.fs)
  {
    var before := j.BeforeSweep(fs);
    BeforeSweepSafe(j, fs);
    CollectGarbageThins(j, before.disk, before.roots);
  }

  lemma RunKeepsInv(j: Job, fs: Fs)
    requires j.Valid() && j.site.Inv(fs)
    ensures j.site.Inv(j.Install(fs).disk.fs)
  {
    BeforeSweepSafe(j, fs);
    InstallThins(j, fs);
    InvUnderDeletion(j.site, j.BeforeSweep(fs).disk.fs, j.Install(fs).disk.fs);
  }

  /** Some stub that the pattern of `id` finds passes the checks of the UEFI stub. */
  ghost predicate HasBootable(site: Site, fs: Fs, id: StubId) {
    exists name :: Matches(id, name) && site.Bootable(fs, site.lay.Linux() + [name])
  }

  lemma EntryPath(lay: Layout, p: Path)
    requires |p| == |lay.esp| + 3 && lay.Linux() <= p
    ensures p == lay.Linux() + [p[|lay.esp| + 2]]
  {
  }

  lemma ServedSurvives(j: Job, st: State, after: Fs, g: Generation)
    requires Good(j, st) && Served(j, st, g) && Thins(j.site, st.roots, st.disk.fs, after)
    ensures HasBootable(j.site, after, j.IdOf(g))
  {
    var p :| p in j.Candidates(st.disk.fs, j.IdOf(g)) && p in st.roots && j.site.Bootable(st.disk.fs, p);
    CandidateIsStub(j, st.disk.fs, j.IdOf(g), p);
    var name := p[|j.site.lay.esp| + 2];
    assert Matches(j.IdOf(g), name);
    ThinsKeepsBootable(j.site, st.roots, st.disk.fs, after, p);
    EntryPath(j.site.lay, p);
  }

  /** A completed run leaves a bootable stub for every retained generation and specialisation. */
  lemma RetainedBoot(j: Job, fs: Fs, g: Generation)
    requires j.Valid() && j.site.Inv(fs)
    requires j.Install(fs).status == Running && g in j.AllTargets()
    ensures HasBootable(j.site, j.Install(fs).disk.fs, j.IdOf(g))
  {
    BeforeSweepSafe(j, fs);
    InstallThins(j, fs);
    ServedSurvives(j, j.BeforeSweep(fs), j.Install(fs).disk.fs, g);
  }

  // ---------------------------------------------------------------------------------------------
  // Histories

  /** What happens to an ESP over its life: completed runs, runs cut off after any operation or in the middle of a
      removal that had only `left` still to do, and boot counters being renamed by the boot loader or by
      `systemd-bless-boot`. */
  datatype Event =
    | Installs(cfg: Config)
    | CutOff(cfg: Config, step: nat)
    | CutInside(cfg: Config, step: nat, left: set<Path>)
    | Counts(base: string, before: Counter, after: Counter)

  function CountedName(base: string, counter: Counter): string {
    base + counter.Text() + ".efi"
  }

  function HalfRemoved(before: Fs, after: Fs, left: set<Path>): Fs {
    map p | p in before && (p in after || p in left) :: before[p]
  }

  function Apply(site: Site, fs: Fs, e: Event): Fs {
    match e
    case Installs(cfg) => Job(site, cfg).Install(fs).disk.fs
    case CutOff(cfg, step) =>
      var trace := Job(site, cfg).Install(fs).disk.trace;
      if step < |trace| then trace[step] else fs
    case CutInside(cfg, step, left) =>
      var disk, trace := Job(site, cfg).BeforeSweep(fs).disk, Job(site, cfg).Install(fs).disk.trace;
      if |disk.trace| <= step < |trace| then HalfRemoved(StateBefore(disk, trace, step), trace[step], left) else fs
    case Counts(base, before, after) =>
      var from, to := site.lay.Linux() + [CountedName(base, before)], site.lay.Linux() + [CountedName(base, after)];
      if from in fs && to !in fs then Disk(fs, []).Rename(from, to).fs else fs
  }

  function History(site: Site, fs: Fs, events: seq<Event>): Fs {
    if events == [] then fs
    else Apply(site, History(site, fs, events[..|events| - 1]), events[|events| - 1])
  }

  predicate EndsInCounter(base: string) {
    exists k :: 0 <= k < |base| && IsCounterText(base[k..])
  }

  /** The counter is all of the counter, and its numbers have fewer digits than a hash. */
  ghost predicate EventValid(site: Site, e: Event) {
    match e
    case Installs(cfg) => Job(site, cfg).Valid()
    case CutOff(cfg, _) => Job(site, cfg).Valid()
    case CutInside(cfg, _, _) => Job(site, cfg).Valid()
    case Counts(base, before, after) =>
      && !EndsInCounter(base)
      && before.Valid() && after.Valid() && !before.NoCounter?
      && (before.LeftDone? ==> |before.done| < HASH_LENGTH)
  }

  lemma CountedStub(base: string, counter: Counter)
    ensures IsStubName(CountedName(base, counter)) <==> StartsWith(base, "nixos-")
  {
    var rest := counter.Text() + ".efi";
    var name := CountedName(base, counter);
    assert name == base + rest && (rest[0] == '+' || rest[0] == '.');
    assert EndsWith(name, ".efi");
    if |base| < 6 {
      assert name[|base|] == rest[0] != "nixos-"[|base|];
    }
  }

  /** After a counter has changed, the name still stands for the same generation. */
  lemma CountedMatches(id: StubId, base: string, before: Counter, after: Counter)
    requires IsHashString(id.hash) && before.Valid() && after.Valid() && !before.NoCounter?
    requires before.LeftDone? ==> |before.done| < HASH_LENGTH
    requires Matches(id, CountedName(base, before))
    ensures Matches(id, CountedName(base, after))
  {
    var name := CountedName(base, before);
    MatchesExactly(id, name);
    var c :| MatchesWith(id, c, name);
    assert StubPrefix(id) + c.Text() == name[..|name| - 4] == base + before.Text();
    CounterFound(id, c, base, before);
    assert MatchesWith(id, after, CountedName(base, after));
    MatchesExactly(id, CountedName(base, after));
  }

  /** And only for that one. */
  lemma CountedLabel(site: Site, base: string, before: Counter, after: Counter, stub: Bytes)
    requires site.Labelled(CountedName(base, before), stub) && EventValid(site, Counts(base, before, after))
    ensures site.Labelled(CountedName(base, after), stub)
  {
    if site.meaning.Some? {
      forall id | IsProper(id) && Matches(id, CountedName(base, after)) ensures Matches(id, CountedName(base, before)) {
        ReverseCounted(id, base, before, after);
      }
    }
  }

  lemma ReverseCounted(id: StubId, base: string, before: Counter, after: Counter)
    requires IsProper(id) && before.Valid() && after.Valid() && !EndsInCounter(base)
    requires Matches(id, CountedName(base, after))
    ensures Matches(id, CountedName(base, before))
  {
    var name := CountedName(base, after);
    MatchesExactly(id, name);
    var c :| MatchesWith(id, c, name);
    assert StubPrefix(id) + c.Text() == name[..|name| - 4] == base + after.Text();
    if after.NoCounter? {
      assert base == StubPrefix(id) + c.Text();
      CounterIsCounterText(c);
      assert base[|StubPrefix(id)|..] == c.Text();
    } else {
      CounterFound(id, c, base, after);
    }
    assert MatchesWith(id, before, CountedName(base, before));
    MatchesExactly(id, CountedName(base, before));
  }

  /** Renaming one entry of `EFI/Linux` touches no content-addressed file. */
  lemma CountsFrame(site: Site, fs: Fs, base: string, before: Counter, after: Counter)
    ensures var b := Apply(site, fs, Counts(base, before, after));
      forall p | site.lay.IsStored(p) :: (p in fs <==> p in b) && (p in fs ==> fs[p] == b[p])
  {
    var from, to := site.lay.Linux() + [CountedName(base, before)], site.lay.Linux() + [CountedName(base, after)];
    forall p | site.lay.IsStored(p) ensures p != from && p != to {
      assert site.lay.Nixos()[|site.lay.esp| + 1] == "nixos" && site.lay.Linux()[|site.lay.esp| + 1] == "Linux";
    }
  }

  lemma CountsKeepInv(site: Site, fs: Fs, base: string, before: Counter, after: Counter)
    requires site.Inv(fs) && EventValid(site, Counts(base, before, after))
    ensures site.Inv(Apply(site, fs, Counts(base, before, after)))
  {
    hide Site.WellBuilt, Site.Labelled, CountedName, EndsInCounter;
    var from, to := site.lay.Linux() + [CountedName(base, before)], site.lay.Linux() + [CountedName(base, after)];
    var b := Apply(site, fs, Counts(base, before, after));
    CountsFrame(site, fs, base, before, after);
    CountedStub(base, before);
    CountedStub(base, after);
    forall p | p in b && site.lay.IsStub(p)
      ensures b[p].File? && site.WellBuilt(b[p].content) && site.Labelled(p[|site.lay.esp| + 2], b[p].content)
    {
      if p == to && to !in fs {
        assert p[|site.lay.esp| + 2] == CountedName(base, after)
          && from[|site.lay.esp| + 2] == CountedName(base, before);
        assert site.lay.IsStub(from);
        CountedLabel(site, base, before, after, b[p].content);
      }
    }
  }

  lemma MovedStubBoots(site: Site, a: Fs, b: Fs, p: Path, p': Path)
    requires site.Inv(a) && site.Inv(b) && site.lay.IsStub(p) && site.lay.IsStub(p')
    requires forall q | site.lay.IsStored(q) :: q in a ==> q in b
    requires site.Bootable(a, p) && p' in b && b[p'] == a[p]
    ensures site.Bootable(b, p')
  {
    BootableIffPresent(site, a, p);
    BootableIffPresent(site, b, p');
  }

  /** A generation that could be booted can still be booted after its counter has changed. */
  lemma CountsKeepBootable(site: Site, fs: Fs, base: string, before: Counter, after: Counter, id: StubId)
    requires site.Inv(fs) && EventValid(site, Counts(base, before, after)) && IsHashString(id.hash)
    requires HasBootable(site, fs, id)
    ensures HasBootable(site, Apply(site, fs, Counts(base, before, after)), id)
  {
    var name :| Matches(id, name) && site.Bootable(fs, site.lay.Linux() + [name]);
    CountsKeepInv(site, fs, base, before, after);
    CountsFrame(site, fs, base, before, after);
    MatchingIsStubName(id, name);
    StubMoves(site, fs, base, before, after, name);
    if name == CountedName(base, before) {
      CountedMatches(id, base, before, after);
      MatchingIsStubName(id, CountedName(base, after));
    }
    var b := Apply(site, fs, Counts(base, before, after));
    var name' := if site.lay.Linux() + [name] in b then name else CountedName(base, after);
    MovedStubBoots(site, fs, b, site.lay.Linux() + [name], site.lay.Linux() + [name']);
  }

  /** An entry keeps its name, or it is the one whose counter changes. */
  lemma StubMoves(site: Site, fs: Fs, base: string, before: Counter, after: Counter, name: string)
    requires site.lay.Linux() + [name] in fs
    ensures var b, p := Apply(site, fs, Counts(base, before, after)), site.lay.Linux() + [name];
      || (p in b && b[p] == fs[p])
      || (&& p !in b && name == CountedName(base, before)
          && site.lay.Linux() + [CountedName(base, after)] in b
          && b[site.lay.Linux() + [CountedName(base, after)]] == fs[p])
  {
    var linux, was, now := site.lay.Linux(), CountedName(base, before), CountedName(base, after);
    assert (linux + [name])[|linux|] == name && (linux + [was])[|linux|] == was && (linux + [now])[|linux|] == now;
  }

  lemma StepShrinks(j: Job, fs: Fs, i: nat)
    requires j.Valid() && j.site.Inv(fs)
    requires |j.BeforeSweep(fs).disk.trace| <= i < |j.Install(fs).disk.trace|
    ensures var before, trace := j.BeforeSweep(fs).disk, j.Install(fs).disk.trace;
      forall p :: p in trace[i] ==> p in StateBefore(before, trace, i)
  {
    hide Job.BeforeSweep, Sweep, Job.Collect, Site.Inv, Job.Valid;
    CollectGarbageShrinks(j, j.BeforeSweep(fs).disk, j.BeforeSweep(fs).roots);
  }

  lemma CollectGarbageShrinks(j: Job, disk: Disk, roots: set<Path>)
    ensures Shrinks(disk, j.CollectGarbage(disk, roots))
  {
    hide Shrinks, Sweep, GarbageIn;
    var env, nixos, linux := j.site.env, j.site.lay.Nixos(), j.site.lay.Linux();
    var stored := j.Collect(disk, roots, Everything, nixos);
    var stubs := j.Collect(stored, roots, IsOurs, linux);
    SweepShrinks(disk, roots, Everything, env.walk(disk.fs, nixos, GarbageIn(disk.fs, roots, Everything, nixos)));
    SweepShrinks(stored, roots, IsOurs, env.walk(stored.fs, linux, GarbageIn(stored.fs, roots, IsOurs, linux)));
    ShrinksTransitive(disk, stored, stubs);
    if j.cfg.pcrlock.Some? {
      var dir := j.LanzabooteDir();
      SweepShrinks(stubs, roots, Everything, env.walk(stubs.fs, dir, GarbageIn(stubs.fs, roots, Everything, dir)));
      ShrinksTransitive(disk, stubs, j.CollectGarbage(disk, roots));
    }
  }

  lemma HalfRemovedSafe(j: Job, fs: Fs, step: nat, left: set<Path>)
    requires j.Valid() && j.site.Inv(fs)
    ensures j.site.Inv(Apply(j.site, fs, CutInside(j.cfg, step, left)))
  {
    hide Job.BeforeSweep, Job.Install, Site.Inv, RootedBoot, Job.Valid;
    assert Job(j.site, j.cfg) == j;
    var disk, trace := j.BeforeSweep(fs).disk, j.Install(fs).disk.trace;
    if |disk.trace| <= step < |trace| {
      StepShrinks(j, fs, step);
      EveryRemovalSafe(j, fs, step, HalfRemoved(StateBefore(disk, trace, step), trace[step], left));
    }
  }

  /** Whatever happens to an ESP, the invariant holds afterwards. */
  lemma {:induction false} HistoryKeepsInv(site: Site, fs: Fs, events: seq<Event>)
    requires site.Inv(fs) && forall e :: e in events ==> EventValid(site, e)
    ensures site.Inv(History(site, fs, events))
  {
    if events != [] {
      var earlier, last := events[..|events| - 1], events[|events| - 1];
      assert last in events && forall e :: e in earlier ==> e in events;
      HistoryKeepsInv(site, fs, earlier);
      var a := History(site, fs, earlier);
      match last {
        case Installs(cfg) =>
          RunKeepsInv(Job(site, cfg), a);
        case CutOff(cfg, step) =>
          if step < |Job(site, cfg).Install(a).disk.trace| {
            EveryStepSafe(Job(site, cfg), a, step);
          }
        case CutInside(cfg, step, left) =>
          HalfRemovedSafe(Job(site, cfg), a, step, left);
        case Counts(base, before, after) =>
          CountsKeepInv(site, a, base, before, after);
      }
    }
  }

  /** Nothing is on the ESP yet. */
  ghost predicate EmptyEsp(lay: Layout, fs: Fs) {
    forall p :: p in fs ==> !(lay.esp < p)
  }

  lemma EmptyEspInv(site: Site, fs: Fs)
    requires EmptyEsp(site.lay, fs)
    ensures site.Inv(fs)
  {
    var lay := site.lay;
    forall p | lay.IsStub(p) || lay.IsStored(p) ensures lay.esp < p {
      assert lay.esp <= lay.Linux() && lay.esp <= lay.Nixos();
    }
  }

  lemma {:induction false} CountsAllKeep(site: Site, fs: Fs, counts: seq<Event>, id: StubId)
    requires site.Inv(fs) && HasBootable(site, fs, id) && IsHashString(id.hash)
    requires forall e :: e in counts ==> e.Counts? && EventValid(site, e)
    ensures HasBootable(site, History(site, fs, counts), id)
  {
    if counts != [] {
      var fewer, last := counts[..|counts| - 1], counts[|counts| - 1];
      assert last in counts && forall e :: e in fewer ==> e in counts;
      CountsAllKeep(site, fs, fewer, id);
      HistoryKeepsInv(site, fs, fewer);
      CountsKeepBootable(site, History(site, fs, fewer), last.base, last.before, last.after, id);
    }
  }

  lemma {:induction false} HistoryConcat(site: Site, fs: Fs, a: seq<Event>, b: seq<Event>)
    ensures History(site, fs, a + b) == History(site, History(site, fs, a), b)
    decreases |b|
  {
    if b == [] {
      assert a + b == a;
    } else {
      assert (a + b)[..|a + b| - 1] == a + b[..|b| - 1];
      HistoryConcat(site, fs, a, b[..|b| - 1]);
    }
  }

  /** `g` is the generation of a retained link, or one of its specialisations. */
  ghost predicate IsRetained(j: Job, g: Generation) {
    exists link :: link in j.Retained() && link.generation.Some? && g in Group(link.generation.value)
  }

  function Group(g: Generation): set<Generation> {
    {g} + set s | s in g.specialisations
  }

  lemma {:induction false} TargetsOfLinks(links: seq<GenerationLink>, g: Generation)
    ensures g in Targets(Readable(links)) <==>
      exists link :: link in links && link.generation.Some? && g in Group(link.generation.value)
    decreases |links|
  {
    if links != [] {
      var first, rest := links[0], links[1..];
      assert forall link :: link in links <==> link == first || link in rest;
      TargetsOfLinks(rest, g);
      FirstGroup(links, g);
    }
  }

  lemma FirstGroup(links: seq<GenerationLink>, g: Generation)
    requires links != []
    ensures g in Targets(Readable(links)) <==>
      (links[0].generation.Some? && g in Group(links[0].generation.value)) || g in Targets(Readable(links[1..]))
  {
    hide Targets, Readable;
    FirstTargets(links);
    if links[0].generation.Some? {
      var h := links[0].generation.value;
      InThree(h, h.specialisations, Targets(Readable(links[1..])), g);
    }
  }

  lemma FirstTargets(links: seq<GenerationLink>)
    requires links != []
    ensures Targets(Readable(links)) ==
      if links[0].generation.None? then Targets(Readable(links[1..]))
      else [links[0].generation.value] + links[0].generation.value.specialisations + Targets(Readable(links[1..]))
  {
    hide Targets;
    var rest := Readable(links[1..]);
    if links[0].generation.Some? {
      var gs := [links[0].generation.value] + rest;
      assert Readable(links) == gs && gs[1..] == rest;
      UnfoldTargets(gs);
    } else {
      assert Readable(links) == rest;
    }
  }

  lemma UnfoldTargets(gs: seq<Generation>)
    requires gs != []
    ensures Targets(gs) == [gs[0]] + gs[0].specialisations + Targets(gs[1..])
  {
  }

  lemma InThree<T>(h: T, a: seq<T>, b: seq<T>, x: T)
    ensures x in [h] + a + b <==> x == h || x in a || x in b
  {
  }

  /** What is installed is every retained generation and each of its specialisations, and nothing else. */
  lemma TargetsExactly(j: Job, g: Generation)
    ensures g in j.AllTargets() <==> IsRetained(j, g)
  {
    TargetsOfLinks(j.Retained(), g);
  }

  /** The central guarantee. From an empty ESP, after any history of runs, cut-off runs and counter
      changes, a completed run makes every retained generation and specialisation bootable, and it
      stays so while boot counters change: the UEFI stub finds kernel and initrd under the paths that
      the tool embedded, and both hash checks pass. */
  lemma RetainedAlwaysBoot(site: Site, fs: Fs, history: seq<Event>, cfg: Config, counts: seq<Event>, g: Generation)
    requires EmptyEsp(site.lay, fs)
    requires forall e :: e in history ==> EventValid(site, e)
    requires Job(site, cfg).Valid()
    requires forall e :: e in counts ==> e.Counts? && EventValid(site, e)
    requires Job(site, cfg).Install(History(site, fs, history)).status == Running
    requires IsRetained(Job(site, cfg), g)
    ensures var now := History(site, fs, history + [Installs(cfg)] + counts);
      exists name :: Matches(Job(site, cfg).IdOf(g), name) && Starts(site, now, site.lay.Linux() + [name])
  {
    hide Job.Valid, EventValid, Job.Install, Matches, Starts, IsRetained, Job.AllTargets;
    var j, earlier := Job(site, cfg), History(site, fs, history);
    TargetsExactly(j, g);
    EmptyEspInv(site, fs);
    HistoryKeepsInv(site, fs, history);
    RunKeepsInv(j, earlier);
    RetainedBoot(j, earlier, g);
    HistoryConcat(site, fs, history, [Installs(cfg)]);
    assert History(site, earlier, [Installs(cfg)]) == Apply(site, earlier, Installs(cfg)) by {
      assert [Installs(cfg)][..0] == [];
    }
    assert IsHashString(j.IdOf(g).hash) by {
      HashIsHash(j, g);
    }
    CountsAllKeep(site, j.Install(earlier).disk.fs, counts, j.IdOf(g));
    HistoryConcat(site, fs, history + [Installs(cfg)], counts);
    var now := History(site, fs, history + [Installs(cfg)] + counts);
    var name :| Matches(j.IdOf(g), name) && site.Bootable(now, site.lay.Linux() + [name]);
    BootableStarts(site, now, site.lay.Linux() + [name]);
  }

  lemma HashIsHash(j: Job, g: Generation)
    requires j.Valid()
    ensures IsHashString(j.IdOf(g).hash)
  {
  }

  /** The stub at `p` is a file that, when started, reads its kernel and its initrd,
    finds the hashes it expects and boots. */
  ghost predicate Starts(site: Site, fs: Fs, p: Path) {
    p in fs && fs[p].File? && site.LoadFromPe(fs, fs[p].content).Boots?
  }

  lemma BootableStarts(site: Site, fs: Fs, p: Path)
    requires site.Bootable(fs, p)
    ensures Starts(site, fs, p)
  {
    hide Site.Bootable, Site.LoadFromPe;
    BootableLoads(site, fs, p);
  }

  /** Starting a stub that the pattern of a generation finds boots the kernel of that very generation, and its command
      line is "init=" with its init program followed by all its kernel parameters. */
  lemma BootsItsOwnSystem(j: Job, fs: Fs, g: Generation, name: string)
    requires j.Valid() && j.site.meaning.Some? && IsRetained(j, g)
    requires j.site.Inv(fs) && Matches(j.IdOf(g), name) && Starts(j.site, fs, j.site.lay.Linux() + [name])
    ensures var booted := j.site.LoadFromPe(fs, fs[j.site.lay.Linux() + [name]].content);
      && j.site.env.sha256(booted.kernel) == j.site.env.sha256(g.kernel)
      && Spells(booted.cmdline, ["init=" + g.init] + g.kernelParams)
      && (' ' !in g.init && (forall p :: p in g.kernelParams ==> ' ' !in p) ==>
          Split(booted.cmdline, ' ') == ["init=" + g.init] + g.kernelParams)
  {
    hide Generation.Cmdline, Job.AllTargets, Spells, Split;
    TargetsExactly(j, g);
    MatchingIsStubName(j.IdOf(g), name);
    CmdlineIs(g);
    var p := j.site.lay.Linux() + [name];
    assert j.site.lay.IsStub(p) && p[|j.site.lay.esp| + 2] == name;
    assert j.Meant(g);
  }
}
