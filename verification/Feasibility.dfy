/** When a run completes, and that what is assumed of the environment can be met. */
module Feasibility {
  import opened FileSystem
  import opened Numbers
  import opened EfiPaths
  import opened StubNames
  import opened Generations
  import opened GarbageCollector
  import opened Esp
  import opened Installation
  import opened InstallSafety
  import opened RunFrame
  import opened SecondRun
  import BootSafety
  import RunOrder
  import Sorting

  // ---------------------------------------------------------------------------------------------
  // When a run completes

  lemma ReinstallRuns(j: Job, st: State, g: Generation)
    requires j.Valid() && Good(j, st) && g.WellNamed() && j.Meant(g) && st.status == Running && g.initrd.Some?
    ensures j.Reinstall(st, g).status == Running
  {
    hide Good, Job.Valid, Advances, Reinstalled, SameStubsBut, Job.InstallStored, Job.StubImage, Job.MeasureImage;
    var stored := j.InstallStored(j.InstallStored(st, g.kernel, j.KernelLabel(g)), g.initrd.value, j.InitrdLabel(g));
    InstallStoredAdvances(j, st, g.kernel, j.KernelLabel(g));
    InstallTrio(j, st, g, g.initrd.value, stored);
  }

  lemma InstallGenerationRuns(j: Job, st: State, g: Generation)
    requires j.Valid() && Good(j, st) && g.WellNamed() && j.Meant(g) && st.status == Running && g.initrd.Some?
    ensures j.InstallGeneration(st, g).status == Running
  {
    hide Good, Job.Valid, Job.Register, Job.Reinstall, Served;
    RegisterSound(j, st, g);
    var (registered, outcome) := j.Register(st, g);
    if outcome == NotInstalled {
      ReinstallRuns(j, registered, g);
    }
  }

  lemma {:induction false} InstallAllRuns(j: Job, st: State, gs: seq<Generation>)
    requires j.Valid() && Good(j, st) && st.status == Running
    requires forall g :: g in gs ==> g.WellNamed() && j.Meant(g) && g.initrd.Some?
    ensures j.InstallAll(st, gs).status == Running
    decreases |gs|
  {
    hide Good, Job.Valid, Job.InstallGeneration, Advances, Served, Job.Meant, Generation.WellNamed;
    if gs != [] {
      assert gs[0] in gs && forall g :: g in gs[1..] ==> g in gs;
      InstallGenerationRuns(j, st, gs[0]);
      InstallGenerationAdvances(j, st, gs[0]);
      InstallAllRuns(j, j.InstallGeneration(st, gs[0]), gs[1..]);
    }
  }

  predicate SameAt(p: Path, a: Fs, b: Fs) {
    (p in a <==> p in b) && (p in a ==> a[p] == b[p])
  }

  lemma AtomicWriteElsewhere(j: Job, disk: Disk, content: Bytes, to: Path, p: Path)
    requires p !in Prefixes(Parent(to)) && p != to && p != TmpPath(to)
    ensures SameAt(p, disk.fs, j.AtomicWrite(disk, content, to).fs)
  {
    hide Prefixes, TmpPath;
    var made := disk.MakeDirs(Parent(to));
    var written := made.Write(TmpPath(to), content);
    assert SameAt(p, disk.fs, made.fs) && SameAt(p, made.fs, written.fs);
  }

  lemma ConfElsewhere(j: Job, to: Path)
    requires to in {j.site.lay.Fallback(), j.site.lay.SystemdBoot()}
    ensures var conf := j.site.lay.LoaderConf(); conf !in Prefixes(Parent(to)) && conf != to && conf != TmpPath(to)
  {
    var lay := j.site.lay;
    assert lay.LoaderConf()[|lay.esp|] == "loader" && to[|lay.esp|] == "EFI";
    assert |to| == |lay.esp| + 3 && |TmpPath(to)| == |to|;
  }

  lemma ConfUnmeasured(j: Job, q: Path)
    requires j.Valid() && j.cfg.pcrlock.Some? && j.cfg.pcrlock.value <= q
    ensures !(j.site.lay.LoaderConf() <= q)
  {
    hide Job.Valid;
    OffEsp(j, q);
    assert j.site.lay.esp <= j.site.lay.LoaderConf();
  }

  /** A boot loader update does not touch its configuration. */
  lemma UpdateElsewhere(j: Job, disk: Disk)
    requires j.Valid()
    ensures SameAt(j.site.lay.LoaderConf(), disk.fs, j.UpdateSystemdBoot(disk).fs)
  {
    hide Job.AtomicWrite, Job.Valid, TmpPath;
    var lay, conf, signed := j.site.lay, j.site.lay.LoaderConf(), j.cfg.sign(j.cfg.systemdBoot);
    var measured := disk;
    if j.cfg.pcrlock.Some? {
      var next, current := j.BootloaderMeasurement("next"), j.BootloaderMeasurement("current");
      assert j.cfg.pcrlock.value <= next && j.cfg.pcrlock.value <= current && j.cfg.pcrlock.value <= Parent(next);
      ConfUnmeasured(j, next);
      ConfUnmeasured(j, current);
      ConfUnmeasured(j, Parent(next));
      measured := disk.MakeDirs(Parent(next)).Write(next, j.site.env.lockPe(j.cfg.systemdBoot));
    }
    ConfElsewhere(j, lay.Fallback());
    ConfElsewhere(j, lay.SystemdBoot());
    AtomicWriteElsewhere(j, measured, signed, lay.Fallback(), conf);
    AtomicWriteElsewhere(j, j.AtomicWrite(measured, signed, lay.Fallback()), signed, lay.SystemdBoot(), conf);
  }

  lemma ConfIsNoDirectory(j: Job)
    requires j.Valid()
    ensures j.site.lay.LoaderConf() !in LeadingDirs(j)
  {
    var lay, conf := j.site.lay, j.site.lay.LoaderConf();
    assert conf[|lay.esp|] == "loader" && lay.esp <= conf && |conf| == |lay.esp| + 2;
    forall dir | dir in {lay.Nixos(), lay.Linux(), lay.FallbackDir(), lay.Systemd()} ensures conf !in Prefixes(dir) {
      assert dir[|lay.esp|] == "EFI";
    }
    assert conf !in Prefixes(lay.Loader());
    if j.cfg.pcrlock.Some? {
      ConfUnmeasured(j, j.cfg.pcrlock.value);
    }
  }

  lemma ConfStays(j: Job, a: Disk, b: Disk)
    requires j.Valid() && FrameAlong(j, GenerationZone, true, a, b)
    ensures SameAt(j.site.lay.LoaderConf(), a.fs, b.fs)
  {
    hide InGenerationZone, LeadingDirs, Job.Valid;
    BootFilesOutsideGenerations(j, j.site.lay.LoaderConf());
    ConfIsNoDirectory(j);
    assert !InZone(j, GenerationZone, j.site.lay.LoaderConf());
  }

  lemma InstallSystemdBootRuns(j: Job, st: State)
    requires j.Valid() && st.status == Running && j.site.env.bootVersion(j.cfg.systemdBoot).Some?
    requires var conf := j.site.lay.LoaderConf(); conf in st.disk.fs ==> st.disk.fs[conf].File?
    ensures j.InstallSystemdBoot(st).status == Running
  {
    hide Job.UpdateSystemdBoot, Job.AtomicWrite, Job.Valid;
    UpdateElsewhere(j, st.disk);
  }

  /** A run completes if some retained link can be read, every target has an initrd, the version of the boot loader
      can be read, and nobody has put a directory where the boot loader configuration goes. */
  lemma RunCompletes(j: Job, fs: Fs)
    requires j.Valid() && j.site.Inv(fs) && Readable(j.Retained()) != []
    requires forall g :: g in j.AllTargets() ==> g.initrd.Some?
    requires j.site.env.bootVersion(j.cfg.systemdBoot).Some?
    requires var conf := j.site.lay.LoaderConf(); conf in fs ==> fs[conf].File?
    ensures j.Install(fs).status == Running
  {
    hide Good, Job.InstallAll, Job.InstallSystemdBoot, Job.CollectGarbage, FrameAlong, Job.AllTargets, Readable,
      Site.Inv;
    var st := j.Begin(fs);
    BootSafety.BeginGood(j, fs);
    InstallAllRuns(j, st, j.AllTargets());
    InstallAllFrame(j, st, j.AllTargets());
    ConfStays(j, st.disk, j.InstallAll(st, j.AllTargets()).disk);
    InstallSystemdBootRuns(j, j.InstallAll(st, j.AllTargets()));
  }

  // ---------------------------------------------------------------------------------------------
  // Base32

  /** The last `k` digits of `n` to the base of 32. */
  function Digits32(n: nat, k: nat): (s: string)
    ensures |s| == k && forall i :: 0 <= i < k ==> IsBase32Char(s[i])
    ensures n == 0 ==> forall i :: 0 <= i < k ==> s[i] == 'a'
  {
    if k == 0 then "" else Digits32(n / 32, k - 1) + [Letter(n % 32)]
  }

  function Letter(d: nat): (c: char)
    requires d < 32
    ensures IsBase32Char(c) && (d == 0 ==> c == 'a')
  {
    if d < 26 then 'a' + d as char else '2' + (d - 26) as char
  }

  lemma LettersDiffer(d: nat, e: nat)
    requires d < 32 && e < 32 && Letter(d) == Letter(e)
    ensures d == e
  {
  }

  lemma {:induction false} Digits32Unique(n: nat, m: nat, k: nat)
    requires n < Pow2(5 * k) && m < Pow2(5 * k) && Digits32(n, k) == Digits32(m, k)
    ensures n == m
    decreases k
  {
    hide Letter, Pow2;
    if k == 0 {
      PowZero();
    } else {
      var s, t := Digits32(n, k), Digits32(m, k);
      assert s[k - 1] == Letter(n % 32) && t[k - 1] == Letter(m % 32);
      LettersDiffer(n % 32, m % 32);
      assert s[..k - 1] == Digits32(n / 32, k - 1) && t[..k - 1] == Digits32(m / 32, k - 1);
      PowSum(5, 5 * (k - 1));
      PowFive();
      Digits32Unique(n / 32, m / 32, k - 1);
    }
  }

  lemma PowZero()
    ensures Pow2(0) == 1
  {
  }

  lemma PowFive()
    ensures Pow2(5) == 32 && Pow2(4) == 16 && Pow2(8) == 256
  {
  }

  /** A byte string as one number. */
  function Number(b: Bytes): nat {
    if b == [] then 0 else 256 * Number(b[..|b| - 1]) + b[|b| - 1]
  }

  lemma {:induction false} NumberBound(b: Bytes)
    ensures Number(b) < Pow2(8 * |b|)
    decreases |b|
  {
    hide Pow2;
    if b == [] {
      PowZero();
    } else {
      NumberBound(b[..|b| - 1]);
      PowSum(8, 8 * (|b| - 1));
      PowFive();
    }
  }

  lemma {:induction false} NumberUnique(a: Bytes, b: Bytes)
    requires |a| == |b| && Number(a) == Number(b)
    ensures a == b
    decreases |a|
  {
    if a != [] {
      var n := |a| - 1;
      assert Number(a) % 256 == a[n] && Number(b) % 256 == b[n];
      NumberUnique(a[..n], b[..n]);
      assert a == a[..n] + [a[n]] && b == b[..n] + [b[n]];
    }
  }

  /** Section 6 of RFC 4648 without padding: 256 bits and four zero bits in groups of five. */
  function Base32(d: Digest): string {
    Digits32(16 * Number(d), HASH_LENGTH)
  }

  lemma Base32Unique(d: Digest, e: Digest)
    requires Base32(d) == Base32(e)
    ensures d == e
  {
    hide Digits32, Number, Pow2;
    NumberBound(d);
    NumberBound(e);
    PowSum(4, 256);
    PowFive();
    Digits32Unique(16 * Number(d), 16 * Number(e), HASH_LENGTH);
    NumberUnique(d, e);
  }

  // ---------------------------------------------------------------------------------------------
  // Stub images that can be told apart

  /** Each character as a mark and three bytes, and a final zero. */
  function Encoded(s: string): Bytes {
    if s == "" then [0]
    else
      var c := s[0] as int;
      [1, c / 65536 % 256, c / 256 % 256, c % 256] + Encoded(s[1..])
  }

  lemma CharUnique(c: char, d: char)
    requires var m, n := c as int, d as int;
      m / 65536 % 256 == n / 65536 % 256 && m / 256 % 256 == n / 256 % 256 && m % 256 == n % 256
    ensures c == d
  {
    ThreeBytes(c as int);
    ThreeBytes(d as int);
  }

  lemma ThreeBytes(n: nat)
    requires n < 0x11_0000
    ensures n == 65536 * (n / 65536 % 256) + 256 * (n / 256 % 256) + n % 256
  {
    assert n / 256 / 256 == n / 65536;
  }

  lemma {:induction false} EncodedUnique(s: string, x: Bytes, t: string, y: Bytes)
    requires Encoded(s) + x == Encoded(t) + y
    ensures s == t && x == y
    decreases |s|
  {
    var a, b := Encoded(s) + x, Encoded(t) + y;
    if s == "" || t == "" {
      assert a[0] == b[0];
      assert x == a[1..] && y == b[1..];
    } else {
      assert a[1] == b[1] && a[2] == b[2] && a[3] == b[3];
      CharUnique(s[0], t[0]);
      assert a[4..] == Encoded(s[1..]) + x && b[4..] == Encoded(t[1..]) + y;
      EncodedUnique(s[1..], x, t[1..], y);
      assert s == [s[0]] + s[1..] && t == [t[0]] + t[1..];
    }
  }

  function Wrap(ps: StubParameters): Bytes {
    Encoded(ps.kernelPath) + (Encoded(ps.initrdPath) + (Encoded(ps.cmdline) + (Encoded(ps.osRelease)
    + (ps.kernelHash + ps.initrdHash))))
  }

  function SectionsOf(ps: StubParameters): Sections {
    Sections(Some(ps.kernelPath), Some(ps.kernelHash), Some(ps.initrdPath), Some(ps.initrdHash),
             Some(ps.cmdline), Some(ps.osRelease))
  }

  lemma WrapUnique(p: StubParameters, q: StubParameters)
    requires Wrap(p) == Wrap(q)
    ensures SectionsOf(p) == SectionsOf(q)
  {
    hide Encoded;
    var hp, hq := p.kernelHash + p.initrdHash, q.kernelHash + q.initrdHash;
    var rp, rq := Encoded(p.osRelease) + hp, Encoded(q.osRelease) + hq;
    var cp, cq := Encoded(p.cmdline) + rp, Encoded(q.cmdline) + rq;
    EncodedUnique(p.kernelPath, Encoded(p.initrdPath) + cp, q.kernelPath, Encoded(q.initrdPath) + cq);
    EncodedUnique(p.initrdPath, cp, q.initrdPath, cq);
    EncodedUnique(p.cmdline, rp, q.cmdline, rq);
    EncodedUnique(p.osRelease, hp, q.osRelease, hq);
    assert p.kernelHash == hp[..32] && q.kernelHash == hq[..32];
    assert p.initrdHash == hp[32..] && q.initrdHash == hq[32..];
  }

  ghost function Unwrap(b: Bytes): (r: Sections)
    ensures (exists ps :: Wrap(ps) == b) ==> exists ps :: Wrap(ps) == b && r == SectionsOf(ps)
  {
    if exists ps :: Wrap(ps) == b then
      var ps :| Wrap(ps) == b;
      SectionsOf(ps)
    else Sections(None, None, None, None, None, None)
  }

  // ---------------------------------------------------------------------------------------------
  // An environment

  ghost function Listed(s: set<Path>): (r: seq<Path>)
    ensures forall p :: p in r <==> p in s
  {
    if s == {} then []
    else
      var p :| p in s;
      [p] + Listed(s - {p})
  }

  ghost function AnyOf(names: set<Path>): (p: Path)
    ensures names != {} ==> p in names
  {
    if names == {} then [] else
      var p :| p in names;
      p
  }

  ghost function EntriesBelow(fs: Fs, dir: Path): (s: set<Path>)
    ensures forall p :: p in s <==> p in fs && dir <= p
  {
    set p | p in fs && dir <= p
  }

  const ZERO: Digest := seq(32, _ => 0)

  ghost function ExampleEnv(): Env {
    Env(_ => ZERO, (d: Digest) => Base32(d), (_, _) => [], ps => Wrap(ps), b => Unwrap(b), _ => Some(1), _ => [],
        (_, names) => AnyOf(names), (fs, dir, _) => Listed(EntriesBelow(fs, dir)))
  }

  lemma ExampleEnvValid()
    ensures ExampleEnv().Valid()
  {
    hide Wrap, Listed, AnyOf, EntriesBelow, Unwrap;
    var env := ExampleEnv();
    forall d ensures IsHashString(env.base32(d)) {
      assert env.base32(d) == Base32(d);
    }
    forall d, e | env.base32(d) == env.base32(e) ensures d == e {
      Base32Unique(d, e);
    }
    forall ps ensures env.sections(env.wrapInPe(ps)) == SectionsOf(ps) {
      UnwrapWrap(ps);
    }
  }

  lemma UnwrapWrap(ps: StubParameters)
    ensures Unwrap(Wrap(ps)) == SectionsOf(ps)
  {
    hide Wrap, SectionsOf, Unwrap;
    assert Wrap(ps) == Wrap(ps);
    var qs :| Wrap(qs) == Wrap(ps) && Unwrap(Wrap(ps)) == SectionsOf(qs);
    WrapUnique(qs, ps);
  }

  /** One generation to be installed on an ESP at the root of the file system. */
  ghost function ExampleJob(g: Generation): Job {
    Job(Site(ExampleEnv(), Layout([], "BOOTX64.EFI", "systemd-bootx64.efi"), Some(_ => System(ZERO, g.Cmdline()))),
        Config(None, 0, 0, [], b => b, _ => true, [], [], [], [GenerationLink(g.version, Some(g))]))
  }

  lemma ExampleTargets(g: Generation)
    requires g.specialisations == []
    ensures Readable(ExampleJob(g).Retained()) == [g] && ExampleJob(g).AllTargets() == [g]
  {
    var link := GenerationLink(g.version, Some(g));
    var links := [link];
    assert links[1..] == [] && Sorting.Sort(VersionOrder, links[1..]) == [];
    assert Sorting.Sort(VersionOrder, links) == [link] + [];
    assert ExampleJob(g).Retained() == links;
    assert Readable(links) == [g] + Readable(links[1..]);
    assert [g][1..] == [] && Targets([g]) == [g] + g.specialisations + Targets([g][1..]);
  }

  lemma ExampleHashProper()
    ensures IsHashString(Base32(ZERO)) && !AllDigits(Base32(ZERO))
  {
    NumberOfZeros(ZERO);
    assert Base32(ZERO)[0] == 'a';
  }

  lemma {:induction false} NumberOfZeros(b: Bytes)
    requires forall i :: 0 <= i < |b| ==> b[i] == 0
    ensures Number(b) == 0
    decreases |b|
  {
    if b != [] {
      NumberOfZeros(b[..|b| - 1]);
    }
  }

  /** The assumptions about a job can be met, for every generation that can be installed by itself. */
  lemma ExampleJobValid(g: Generation)
    requires g.WellNamed() && g.specialisations == []
    ensures ExampleJob(g).Valid() && g in ExampleJob(g).AllTargets()
  {
    hide Env.Valid, Generation.WellNamed, Job.AllTargets, Base32;
    var j := ExampleJob(g);
    ExampleEnvValid();
    ExampleTargets(g);
    ExampleHashProper();
    assert j.IdOf(g).hash == Base32(ZERO);
    assert j.Meant(g);
  }

  /** So the central guarantee is about something: here is a first run that completes and leaves a bootable stub. */
  lemma ExampleRun(g: Generation)
    requires g.WellNamed() && g.specialisations == [] && g.initrd.Some?
    ensures var j := ExampleJob(g);
      j.Valid() && j.Install(map[]).status == Running
      && BootSafety.HasBootable(j.site, j.Install(map[]).disk.fs, j.IdOf(g))
  {
    hide Job.Valid, Job.Install, Generation.WellNamed, Job.AllTargets, Job.Retained, Readable, ExampleEnv, Site.Inv,
      BootSafety.HasBootable;
    var j := ExampleJob(g);
    ExampleJobValid(g);
    ExampleTargets(g);
    BootSafety.EmptyEspInv(j.site, map[]);
    assert j.site.env.bootVersion(j.cfg.systemdBoot).Some? by {
      ExampleVersion(g);
    }
    RunCompletes(j, map[]);
    BootSafety.RetainedBoot(j, map[], g);
  }

  lemma ExampleVersion(g: Generation)
    ensures ExampleJob(g).site.env.bootVersion(ExampleJob(g).cfg.systemdBoot) == Some(1)
  {
  }

  // ---------------------------------------------------------------------------------------------
  // A target given twice, concretely

  /** A stub of `g` with a boot counter, on an ESP without any kernel. */
  ghost function StrayPath(g: Generation): Path {
    ExampleJob(g).site.lay.Linux() + [StubName(ExampleJob(g).IdOf(g), 7)]
  }

  /** The same link is given twice, and directories list the stray stub first. */
  ghost function RepeatJob(g: Generation): Job {
    var j, stray, link := ExampleJob(g), StrayPath(g), GenerationLink(g.version, Some(g));
    var env := j.site.env.(firstListed := (_, names) => if stray in names then stray else AnyOf(names));
    Job(Site(env, j.site.lay, None), j.cfg.(links := [link, link]))
  }

  ghost function StrayEsp(g: Generation): Fs
    requires g.initrd.Some?
  {
    var image := RepeatJob(g).StubImage(g, g.initrd.value);
    map[StrayPath(g) := File(if image.Some? then image.value else [])]
  }

  lemma RepeatTargets(g: Generation)
    requires g.specialisations == []
    ensures Readable(RepeatJob(g).Retained()) == [g, g] && RepeatJob(g).AllTargets() == [g, g]
    ensures BrokenVersions(RepeatJob(g).Retained()) == {}
  {
    var link := GenerationLink(g.version, Some(g));
    var links := [link, link];
    assert links[1..] == [link] && [link][1..] == [] && Sorting.Sort(VersionOrder, []) == [];
    assert Sorting.Sort(VersionOrder, [link]) == [link] + [];
    assert Sorting.Sort(VersionOrder, links) == [link] + [link] == links;
    assert RepeatJob(g).Retained() == links;
    assert Readable([link]) == [g] + Readable([]) && Readable(links) == [g] + Readable([link]);
    assert [g, g][1..] == [g] && [g][1..] == [] && Targets([g]) == [g] + g.specialisations + Targets([]);
    assert Targets([g, g]) == [g] + g.specialisations + Targets([g]);
  }

  lemma RepeatEnvValid(g: Generation)
    ensures RepeatJob(g).site.env.Valid()
  {
    hide Base32, Wrap, Unwrap, Listed, AnyOf, EntriesBelow, StrayPath;
    ExampleEnvValid();
    var env, f := ExampleEnv(), RepeatJob(g).site.env;
    assert f == env.(firstListed := f.firstListed);
  }

  lemma RepeatJobValid(g: Generation)
    requires g.WellNamed() && g.specialisations == []
    ensures RepeatJob(g).Valid()
  {
    hide Env.Valid, Generation.WellNamed, Job.AllTargets, StrayPath;
    RepeatEnvValid(g);
    RepeatTargets(g);
  }

  lemma StrayPathIs(g: Generation)
    ensures var j, p := RepeatJob(g), StrayPath(g);
      && j.IdOf(g) == ExampleJob(g).IdOf(g) && |p| == |j.site.lay.esp| + 3 && j.site.lay.Linux() <= p
      && Matches(j.IdOf(g), p[|j.site.lay.esp| + 2]) && j.site.lay.IsStub(p) && p != j.StubTarget(g)
  {
    hide Matches, StubPrefix;
    var j, p := RepeatJob(g), StrayPath(g);
    var id := j.IdOf(g);
    StubNameMatches(id, 7);
    MatchingIsStubName(id, StubName(id, 7));
    assert p[|j.site.lay.esp| + 2] == StubName(id, 7);
    assert j.StubTarget(g)[|j.site.lay.esp| + 2] == StubName(id, 0);
    assert |StubName(id, 7)| > |StubName(id, 0)|;
  }

  /** An ESP with nothing but one stub: it is in order, but does not boot. */
  lemma SingleStub(site: Site, p: Path, stub: Bytes)
    requires site.lay.IsStub(p) && site.WellBuilt(stub) && site.Labelled(p[|site.lay.esp| + 2], stub)
    ensures var fs := map[p := File(stub)]; site.Inv(fs) && !site.Bootable(fs, p)
  {
    hide Site.Labelled, Layout.IsStub;
    StubsAreNotStored(site.lay, p);
    var fs: Fs := map[p := File(stub)];
    assert fs.Keys == {p};
    BootableIffPresent(site, fs, p);
    assert site.lay.IsStored(site.KernelOf(stub));
  }

  lemma StrayStub(g: Generation)
    requires g.WellNamed() && g.specialisations == [] && g.initrd.Some?
    ensures var j, fs, p := RepeatJob(g), StrayEsp(g), StrayPath(g);
      && j.site.Inv(fs) && p in fs && fs[p].File? && !j.site.Bootable(fs, p) && j.site.WellBuilt(fs[p].content)
      && j.site.KernelOf(fs[p].content) == j.StoreTarget(g.kernel, j.KernelLabel(g))
      && j.site.InitrdOf(fs[p].content) == j.StoreTarget(g.initrd.value, j.InitrdLabel(g))
  {
    hide Job.Valid, Matches, StrayPath, Job.StubImage, Job.StoreTarget, Site.WellBuilt, Site.Inv, Site.Bootable,
      Layout.IsStub, ExampleEnv, Generation.WellNamed, Site.KernelOf, Site.InitrdOf;
    var j, fs, p := RepeatJob(g), StrayEsp(g), StrayPath(g);
    RepeatJobValid(g);
    StrayPathIs(g);
    StubImageWellBuilt(j, g, g.initrd.value);
    var image := j.StubImage(g, g.initrd.value).value;
    assert j.cfg.sign(image) == image == fs[p].content;
    SingleStub(j.site, p, image);
  }

  lemma StrayIsFirst(g: Generation)
    ensures forall a, names ::
      StrayPath(g) in names ==> RepeatJob(g).site.env.firstListed(a, names) == StrayPath(g)
  {
    hide StrayPath;
  }

  lemma StrayEspInv(g: Generation)
    requires g.WellNamed() && g.specialisations == [] && g.initrd.Some?
    ensures RepeatJob(g).site.Inv(StrayEsp(g)) && RunOrder.Stray(RepeatJob(g), StrayEsp(g), g, StrayPath(g))
  {
    hide Matches, StrayPath, Job.StoreTarget, Site.WellBuilt, Site.Inv, Site.Bootable, Layout.IsStub, ExampleEnv,
      RepeatJob, StrayEsp, Site.KernelOf, Site.InitrdOf, Generation.WellNamed;
    StrayStub(g);
    StrayPathIs(g);
    StrayIsFirst(g);
  }

  /** Here the second run deletes the stub that the first one wrote. */
  lemma ExampleRepeated(g: Generation)
    requires g.WellNamed() && g.specialisations == [] && g.initrd.Some?
    ensures var j := RepeatJob(g);
      var first := j.Install(StrayEsp(g));
      var second := j.Install(first.disk.fs);
      && j.Valid() && first.status == Running && second.status == Running
      && j.StubTarget(g) in first.disk.fs && j.StubTarget(g) !in second.disk.fs
  {
    hide Job.Valid, Job.Install, Generation.WellNamed, Job.AllTargets, Job.Retained, Readable, Site.Inv, RunOrder.Stray,
      StrayPath, BrokenVersions, Job.StubImage;
    var j, fs := RepeatJob(g), StrayEsp(g);
    RepeatJobValid(g);
    RepeatTargets(g);
    StrayEspInv(g);
    StrayPathIs(g);
    assert j.site.env.bootVersion(j.cfg.systemdBoot) == Some(1);
    assert j.site.lay.LoaderConf() !in fs;
    RunCompletes(j, fs);
    RunOrder.RepeatedTargetNotIdle(j, fs, g, StrayPath(g));
  }
}
