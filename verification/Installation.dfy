/** One run of `lzbt install`, as a function of the file system it starts from. Every file-system
    operation adds a state to the trace of the disk. */
module Installation {
  import opened FileSystem
  import opened EfiPaths
  import opened StubNames
  import opened Generations
  import opened GarbageCollector
  import opened Esp
  import OsRelease
  import Sorting

  datatype Config = Config(
    pcrlock: Option<Path>,
    configurationLimit: nat,
    bootcountingInitialTries: nat,
    publicKey: Bytes,
    sign: Bytes -> Bytes,
    verify: Bytes -> bool,
    lanzabooteStub: Bytes,
    systemdBoot: Bytes,
    loaderConf: Bytes,
    links: seq<GenerationLink>)

  /** `Aborted` stands for any error or panic that ends a run part-way. */
  datatype Status = Running | NoBootableGenerations | Aborted

  datatype State = State(disk: Disk, roots: set<Path>, brokenGens: set<nat>, status: Status)

  datatype Reading = Found(stub: Path, kernel: Path, initrd: Path) | Unreadable | Panic

  datatype Registration = Installed | NotInstalled | Failed

  predicate Everything(p: Path) {
    true
  }

  predicate IsOurs(p: Path) {
    p != [] && StartsWith(p[|p| - 1], "nixos-")
  }

  predicate VersionOrder(a: GenerationLink, b: GenerationLink) {
    a.version <= b.version
  }

  /** The newest `limit` links (all of them if it is 0), oldest first. */
  function SelectLinks(links: seq<GenerationLink>, limit: nat): seq<GenerationLink> {
    var sorted := Sorting.Sort(VersionOrder, links);
    if 0 < limit < |sorted| then sorted[|sorted| - limit..] else sorted
  }

  function Readable(links: seq<GenerationLink>): seq<Generation> {
    if links == [] then []
    else (if links[0].generation.Some? then [links[0].generation.value] else []) + Readable(links[1..])
  }

  function BrokenVersions(links: seq<GenerationLink>): set<nat> {
    set l | l in links && l.generation.None? :: l.version
  }

  /** Each generation is followed by its specialisations; theirs are not looked at. */
  function Targets(gs: seq<Generation>): seq<Generation> {
    if gs == [] then [] else [gs[0]] + gs[0].specialisations + Targets(gs[1..])
  }

  datatype Job = Job(site: Site, cfg: Config) {

    /** What signing promises, and that the pcrlock directory is not on the ESP nor the ESP below it. */
    ghost predicate Valid() {
      && site.env.Valid()
      && (forall b :: site.env.sections(cfg.sign(b)) == site.env.sections(b))
      && (forall b :: site.env.lockPe(cfg.sign(b)) == site.env.lockPe(b))
      && (forall b :: site.env.bootVersion(cfg.sign(b)) == site.env.bootVersion(b))
      && (forall b :: cfg.verify(cfg.sign(b)))
      && (cfg.pcrlock.Some? ==> !(cfg.pcrlock.value <= site.lay.esp) && !(site.lay.esp <= cfg.pcrlock.value))
      && (forall g :: g in AllTargets() ==> g.WellNamed() && Meant(g))
    }

    function Retained(): seq<GenerationLink> {
      SelectLinks(cfg.links, cfg.configurationLimit)
    }

    function AllTargets(): seq<Generation> {
      Targets(Readable(Retained()))
    }

    function LanzabooteDir(): Path
      requires cfg.pcrlock.Some?
    {
      cfg.pcrlock.value + ["635-lanzaboote.pcrlock.d"]
    }

    function LanzabooteMeasurement(g: Generation): Path
      requires cfg.pcrlock.Some?
    {
      LanzabooteDir() + [g.VersionTag() + ".pcrlock"]
    }

    /** The measurement file of a generation, if Measured Boot is on. */
    function MeasurementOf(g: Generation): set<Path> {
      if cfg.pcrlock.Some? then {LanzabooteMeasurement(g)} else {}
    }

    function BootloaderMeasurement(name: string): Path
      requires cfg.pcrlock.Some?
    {
      cfg.pcrlock.value + ["630-bootloader.pcrlock.d"] + [name + ".pcrlock"]
    }

    function InitialRoots(): set<Path> {
      site.lay.Roots() + (if cfg.pcrlock.Some? then {cfg.pcrlock.value, LanzabooteDir()} else {})
    }

    function IdOf(g: Generation): StubId {
      StubId(g.version, g.specialisationName,
             site.env.base32(site.env.sha256(site.env.stubInputs(g.toplevel, cfg.publicKey))))
    }

    /** Stub names tell systems apart: what the toplevel is addressed by determines what is booted. */
    predicate Meant(g: Generation) {
      site.meaning.Some? ==>
        IsProper(IdOf(g)) && site.meaning.value(IdOf(g)) == System(site.env.sha256(g.kernel), g.Cmdline())
    }

    function StubTarget(g: Generation): Path {
      site.lay.Linux() + [StubName(IdOf(g), cfg.bootcountingInitialTries)]
    }

    /** The entries of `EFI/Linux` that the search pattern of a generation matches. */
    function Candidates(fs: Fs, id: StubId): set<Path> {
      set p | p in fs && |p| == |site.lay.esp| + 3 && site.lay.Linux() <= p && Matches(id, p[|site.lay.esp| + 2])
    }

    /** `atomic_copy` and `install_signed`: write under a temporary name, then rename. */
    function AtomicWrite(disk: Disk, content: Bytes, to: Path): Disk {
      disk.MakeDirs(Parent(to)).Write(TmpPath(to), content).Rename(TmpPath(to), to)
    }

    /** `install`: copies only if the destination is missing or hashes differently. */
    function InstallFile(st: State, content: Bytes, to: Path): State {
      if to in st.disk.fs && st.disk.fs[to].Dir? then st.(status := Aborted)
      else if to in st.disk.fs && site.env.sha256(content) == site.env.sha256(st.disk.fs[to].content) then st
      else st.(disk := AtomicWrite(st.disk, content, to))
    }

    function StoreTarget(content: Bytes, lbl: string): Path {
      site.StorePath(lbl, site.env.sha256(content))
    }

    /** `install_nixos_ca`. */
    function InstallStored(st: State, content: Bytes, lbl: string): State {
      var to := StoreTarget(content, lbl);
      InstallFile(st.(roots := st.roots + {to}), content, to)
    }

    function ReadInstalled(fs: Fs, id: StubId): Reading {
      var names := Candidates(fs, id);
      if names == {} then Unreadable
      else
        var p := site.env.firstListed(fs, names);
        if p !in fs || fs[p].Dir? then Unreadable
        else
          var s := site.env.sections(fs[p].content);
          if s.linux.None? then Unreadable
          else
            var kernel := ResolveEfiPath(site.lay.esp, s.linux.value);
            if kernel.None? then Panic
            else if s.initrd.None? then Unreadable
            else
              var initrd := ResolveEfiPath(site.lay.esp, s.initrd.value);
              if initrd.None? then Panic
              else if kernel.value in fs && initrd.value in fs then Found(p, kernel.value, initrd.value)
              else Unreadable
    }

    function Register(st: State, g: Generation): (State, Registration) {
      match ReadInstalled(st.disk.fs, IdOf(g))
      case Panic => (st, Failed)
      case Unreadable => (st, NotInstalled)
      case Found(stub, kernel, initrd) =>
        var rooted := st.(roots := st.roots + {stub, kernel, initrd});
        if cfg.pcrlock.None? then (rooted, Installed)
        else if LanzabooteMeasurement(g) in st.disk.fs then
          (rooted.(roots := rooted.roots + {LanzabooteMeasurement(g)}), Installed)
        else (rooted, NotInstalled)
    }

    function KernelLabel(g: Generation): string {
      "kernel-" + g.KernelVersion()
    }

    function InitrdLabel(g: Generation): string {
      "initrd-" + g.KernelVersion()
    }

    /** `lanzaboote_image`; `None` when a target is not below the ESP. */
    function StubImage(g: Generation, initrd: Bytes): Option<Bytes> {
      var kernelPath := EspRelativeUefiPath(site.lay.esp, StoreTarget(g.kernel, KernelLabel(g)));
      var initrdPath := EspRelativeUefiPath(site.lay.esp, StoreTarget(initrd, InitrdLabel(g)));
      if kernelPath.None? || initrdPath.None? then None
      else Some(site.env.wrapInPe(StubParameters(
        cfg.lanzabooteStub,
        kernelPath.value, site.env.sha256(g.kernel),
        initrdPath.value, site.env.sha256(initrd),
        g.Cmdline(), OsRelease.GenerationText(g))))
    }

    /** `lock_pe` of the unsigned image, if Measured Boot is on. */
    function MeasureImage(st: State, g: Generation, image: Bytes): State {
      if cfg.pcrlock.None? then st
      else
        var to := LanzabooteMeasurement(g);
        st.(disk := st.disk.MakeDirs(Parent(to)).Write(to, site.env.lockPe(image)), roots := st.roots + {to})
    }

    /** The measurement first, then the signed stub. */
    function InstallStub(st: State, g: Generation, image: Bytes): State {
      var measured := MeasureImage(st, g, image);
      measured.(disk := AtomicWrite(measured.disk, cfg.sign(image), StubTarget(g)),
                roots := measured.roots + {StubTarget(g)})
    }

    /** Kernel, then initrd, then the stub. */
    function Reinstall(st: State, g: Generation): State {
      var withKernel := InstallStored(st, g.kernel, KernelLabel(g));
      if withKernel.status != Running then withKernel
      else if g.initrd.None? then withKernel.(status := Aborted)
      else
        var withInitrd := InstallStored(withKernel, g.initrd.value, InitrdLabel(g));
        var image := StubImage(g, g.initrd.value);
        if withInitrd.status != Running then withInitrd
        else if image.None? then withInitrd.(status := Aborted)
        else InstallStub(withInitrd, g, image.value)
    }

    function InstallGeneration(st: State, g: Generation): State {
      var (registered, outcome) := Register(st, g);
      match outcome
      case Failed => registered.(status := Aborted)
      case Installed => registered
      case NotInstalled => Reinstall(registered, g)
    }

    function InstallAll(st: State, gs: seq<Generation>): State
      decreases |gs|
    {
      if gs == [] || st.status != Running then st
      else InstallAll(InstallGeneration(st, gs[0]), gs[1..])
    }

    /** `newer_systemd_boot`; `None` when the version of the source binary cannot be read. */
    function NewerSystemdBoot(fs: Fs, to: Path): Option<bool> {
      if to !in fs then Some(true)
      else
        var from := site.env.bootVersion(cfg.systemdBoot);
        var installed := if fs[to].File? then site.env.bootVersion(fs[to].content) else None;
        if from.None? then None
        else if installed.None? then Some(true)
        else Some(from.value > installed.value)
    }

    predicate IsSigned(fs: Fs, p: Path) {
      p in fs && fs[p].File? && cfg.verify(fs[p].content)
    }

    function NeedsSystemdBoot(fs: Fs): Option<bool> {
      var lay := site.lay;
      var fallback := NewerSystemdBoot(fs, lay.Fallback());
      var newer := if fallback == Some(false) then NewerSystemdBoot(fs, lay.SystemdBoot()) else fallback;
      if newer.None? then None
      else
        var signed := IsSigned(fs, lay.Fallback()) && IsSigned(fs, lay.SystemdBoot());
        var measured := cfg.pcrlock.None? || BootloaderMeasurement("current") in fs;
        Some(newer.value || !signed || !measured)
    }

    /** The measurement of the new binary is kept as "next" until both copies are in place. */
    function UpdateSystemdBoot(disk: Disk): Disk {
      var measured :=
        if cfg.pcrlock.None? then disk
        else
          var next := BootloaderMeasurement("next");
          disk.MakeDirs(Parent(next)).Write(next, site.env.lockPe(cfg.systemdBoot));
      var signed := cfg.sign(cfg.systemdBoot);
      var copied := AtomicWrite(AtomicWrite(measured, signed, site.lay.Fallback()), signed, site.lay.SystemdBoot());
      if cfg.pcrlock.None? then copied
      else copied.Rename(BootloaderMeasurement("next"), BootloaderMeasurement("current"))
    }

    function InstallSystemdBoot(st: State): State {
      match NeedsSystemdBoot(st.disk.fs)
      case None => st.(status := Aborted)
      case Some(update) =>
        var updated := if update then st.(disk := UpdateSystemdBoot(st.disk)) else st;
        InstallFile(updated, cfg.loaderConf, site.lay.LoaderConf())
    }

    function Collect(disk: Disk, roots: set<Path>, filter: Path -> bool, dir: Path): Disk {
      Sweep(disk, roots, filter, site.env.walk(disk.fs, dir, GarbageIn(disk.fs, roots, filter, dir)))
    }

    /** Kernels and initrds, then stubs, then stub measurements. */
    function CollectGarbage(disk: Disk, roots: set<Path>): Disk {
      var stored := Collect(disk, roots, Everything, site.lay.Nixos());
      var stubs := Collect(stored, roots, IsOurs, site.lay.Linux());
      if cfg.pcrlock.None? then stubs else Collect(stubs, roots, Everything, LanzabooteDir())
    }

    function Begin(fs: Fs): State {
      State(Disk(fs, []), InitialRoots(), BrokenVersions(Retained()), Running)
    }

    /** A run up to the point where garbage would be collected. */
    function BeforeSweep(fs: Fs): State {
      var st := Begin(fs);
      if Readable(Retained()) == [] then st.(status := NoBootableGenerations)
      else
        var installed := InstallAll(st, AllTargets());
        if installed.status != Running then installed else InstallSystemdBoot(installed)
    }

    /** `Installer::install`. */
    function Install(fs: Fs): State {
      var st := BeforeSweep(fs);
      if st.status != Running || st.brokenGens != {} then st
      else st.(disk := CollectGarbage(st.disk, st.roots))
    }
  }
}
