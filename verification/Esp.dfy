/** The ESP as the tool keeps it: content-addressed kernels and initrds, stubs that point at them,
    and what it takes for the UEFI stub to accept them. */
module Esp {
  import opened FileSystem
  import opened EfiPaths
  import opened StubNames
  import opened GarbageCollector

  type Digest = d: Bytes | |d| == 32 witness seq(32, _ => 0)

  /** What the PE sections of a stub say. */
  datatype Sections = Sections(
    linux: Option<string>, linuxh: Option<Digest>,
    initrd: Option<string>, initrdh: Option<Digest>,
    cmdline: Option<string>, osrel: Option<string>)

  datatype StubParameters = StubParameters(
    lanzabooteStub: Bytes,
    kernelPath: string, kernelHash: Digest,
    initrdPath: string, initrdHash: Digest,
    cmdline: string, osRelease: string)

  /** Code outside the model: SHA-256, base32, JSON, objcopy, PE parsing, systemd-pcrlock, and the
      order in which directories are listed. */
  datatype Env = Env(
    sha256: Bytes -> Digest,
    base32: Digest -> string,
    stubInputs: (string, Bytes) -> Bytes,
    wrapInPe: StubParameters -> Bytes,
    sections: Bytes -> Sections,
    bootVersion: Bytes -> Option<nat>,
    lockPe: Bytes -> Bytes,
    firstListed: (Fs, set<Path>) -> Path,
    walk: (Fs, Path, set<Path>) -> seq<Path>)
  {
    ghost predicate Valid() {
      && (forall d :: IsHashString(base32(d)))
      && (forall d, e :: base32(d) == base32(e) ==> d == e)
      && (forall ps :: sections(wrapInPe(ps)) ==
            Sections(Some(ps.kernelPath), Some(ps.kernelHash), Some(ps.initrdPath), Some(ps.initrdHash),
                     Some(ps.cmdline), Some(ps.osRelease)))
      && (forall fs, names :: names != {} ==> firstListed(fs, names) in names)
      && (forall fs, dir, garbage :: IsWalk(fs, dir, garbage, walk(fs, dir, garbage)))
    }
  }

  /** The directories and files of `SystemdEspPaths`. */
  datatype Layout = Layout(esp: Path, fallbackFilename: string, systemdFilename: string) {
    function Efi(): Path { esp + ["EFI"] }
    function Nixos(): Path { esp + ["EFI", "nixos"] }
    function Linux(): Path { esp + ["EFI", "Linux"] }
    function FallbackDir(): Path { esp + ["EFI", "BOOT"] }
    function Fallback(): Path { esp + ["EFI", "BOOT", fallbackFilename] }
    function Systemd(): Path { esp + ["EFI", "systemd"] }
    function SystemdBoot(): Path { esp + ["EFI", "systemd", systemdFilename] }
    function Loader(): Path { esp + ["loader"] }
    function LoaderConf(): Path { esp + ["loader", "loader.conf"] }

    function Roots(): set<Path> {
      {esp, Efi(), Nixos(), Linux(), FallbackDir(), Fallback(), Systemd(), SystemdBoot(), Loader(), LoaderConf()}
    }

    /** A file directly in `EFI/Linux` that counts as one of the tool's stubs. */
    predicate IsStub(p: Path) {
      |p| == |esp| + 3 && Linux() <= p && IsStubName(p[|esp| + 2])
    }

    /** A file directly in `EFI/nixos` under a final name. */
    predicate IsStored(p: Path) {
      |p| == |esp| + 3 && Nixos() <= p && EndsWith(p[|esp| + 2], ".efi")
    }
  }

  /** What becomes of a stub that is started: it boots, it lacks a section, a file is missing, or a hash differs. */
  datatype Loading =
    | Boots(kernel: Bytes, initrd: Bytes, cmdline: string)
    | InvalidParameter
    | MissingFile
    | SecurityViolation

  /** What a generation boots into. */
  datatype System = System(kernel: Digest, cmdline: string)

  /** The machine: its environment, its ESP and, if known, the system that each stub name stands for. */
  datatype Site = Site(env: Env, lay: Layout, meaning: Option<StubId -> System>) {

    /** The last part of the name of a content-addressed file. */
    function StoreSuffix(d: Digest): string {
      "-" + env.base32(d) + ".efi"
    }

    function StorePath(lbl: string, d: Digest): Path {
      lay.Nixos() + [lbl + StoreSuffix(d)]
    }

    predicate IsStoreFor(p: Path, d: Digest) {
      lay.IsStored(p) && EndsWith(p[|lay.esp| + 2], StoreSuffix(d))
    }

    /** Every content-addressed file has the contents that its name promises. */
    ghost predicate StoreIntact(fs: Fs) {
      forall p, d {:trigger IsStoreFor(p, d)} | p in fs && IsStoreFor(p, d) ::
        fs[p].File? && env.sha256(fs[p].content) == d
    }

    /** A section pair (path, hash) names a content-addressed file, the same one for the tool and for the firmware. */
    predicate PointsToStore(path: Option<string>, hash: Option<Digest>) {
      && path.Some? && hash.Some?
      && IsStoreFor(FirmwareLookup(lay.esp, path.value), hash.value)
      && ResolveEfiPath(lay.esp, path.value) == Some(FirmwareLookup(lay.esp, path.value))
    }

    predicate WellBuilt(stub: Bytes) {
      var s := env.sections(stub);
      PointsToStore(s.linux, s.linuxh) && PointsToStore(s.initrd, s.initrdh) && s.cmdline.Some?
    }

    /** The stub boots the system that its name stands for. */
    ghost predicate Labelled(name: string, stub: Bytes) {
      meaning.Some? ==>
        forall id | IsProper(id) && Matches(id, name) ::
          && env.sections(stub).linuxh == Some(meaning.value(id).kernel)
          && env.sections(stub).cmdline == Some(meaning.value(id).cmdline)
    }

    ghost predicate StubsWellBuilt(fs: Fs) {
      forall p | p in fs && lay.IsStub(p) ::
        fs[p].File? && WellBuilt(fs[p].content) && Labelled(p[|lay.esp| + 2], fs[p].content)
    }

    /** What every state of an ESP managed by the tool satisfies. */
    ghost predicate Inv(fs: Fs) {
      StoreIntact(fs) && StubsWellBuilt(fs)
    }

    /** `UkiComponents::load_from_pe`: the sections, then both files, then both hashes. */
    function LoadFromPe(fs: Fs, stub: Bytes): Loading {
      var s := env.sections(stub);
      if s.linux.None? || s.linuxh.None? || s.initrd.None? || s.initrdh.None? || s.cmdline.None? then InvalidParameter
      else
        var kernel, initrd := FirmwareLookup(lay.esp, s.linux.value), FirmwareLookup(lay.esp, s.initrd.value);
        if kernel !in fs || fs[kernel].Dir? || initrd !in fs || fs[initrd].Dir? then MissingFile
        else if env.sha256(fs[kernel].content) != s.linuxh.value then SecurityViolation
        else if env.sha256(fs[initrd].content) != s.initrdh.value then SecurityViolation
        else Boots(fs[kernel].content, fs[initrd].content, s.cmdline.value)
    }

    /** The file that a section names is there and its SHA-256 is the expected one. */
    predicate CheckHash(fs: Fs, path: Option<string>, hash: Option<Digest>) {
      && path.Some? && hash.Some?
      && var p := FirmwareLookup(lay.esp, path.value);
      p in fs && fs[p].File? && env.sha256(fs[p].content) == hash.value
    }

    /** The stub at `p` gets past its own checks and boots. */
    predicate Bootable(fs: Fs, p: Path) {
      && p in fs && fs[p].File?
      && var s := env.sections(fs[p].content);
      CheckHash(fs, s.linux, s.linuxh) && CheckHash(fs, s.initrd, s.initrdh) && s.cmdline.Some?
    }

    function KernelOf(stub: Bytes): Path
      requires WellBuilt(stub)
    {
      FirmwareLookup(lay.esp, env.sections(stub).linux.value)
    }

    function InitrdOf(stub: Bytes): Path
      requires WellBuilt(stub)
    {
      FirmwareLookup(lay.esp, env.sections(stub).initrd.value)
    }

    /** From `a` to `b` nothing is lost: bootable stubs stay bootable, and a stub that is new or has
        changed is bootable from the moment it carries its final name. */
    ghost predicate Improves(a: Fs, b: Fs) {
      && Inv(b)
      && (forall p | lay.IsStub(p) && Bootable(a, p) :: Bootable(b, p))
      && (forall p | lay.IsStub(p) && p in b :: Bootable(b, p) || (p in a && a[p] == b[p]))
    }

    /** `a` and `b` hold the same stubs and content-addressed files. */
    ghost predicate SameBoot(a: Fs, b: Fs) {
      forall p | lay.IsStub(p) || lay.IsStored(p) :: (p in a <==> p in b) && (p in a ==> a[p] == b[p])
    }
  }

  /** A file at the firmware's path for the string `path`. */
  ghost predicate IsFileAt(site: Site, fs: Fs, path: string, content: Bytes) {
    var p := FirmwareLookup(site.lay.esp, path);
    p in fs && fs[p] == File(content)
  }

  /** What a stub boots has exactly the hashes that are embedded in it, and a stub whose files do not have them is
      refused as a security violation. */
  lemma LoadsExactly(site: Site, fs: Fs, stub: Bytes, kernel: Bytes, initrd: Bytes, cmdline: string)
    ensures var s := site.env.sections(stub);
      site.LoadFromPe(fs, stub) == Boots(kernel, initrd, cmdline) <==>
      && s.linux.Some? && s.initrd.Some? && s.cmdline == Some(cmdline)
      && IsFileAt(site, fs, s.linux.value, kernel) && s.linuxh == Some(site.env.sha256(kernel))
      && IsFileAt(site, fs, s.initrd.value, initrd) && s.initrdh == Some(site.env.sha256(initrd))
    ensures var s := site.env.sections(stub);
      && s.linux.Some? && s.linuxh.Some? && s.initrd.Some? && s.initrdh.Some? && s.cmdline.Some?
      && IsFileAt(site, fs, s.linux.value, kernel) && IsFileAt(site, fs, s.initrd.value, initrd)
      && (site.env.sha256(kernel) != s.linuxh.value || site.env.sha256(initrd) != s.initrdh.value)
      ==> site.LoadFromPe(fs, stub) == SecurityViolation
  {
  }

  /** To be bootable is to get past these checks. */
  lemma BootableLoads(site: Site, fs: Fs, p: Path)
    ensures site.Bootable(fs, p) <==> p in fs && fs[p].File? && site.LoadFromPe(fs, fs[p].content).Boots?
  {
  }

  lemma StubsAreNotStored(lay: Layout, p: Path)
    requires lay.IsStub(p)
    ensures !lay.IsStored(p)
  {
    assert lay.Linux()[|lay.esp| + 1] == "Linux" && lay.Nixos()[|lay.esp| + 1] == "nixos";
  }

  lemma ImprovesTransitive(site: Site, a: Fs, b: Fs, c: Fs)
    requires site.Improves(a, b) && site.Improves(b, c)
    ensures site.Improves(a, c)
  {
  }

  lemma SuffixUnique(site: Site, p: Path, d: Digest, e: Digest)
    requires site.env.Valid() && site.IsStoreFor(p, d) && site.IsStoreFor(p, e)
    ensures d == e
  {
    var b, c := site.env.base32(d), site.env.base32(e);
    assert b == site.StoreSuffix(d)[1..53] && c == site.StoreSuffix(e)[1..53];
  }

  /** Under the invariant, a stub boots exactly when its kernel and its initrd are there. */
  lemma BootableIffPresent(site: Site, fs: Fs, p: Path)
    requires site.Inv(fs) && site.lay.IsStub(p) && p in fs
    ensures site.Bootable(fs, p) <==>
      site.KernelOf(fs[p].content) in fs && site.InitrdOf(fs[p].content) in fs
  {
    var s := site.env.sections(fs[p].content);
    assert site.IsStoreFor(site.KernelOf(fs[p].content), s.linuxh.value);
    assert site.IsStoreFor(site.InitrdOf(fs[p].content), s.initrdh.value);
  }

  /** Only stubs and content-addressed files matter for booting. */
  lemma SameBootImproves(site: Site, a: Fs, b: Fs)
    requires site.Inv(a) && site.SameBoot(a, b)
    ensures site.Improves(a, b)
  {
    forall p | site.lay.IsStub(p) && p in b
      ensures site.Bootable(b, p) || (p in a && a[p] == b[p])
      ensures site.Bootable(a, p) ==> site.Bootable(b, p)
    {
      BootableIffPresent(site, a, p);
      BootableIffPresent(site, b, p);
    }
  }

  /** A content-addressed file is put in place. */
  lemma StoreImproves(site: Site, a: Fs, b: Fs, to: Path, content: Bytes)
    requires site.env.Valid() && site.Inv(a) && site.IsStoreFor(to, site.env.sha256(content))
    requires site.SameBoot(a[to := File(content)], b)
    ensures site.Improves(a, b)
  {
    forall p, d | p in b && site.IsStoreFor(p, d) ensures b[p].File? && site.env.sha256(b[p].content) == d {
      if p == to {
        SuffixUnique(site, p, d, site.env.sha256(content));
      }
    }
    forall p | site.lay.IsStub(p) && p in b ensures p in a && a[p] == b[p] {
      StubsAreNotStored(site.lay, p);
    }
    assert site.Inv(b);
    forall p | site.lay.IsStub(p) && site.Bootable(a, p) ensures site.Bootable(b, p) {
      BootableIffPresent(site, a, p);
      BootableIffPresent(site, b, p);
    }
  }

  /** A stub is put in place after its kernel and its initrd. */
  lemma StubImproves(site: Site, a: Fs, b: Fs, to: Path, stub: Bytes)
    requires site.Inv(a) && site.lay.IsStub(to) && site.WellBuilt(stub) && site.Labelled(to[|site.lay.esp| + 2], stub)
    requires site.KernelOf(stub) in a && site.InitrdOf(stub) in a
    requires site.SameBoot(a[to := File(stub)], b)
    ensures site.Improves(a, b) && site.Bootable(b, to)
  {
    forall p, d | p in b && site.IsStoreFor(p, d) ensures b[p].File? && site.env.sha256(b[p].content) == d {
      StubsAreNotStored(site.lay, to);
    }
    assert site.Inv(b);
    forall p | p in a && site.lay.IsStored(p) ensures p in b {
      assert p in a[to := File(stub)];
    }
    BootableIffPresent(site, b, to);
    forall p | site.lay.IsStub(p) && site.Bootable(a, p) ensures site.Bootable(b, p) {
      BootableIffPresent(site, a, p);
      BootableIffPresent(site, b, p);
    }
  }

  /** Deleting files cannot break the invariant. */
  lemma InvUnderDeletion(site: Site, a: Fs, b: Fs)
    requires site.Inv(a)
    requires forall p :: p in b ==> p in a && b[p] == a[p]
    ensures site.Inv(b)
  {
  }
}
