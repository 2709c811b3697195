/** Measured Boot across a boot loader update: the measurement of whatever copy is installed is always
    held by the "current" or the "next" pcrlock file. */
module BootloaderCoverage {
  import opened FileSystem
  import opened EfiPaths
  import opened Esp
  import opened Installation
  import opened InstallSafety
  import opened RunFrame

  function Copies(j: Job): set<Path> {
    {j.site.lay.Fallback(), j.site.lay.SystemdBoot()}
  }

  function Current(j: Job): Path
    requires j.cfg.pcrlock.Some?
  {
    j.BootloaderMeasurement("current")
  }

  function Next(j: Job): Path
    requires j.cfg.pcrlock.Some?
  {
    j.BootloaderMeasurement("next")
  }

  predicate Holds(fs: Fs, p: Path, content: Bytes) {
    p in fs && fs[p] == File(content)
  }

  /** Each installed copy has its measurement in "current" or in "next". */
  predicate Covered(j: Job, fs: Fs)
    requires j.cfg.pcrlock.Some?
  {
    forall to | to in Copies(j) && to in fs && fs[to].File? ::
      var m := j.site.env.lockPe(fs[to].content); Holds(fs, Current(j), m) || Holds(fs, Next(j), m)
  }

  /** Both copies are installed, and "current" is the measurement of each. */
  predicate CurrentMatches(j: Job, fs: Fs)
    requires j.cfg.pcrlock.Some?
  {
    forall to | to in Copies(j) :: to in fs && fs[to].File? && Holds(fs, Current(j), j.site.env.lockPe(fs[to].content))
  }

  function KeyPaths(j: Job): set<Path>
    requires j.cfg.pcrlock.Some?
  {
    Copies(j) + {Current(j), Next(j)}
  }

  ghost predicate SameKeys(j: Job, a: Fs, b: Fs)
    requires j.cfg.pcrlock.Some?
  {
    forall p | p in KeyPaths(j) :: (p in a <==> p in b) && (p in a ==> a[p] == b[p])
  }

  // ---------------------------------------------------------------------------------------------
  // The four paths are apart from everything else

  lemma PcrlockBelow(j: Job, p: Path)
    requires j.cfg.pcrlock.Some? && p in {Current(j), Next(j)}
    ensures j.cfg.pcrlock.value <= p && |p| == |j.cfg.pcrlock.value| + 2
  {
  }

  lemma CopiesBelow(j: Job, p: Path)
    requires p in Copies(j)
    ensures j.site.lay.esp <= p && |p| == |j.site.lay.esp| + 3
  {
  }

  /** Paths on the ESP and paths below the pcrlock directory are never prefixes of each other. */
  lemma Apart(j: Job, p: Path, q: Path)
    requires j.Valid() && j.cfg.pcrlock.Some? && j.site.lay.esp <= p && j.cfg.pcrlock.value <= q
    ensures !(p <= q) && !(q <= p)
  {
    OffEsp(j, q);
  }

  lemma TmpNameDiffers(name: string)
    ensures TmpName(name) != name
  {
    var i := LastDot(name);
    if i > 0 {
      assert TmpName(name)[i + 1] == '.';
      assert i + 1 < |name| ==> name[i + 1] != '.';
    }
  }

  lemma EspParents(j: Job, to: Path, p: Path)
    requires j.Valid() && j.cfg.pcrlock.Some? && to in BootFiles(j) && p in KeyPaths(j)
    ensures p !in Prefixes(Parent(to))
  {
    if p in Copies(j) {
      CopiesBelow(j, p);
    } else {
      PcrlockBelow(j, p);
      assert j.site.lay.esp <= to;
      Apart(j, to, p);
    }
  }

  lemma PcrlockParents(j: Job, p: Path)
    requires j.Valid() && j.cfg.pcrlock.Some? && p in KeyPaths(j)
    ensures p !in Prefixes(Parent(Next(j)))
  {
    if p in Copies(j) {
      CopiesBelow(j, p);
      PcrlockBelow(j, Next(j));
      Apart(j, p, Next(j));
    } else {
      PcrlockBelow(j, p);
    }
  }

  lemma TmpApart(j: Job, to: Path, p: Path)
    requires j.Valid() && j.cfg.pcrlock.Some? && to in BootFiles(j) && p in KeyPaths(j)
    ensures TmpPath(to) != p
  {
    var lay := j.site.lay;
    if p in Copies(j) {
      TmpNameDiffers(to[|to| - 1]);
      assert lay.Fallback()[|lay.esp| + 1] == "BOOT" && lay.SystemdBoot()[|lay.esp| + 1] == "systemd";
      assert TmpPath(to)[|to| - 1] == TmpName(to[|to| - 1]);
      assert |to| == |lay.esp| + 3 ==> TmpPath(to)[|lay.esp| + 1] == to[|lay.esp| + 1];
    } else {
      PcrlockBelow(j, p);
      assert lay.esp <= TmpPath(to);
      Apart(j, TmpPath(to), p);
    }
  }

  lemma CopiesOutsideGenerations(j: Job, p: Path)
    requires j.Valid() && j.cfg.pcrlock.Some? && p in Copies(j)
    ensures !InGenerationZone(j, p) && p !in LeadingDirs(j)
  {
    hide Job.Valid;
    var lay, lock := j.site.lay, j.cfg.pcrlock.value;
    CopiesBelow(j, p);
    assert lay.Fallback()[|lay.esp| + 1] == "BOOT" && lay.SystemdBoot()[|lay.esp| + 1] == "systemd";
    assert lay.Nixos()[|lay.esp| + 1] == "nixos" && lay.Linux()[|lay.esp| + 1] == "Linux";
    Apart(j, p, j.LanzabooteDir());
    Apart(j, p, lock);
  }

  lemma MeasurementsOutsideGenerations(j: Job, p: Path)
    requires j.Valid() && j.cfg.pcrlock.Some? && p in {Current(j), Next(j)}
    ensures !InGenerationZone(j, p) && p !in LeadingDirs(j)
  {
    var lay, lock := j.site.lay, j.cfg.pcrlock.value;
    PcrlockBelow(j, p);
    assert p[|lock|] == "630-bootloader.pcrlock.d" && j.LanzabooteDir()[|lock|] == "635-lanzaboote.pcrlock.d";
    forall dir | dir in {lay.Nixos(), lay.Linux(), lay.FallbackDir(), lay.Systemd(), lay.Loader()}
      ensures !(dir <= p) && p !in Prefixes(dir)
    {
      assert lay.esp <= dir;
      Apart(j, dir, p);
    }
  }

  lemma KeysOutsideGenerations(j: Job, p: Path)
    requires j.Valid() && j.cfg.pcrlock.Some? && p in KeyPaths(j)
    ensures !InGenerationZone(j, p) && p !in LeadingDirs(j)
  {
    if p in Copies(j) {
      CopiesOutsideGenerations(j, p);
    } else {
      MeasurementsOutsideGenerations(j, p);
    }
  }

  // ---------------------------------------------------------------------------------------------
  // Steps

  lemma SameKeysCovered(j: Job, a: Fs, b: Fs)
    requires j.cfg.pcrlock.Some? && SameKeys(j, a, b)
    ensures Covered(j, a) ==> Covered(j, b)
    ensures CurrentMatches(j, a) <==> CurrentMatches(j, b)
  {
    assert Current(j) in KeyPaths(j) && Next(j) in KeyPaths(j);
  }

  lemma MatchesCovered(j: Job, fs: Fs)
    requires j.cfg.pcrlock.Some? && CurrentMatches(j, fs)
    ensures Covered(j, fs)
  {
  }

  /** An atomic write of a boot file shows in the four paths only with its last step. */
  lemma BootWriteKeys(j: Job, disk: Disk, content: Bytes, to: Path)
    requires j.Valid() && j.cfg.pcrlock.Some? && to in BootFiles(j)
    ensures var d := j.AtomicWrite(disk, content, to);
      && disk.trace <= d.trace && |d.trace| == |disk.trace| + 4 && d.trace[|disk.trace| + 3] == d.fs
      && (forall i | |disk.trace| <= i < |disk.trace| + 3 :: SameKeys(j, disk.fs, d.trace[i]))
      && SameKeys(j, disk.fs[to := File(content)], d.fs)
  {
    hide KeyPaths, Prefixes, TmpPath, Job.Valid, BootFiles;
    forall p | p in KeyPaths(j) ensures p !in Prefixes(Parent(to)) && p != TmpPath(to) {
      EspParents(j, to, p);
      TmpApart(j, to, p);
    }
    var made := disk.MakeDirs(Parent(to));
    var written := made.Write(TmpPath(to), content);
    assert SameKeys(j, disk.fs, made.fs);
    assert written.trace == made.trace + [made.fs[TmpPath(to) := File([])], written.fs];
    assert written.fs[TmpPath(to)] == File(content);
  }

  lemma MeasureKeys(j: Job, disk: Disk, content: Bytes)
    requires j.Valid() && j.cfg.pcrlock.Some?
    ensures var d := disk.MakeDirs(Parent(Next(j))).Write(Next(j), content);
      && disk.trace <= d.trace && |d.trace| == |disk.trace| + 3
      && SameKeys(j, disk.fs, d.trace[|disk.trace|])
      && SameKeys(j, disk.fs[Next(j) := File([])], d.trace[|disk.trace| + 1])
      && d.trace[|disk.trace| + 2] == d.fs && SameKeys(j, disk.fs[Next(j) := File(content)], d.fs)
  {
    forall p | p in KeyPaths(j) ensures p !in Prefixes(Parent(Next(j))) {
      PcrlockParents(j, p);
    }
  }

  /** The four paths are different from each other. */
  lemma KeysDistinct(j: Job)
    requires j.Valid() && j.cfg.pcrlock.Some?
    ensures Current(j) != Next(j) && Current(j) !in Copies(j) && Next(j) !in Copies(j)
    ensures j.site.lay.Fallback() != j.site.lay.SystemdBoot()
  {
    var lay := j.site.lay;
    PcrlockBelow(j, Current(j));
    PcrlockBelow(j, Next(j));
    assert Current(j)[|j.cfg.pcrlock.value| + 1] == "current.pcrlock"
      && Next(j)[|j.cfg.pcrlock.value| + 1] == "next.pcrlock";
    assert "current.pcrlock"[0] != "next.pcrlock"[0];
    assert lay.Fallback()[|lay.esp| + 1] == "BOOT" && lay.SystemdBoot()[|lay.esp| + 1] == "systemd";
    forall p | p in Copies(j) ensures p != Current(j) && p != Next(j) {
      CopiesBelow(j, p);
      Apart(j, p, Current(j));
      Apart(j, p, Next(j));
    }
  }

  /** Every state from `a` to `b` is covered. */
  ghost predicate CoveredAlong(j: Job, a: Disk, b: Disk)
    requires j.cfg.pcrlock.Some?
  {
    && a.trace <= b.trace
    && (forall i | |a.trace| <= i < |b.trace| :: Covered(j, b.trace[i]))
    && Covered(j, b.fs)
  }

  lemma CoveredAlongTransitive(j: Job, a: Disk, b: Disk, c: Disk)
    requires j.cfg.pcrlock.Some? && CoveredAlong(j, a, b) && CoveredAlong(j, b, c)
    ensures CoveredAlong(j, a, c)
  {
  }

  lemma MeasureCovered(j: Job, disk: Disk, content: Bytes)
    requires j.Valid() && j.cfg.pcrlock.Some? && CurrentMatches(j, disk.fs)
    ensures CoveredAlong(j, disk, disk.MakeDirs(Parent(Next(j))).Write(Next(j), content))
  {
    hide Job.Valid;
    var d := disk.MakeDirs(Parent(Next(j))).Write(Next(j), content);
    MeasureKeys(j, disk, content);
    KeysDistinct(j);
    MatchesCovered(j, disk.fs);
    SameKeysCovered(j, disk.fs, d.trace[|disk.trace|]);
    SameKeysCovered(j, disk.fs[Next(j) := File([])], d.trace[|disk.trace| + 1]);
    SameKeysCovered(j, disk.fs[Next(j) := File(content)], d.fs);
    assert Covered(j, disk.fs[Next(j) := File([])]) && Covered(j, disk.fs[Next(j) := File(content)]);
  }

  /** A copy whose measurement is held replaces an old one. */
  lemma CopyCovered(j: Job, disk: Disk, content: Bytes, to: Path)
    requires j.Valid() && j.cfg.pcrlock.Some? && to in Copies(j) && Covered(j, disk.fs)
    requires Holds(disk.fs, Next(j), j.site.env.lockPe(content))
    ensures CoveredAlong(j, disk, j.AtomicWrite(disk, content, to))
  {
    var d := j.AtomicWrite(disk, content, to);
    BootWriteKeys(j, disk, content, to);
    KeysDistinct(j);
    assert Covered(j, disk.fs[to := File(content)]);
    SameKeysCovered(j, disk.fs[to := File(content)], d.fs);
    forall i | |disk.trace| <= i < |d.trace| ensures Covered(j, d.trace[i]) {
      if i < |disk.trace| + 3 {
        SameKeysCovered(j, disk.fs, d.trace[i]);
      }
    }
  }

  /** The disk after the measurement, after the first copy and after the second. */
  function Measured(j: Job, disk: Disk): Disk
    requires j.cfg.pcrlock.Some?
  {
    disk.MakeDirs(Parent(Next(j))).Write(Next(j), j.site.env.lockPe(j.cfg.systemdBoot))
  }

  function FirstCopied(j: Job, disk: Disk): Disk
    requires j.cfg.pcrlock.Some?
  {
    j.AtomicWrite(Measured(j, disk), j.cfg.sign(j.cfg.systemdBoot), j.site.lay.Fallback())
  }

  function BothCopied(j: Job, disk: Disk): Disk
    requires j.cfg.pcrlock.Some?
  {
    j.AtomicWrite(FirstCopied(j, disk), j.cfg.sign(j.cfg.systemdBoot), j.site.lay.SystemdBoot())
  }

  /** Where the four paths stand at each stage of an update. */
  lemma UpdateStages(j: Job, disk: Disk)
    requires j.Valid() && j.cfg.pcrlock.Some?
    ensures var m, signed := j.site.env.lockPe(j.cfg.systemdBoot), j.cfg.sign(j.cfg.systemdBoot);
      && Holds(Measured(j, disk).fs, Next(j), m)
      && Holds(FirstCopied(j, disk).fs, Next(j), m) && Holds(FirstCopied(j, disk).fs, j.site.lay.Fallback(), signed)
      && Holds(BothCopied(j, disk).fs, Next(j), m) && Holds(BothCopied(j, disk).fs, j.site.lay.Fallback(), signed)
      && Holds(BothCopied(j, disk).fs, j.site.lay.SystemdBoot(), signed)
  {
    hide Job.Valid;
    KeysDistinct(j);
    MeasureKeys(j, disk, j.site.env.lockPe(j.cfg.systemdBoot));
    BootWriteKeys(j, Measured(j, disk), j.cfg.sign(j.cfg.systemdBoot), j.site.lay.Fallback());
    BootWriteKeys(j, FirstCopied(j, disk), j.cfg.sign(j.cfg.systemdBoot), j.site.lay.SystemdBoot());
    assert Next(j) in KeyPaths(j) && j.site.lay.Fallback() in KeyPaths(j) && j.site.lay.SystemdBoot() in KeyPaths(j);
  }

  lemma UpdateEndsWithRename(j: Job, disk: Disk)
    requires j.cfg.pcrlock.Some?
    ensures j.UpdateSystemdBoot(disk) == BothCopied(j, disk).Rename(Next(j), Current(j))
  {
    hide Job.AtomicWrite, Disk.Write, Disk.MakeDirs, Disk.Rename;
  }

  /** An update leaves "current" matching both copies, whatever it found. */
  lemma UpdateMatches(j: Job, disk: Disk)
    requires j.Valid() && j.cfg.pcrlock.Some?
    ensures CurrentMatches(j, j.UpdateSystemdBoot(disk).fs)
  {
    hide Job.UpdateSystemdBoot, BothCopied;
    UpdateStages(j, disk);
    KeysDistinct(j);
    UpdateEndsWithRename(j, disk);
    assert j.site.env.lockPe(j.cfg.sign(j.cfg.systemdBoot)) == j.site.env.lockPe(j.cfg.systemdBoot);
  }

  lemma CopiesCovered(j: Job, disk: Disk)
    requires j.Valid() && j.cfg.pcrlock.Some? && CurrentMatches(j, disk.fs)
    ensures CoveredAlong(j, disk, BothCopied(j, disk))
  {
    hide Covered, Job.AtomicWrite, CurrentMatches;
    var signed := j.cfg.sign(j.cfg.systemdBoot);
    assert j.site.env.lockPe(signed) == j.site.env.lockPe(j.cfg.systemdBoot);
    UpdateStages(j, disk);
    MeasureCovered(j, disk, j.site.env.lockPe(j.cfg.systemdBoot));
    CopyCovered(j, Measured(j, disk), signed, j.site.lay.Fallback());
    CoveredAlongTransitive(j, disk, Measured(j, disk), FirstCopied(j, disk));
    CopyCovered(j, FirstCopied(j, disk), signed, j.site.lay.SystemdBoot());
    CoveredAlongTransitive(j, disk, FirstCopied(j, disk), BothCopied(j, disk));
  }

  /** An update that starts with "current" matching is covered at each of its steps. */
  lemma UpdateCovered(j: Job, disk: Disk)
    requires j.Valid() && j.cfg.pcrlock.Some? && CurrentMatches(j, disk.fs)
    ensures CoveredAlong(j, disk, j.UpdateSystemdBoot(disk))
  {
    hide Covered, BothCopied, Job.UpdateSystemdBoot, CurrentMatches, Job.Valid;
    CopiesCovered(j, disk);
    UpdateMatches(j, disk);
    MatchesCovered(j, j.UpdateSystemdBoot(disk).fs);
    UpdateEndsWithRename(j, disk);
    CoveredAlongTransitive(j, disk, BothCopied(j, disk), j.UpdateSystemdBoot(disk));
  }

  lemma LoaderConfKeys(j: Job, st: State)
    requires j.Valid() && j.cfg.pcrlock.Some?
    ensures var r := j.InstallFile(st, j.cfg.loaderConf, j.site.lay.LoaderConf());
      && SameKeys(j, st.disk.fs, r.disk.fs)
      && (Covered(j, st.disk.fs) ==> CoveredAlong(j, st.disk, r.disk))
  {
    hide Covered, Job.AtomicWrite, Job.Valid;
    var to := j.site.lay.LoaderConf();
    BootWriteKeys(j, st.disk, j.cfg.loaderConf, to);
    assert to !in KeyPaths(j) by {
      PcrlockBelow(j, Current(j));
      PcrlockBelow(j, Next(j));
      assert j.site.lay.esp <= to;
      Apart(j, to, Current(j));
      Apart(j, to, Next(j));
      assert |to| == |j.site.lay.esp| + 2;
    }
    var d := j.AtomicWrite(st.disk, j.cfg.loaderConf, to);
    assert SameKeys(j, st.disk.fs, d.fs);
    if Covered(j, st.disk.fs) {
      forall i | |st.disk.trace| <= i < |d.trace| ensures Covered(j, d.trace[i]) {
        SameKeysCovered(j, st.disk.fs, d.trace[i]);
      }
      SameKeysCovered(j, st.disk.fs, d.fs);
    }
  }

  lemma InstallSystemdBootCovered(j: Job, st: State)
    requires j.Valid() && j.cfg.pcrlock.Some?
    ensures var r := j.InstallSystemdBoot(st);
      && (CurrentMatches(j, st.disk.fs) ==> CoveredAlong(j, st.disk, r.disk))
      && (r.status == Running && (CurrentMatches(j, st.disk.fs) || Current(j) !in st.disk.fs) ==>
          CurrentMatches(j, r.disk.fs))
  {
    var need := j.NeedsSystemdBoot(st.disk.fs);
    if CurrentMatches(j, st.disk.fs) {
      MatchesCovered(j, st.disk.fs);
    }
    if need.Some? {
      var updated := st;
      if need.value {
        updated := st.(disk := j.UpdateSystemdBoot(st.disk));
        UpdateMatches(j, st.disk);
        MatchesCovered(j, updated.disk.fs);
        if CurrentMatches(j, st.disk.fs) {
          UpdateCovered(j, st.disk);
        }
      }
      LoaderConfKeys(j, updated);
      SameKeysCovered(j, updated.disk.fs, j.InstallSystemdBoot(st).disk.fs);
      if CurrentMatches(j, st.disk.fs) {
        CoveredAlongTransitive(j, st.disk, updated.disk, j.InstallSystemdBoot(st).disk);
      }
    }
  }

  /** Neither installing generations nor the sweep touches the four paths. */
  lemma GenerationsKeepKeys(j: Job, keeps: bool, a: Disk, b: Disk)
    requires j.Valid() && j.cfg.pcrlock.Some? && FrameAlong(j, GenerationZone, keeps, a, b)
    ensures SameKeys(j, a.fs, b.fs)
    ensures Covered(j, a.fs) ==> CoveredAlong(j, a, b)
  {
    forall p | p in KeyPaths(j) ensures !InZone(j, GenerationZone, p) && p !in LeadingDirs(j) {
      KeysOutsideGenerations(j, p);
    }
    assert SameKeys(j, a.fs, b.fs);
    if Covered(j, a.fs) {
      forall i | |a.trace| <= i < |b.trace| ensures Covered(j, b.trace[i]) {
        assert SameKeys(j, a.fs, b.trace[i]);
        SameKeysCovered(j, a.fs, b.trace[i]);
      }
      SameKeysCovered(j, a.fs, b.fs);
    }
  }

  lemma BeforeSweepCovered(j: Job, fs: Fs)
    requires j.Valid() && j.cfg.pcrlock.Some?
    ensures var st := j.BeforeSweep(fs);
      && (CurrentMatches(j, fs) ==> CoveredAlong(j, Disk(fs, []), st.disk))
      && (st.status == Running && (CurrentMatches(j, fs) || Current(j) !in fs) ==> CurrentMatches(j, st.disk.fs))
  {
    var st := j.Begin(fs);
    if CurrentMatches(j, fs) {
      MatchesCovered(j, fs);
    }
    if Readable(j.Retained()) != [] {
      var installed := j.InstallAll(st, j.AllTargets());
      InstallAllFrame(j, st, j.AllTargets());
      GenerationsKeepKeys(j, true, st.disk, installed.disk);
      SameKeysCovered(j, fs, installed.disk.fs);
      assert Current(j) in KeyPaths(j);
      if installed.status == Running {
        InstallSystemdBootCovered(j, installed);
        if CurrentMatches(j, fs) {
          CoveredAlongTransitive(j, st.disk, installed.disk, j.InstallSystemdBoot(installed).disk);
        }
      }
    }
  }

  /** In a run that starts with "current" matching both installed copies, at every step each copy's
      measurement is held by "current" or "next"; when the run completes, "current" matches both
      copies, also if it did not exist before. */
  lemma BootloaderMeasurementsCovered(j: Job, fs: Fs)
    requires j.Valid() && j.cfg.pcrlock.Some?
    ensures var st := j.Install(fs);
      && (CurrentMatches(j, fs) ==> forall i | 0 <= i < |st.disk.trace| :: Covered(j, st.disk.trace[i]))
      && (st.status == Running && (CurrentMatches(j, fs) || Current(j) !in fs) ==> CurrentMatches(j, st.disk.fs))
  {
    var before, st := j.BeforeSweep(fs), j.Install(fs);
    BeforeSweepCovered(j, fs);
    if st != before {
      BeforeSweepFrame(j, fs);
      assert j.site.lay.Linux() in j.InitialRoots();
      CollectGarbageFrame(j, before.disk, before.roots);
      GenerationsKeepKeys(j, false, before.disk, st.disk);
      SameKeysCovered(j, before.disk.fs, st.disk.fs);
      if CurrentMatches(j, fs) {
        CoveredAlongTransitive(j, Disk(fs, []), before.disk, st.disk);
      }
    }
  }
}
