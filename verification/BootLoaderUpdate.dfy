/** Exactly when a run replaces the boot loader, and what it leaves in its place. */
module BootLoaderUpdate {
  import opened FileSystem
  import opened EfiPaths
  import opened Esp
  import opened Installation
  import opened InstallSafety
  import opened RunFrame
  import opened SecondRun

  /** Where the two copies of the boot loader go. */
  function Places(j: Job): set<Path> {
    {j.site.lay.esp + ["EFI", "BOOT", j.site.lay.fallbackFilename],
     j.site.lay.esp + ["EFI", "systemd", j.site.lay.systemdFilename]}
  }

  /** The copy at `to` is signed, and its version is not below that of the new binary. */
  ghost predicate CopyUpToDate(j: Job, fs: Fs, to: Path) {
    && to in fs && fs[to].File? && j.cfg.verify(fs[to].content)
    && var offered, installed := j.site.env.bootVersion(j.cfg.systemdBoot), j.site.env.bootVersion(fs[to].content);
    offered.Some? && installed.Some? && installed.value >= offered.value
  }

  /** Both copies are, and with Measured Boot there is a current measurement. */
  ghost predicate UpToDate(j: Job, fs: Fs) {
    && (forall to :: to in Places(j) ==> CopyUpToDate(j, fs, to))
    && (j.cfg.pcrlock.Some? ==> j.cfg.pcrlock.value + ["630-bootloader.pcrlock.d", "current.pcrlock"] in fs)
  }

  lemma PlacesAre(j: Job)
    ensures Places(j) == {j.site.lay.Fallback(), j.site.lay.SystemdBoot()}
    ensures j.cfg.pcrlock.Some? ==>
      j.cfg.pcrlock.value + ["630-bootloader.pcrlock.d", "current.pcrlock"] == j.BootloaderMeasurement("current")
  {
    if j.cfg.pcrlock.Some? {
      var lock, dir := j.cfg.pcrlock.value, "630-bootloader.pcrlock.d";
      assert "current" + ".pcrlock" == "current.pcrlock";
      assert lock + [dir] + ["current.pcrlock"] == lock + [dir, "current.pcrlock"];
    }
  }

  lemma NewerExactly(j: Job, fs: Fs, to: Path)
    requires j.site.env.bootVersion(j.cfg.systemdBoot).Some?
    ensures j.NewerSystemdBoot(fs, to) == Some(true) || j.NewerSystemdBoot(fs, to) == Some(false)
    ensures CopyUpToDate(j, fs, to) <==> j.NewerSystemdBoot(fs, to) == Some(false) && j.IsSigned(fs, to)
  {
  }

  /** An update is needed if and only if the boot loader is not up to date. */
  lemma NeedExactly(j: Job, fs: Fs)
    requires j.site.env.bootVersion(j.cfg.systemdBoot).Some?
    ensures j.NeedsSystemdBoot(fs) == Some(!UpToDate(j, fs))
  {
    hide Job.NewerSystemdBoot, Job.IsSigned, CopyUpToDate;
    var lay := j.site.lay;
    PlacesAre(j);
    NewerExactly(j, fs, lay.Fallback());
    NewerExactly(j, fs, lay.SystemdBoot());
    assert lay.Fallback() in Places(j) && lay.SystemdBoot() in Places(j);
    assert UpToDate(j, fs) <==>
      && CopyUpToDate(j, fs, lay.Fallback()) && CopyUpToDate(j, fs, lay.SystemdBoot())
      && (j.cfg.pcrlock.Some? ==> j.BootloaderMeasurement("current") in fs);
  }

  // ---------------------------------------------------------------------------------------------
  // The rest of a run leaves the boot loader alone

  /** The two copies are the same, and so is the presence of the current measurement. */
  ghost predicate SameLoader(j: Job, a: Fs, b: Fs) {
    && (forall to :: to in Places(j) ==> (to in a <==> to in b) && (to in a ==> a[to] == b[to]))
    && (j.cfg.pcrlock.Some? ==> (j.BootloaderMeasurement("current") in a <==> j.BootloaderMeasurement("current") in b))
  }

  lemma SameLoaderUpToDate(j: Job, a: Fs, b: Fs)
    requires SameLoader(j, a, b)
    ensures UpToDate(j, a) <==> UpToDate(j, b)
  {
    hide Places;
    PlacesAre(j);
  }

  lemma PlaceIsNoDirectory(j: Job, to: Path)
    requires j.Valid() && to in Places(j)
    ensures to !in LeadingDirs(j)
  {
    hide Job.Valid;
    var lay := j.site.lay;
    assert |to| == |lay.esp| + 3 && lay.esp <= to;
    if j.cfg.pcrlock.Some? && to in Prefixes(j.cfg.pcrlock.value) {
      OffEsp(j, j.cfg.pcrlock.value);
    }
  }

  lemma CurrentIsNoDirectory(j: Job)
    requires j.Valid() && j.cfg.pcrlock.Some?
    ensures j.BootloaderMeasurement("current") !in LeadingDirs(j)
  {
    hide Job.Valid;
    var lay, p, lock := j.site.lay, j.BootloaderMeasurement("current"), j.cfg.pcrlock.value;
    assert lock <= p && |p| == |lock| + 2;
    forall dir | dir in {lay.Nixos(), lay.Linux(), lay.FallbackDir(), lay.Systemd(), lay.Loader()}
      ensures p !in Prefixes(dir)
    {
      if p in Prefixes(dir) {
        assert lay.esp <= dir && lock <= dir;
        OffEsp(j, dir);
      }
    }
  }

  lemma GenerationsKeepLoader(j: Job, keeps: bool, a: Disk, b: Disk)
    requires j.Valid() && FrameAlong(j, GenerationZone, keeps, a, b)
    ensures SameLoader(j, a.fs, b.fs)
  {
    hide InGenerationZone, LeadingDirs, Job.Valid, Places;
    PlacesAre(j);
    forall to | to in Places(j) ensures !InZone(j, GenerationZone, to) && to !in LeadingDirs(j) {
      BootFilesOutsideGenerations(j, to);
      PlaceIsNoDirectory(j, to);
    }
    if j.cfg.pcrlock.Some? {
      CurrentOutsideGenerations(j);
      CurrentIsNoDirectory(j);
      assert !InZone(j, GenerationZone, j.BootloaderMeasurement("current"));
    }
  }

  /** The copies are `signed`, and with Measured Boot there is a current measurement. */
  ghost predicate Replaced(j: Job, fs: Fs) {
    && (forall to :: to in Places(j) ==> to in fs && fs[to] == File(j.cfg.sign(j.cfg.systemdBoot)))
    && (j.cfg.pcrlock.Some? ==> j.BootloaderMeasurement("current") in fs)
  }

  lemma ReplacedIsUpToDate(j: Job, fs: Fs)
    requires j.Valid() && Replaced(j, fs) && j.site.env.bootVersion(j.cfg.systemdBoot).Some?
    ensures UpToDate(j, fs)
  {
    hide Places;
    PlacesAre(j);
    var signed := j.cfg.sign(j.cfg.systemdBoot);
    assert j.site.env.bootVersion(signed) == j.site.env.bootVersion(j.cfg.systemdBoot) && j.cfg.verify(signed);
  }

  lemma SameLoaderReplaced(j: Job, a: Fs, b: Fs)
    requires SameLoader(j, a, b) && Replaced(j, a)
    ensures Replaced(j, b)
  {
    hide Places;
  }

  /** Installing the configuration keeps what is there. */
  lemma ConfKeepsLoader(j: Job, st: State, to: Path)
    requires j.Valid() && (to in Places(j) || (j.cfg.pcrlock.Some? && to == j.BootloaderMeasurement("current")))
    requires to in st.disk.fs
    ensures var fs := j.InstallFile(st, j.cfg.loaderConf, j.site.lay.LoaderConf()).disk.fs;
      to in fs && fs[to] == st.disk.fs[to]
  {
    hide Job.AtomicWrite, Job.Valid, Places;
    var lay, conf := j.site.lay, j.site.lay.LoaderConf();
    PlacesAre(j);
    if to in Places(j) {
      assert |to| != |conf|;
      BootFilesApart(j, conf, to);
    } else {
      MeasurementApart(j, conf, to);
    }
    AtomicWriteEffect(j, st.disk, j.cfg.loaderConf, conf, to);
  }

  lemma UpdateReplaces(j: Job, st: State)
    requires j.Valid() && j.site.env.bootVersion(j.cfg.systemdBoot).Some? && !UpToDate(j, st.disk.fs)
    ensures Replaced(j, j.InstallSystemdBoot(st).disk.fs)
  {
    hide Job.UpdateSystemdBoot, Job.Valid, Places, Job.InstallFile, Job.NeedsSystemdBoot, UpToDate;
    NeedExactly(j, st.disk.fs);
    UpdateInstalls(j, st.disk);
    PlacesAre(j);
    var updated := st.(disk := j.UpdateSystemdBoot(st.disk));
    forall to | to in Places(j)
      ensures var fs := j.InstallSystemdBoot(st).disk.fs; to in fs && fs[to] == updated.disk.fs[to]
    {
      ConfKeepsLoader(j, updated, to);
    }
    if j.cfg.pcrlock.Some? {
      ConfKeepsLoader(j, updated, j.BootloaderMeasurement("current"));
    }
  }

  lemma UpToDateStays(j: Job, st: State)
    requires j.Valid() && j.site.env.bootVersion(j.cfg.systemdBoot).Some? && UpToDate(j, st.disk.fs)
    ensures SameLoader(j, st.disk.fs, j.InstallSystemdBoot(st).disk.fs)
  {
    hide Job.UpdateSystemdBoot, Job.Valid, Places, Job.InstallFile, Job.NeedsSystemdBoot, CopyUpToDate;
    NeedExactly(j, st.disk.fs);
    PlacesAre(j);
    forall to | to in Places(j)
      ensures var fs := j.InstallSystemdBoot(st).disk.fs; to in st.disk.fs && to in fs && fs[to] == st.disk.fs[to]
    {
      PresentIfUpToDate(j, st.disk.fs, to);
      ConfKeepsLoader(j, st, to);
    }
    if j.cfg.pcrlock.Some? {
      ConfKeepsLoader(j, st, j.BootloaderMeasurement("current"));
    }
  }

  lemma PresentIfUpToDate(j: Job, fs: Fs, to: Path)
    requires CopyUpToDate(j, fs, to)
    ensures to in fs
  {
  }

  /** Before the sweep, either nothing has happened to the boot loader or both copies are new. */
  lemma BeforeSweepLoader(j: Job, fs: Fs)
    requires j.Valid() && j.site.env.bootVersion(j.cfg.systemdBoot).Some? && j.BeforeSweep(fs).status == Running
    ensures var now := j.BeforeSweep(fs).disk.fs; if UpToDate(j, fs) then SameLoader(j, fs, now) else Replaced(j, now)
  {
    hide Job.InstallAll, Job.InstallSystemdBoot, FrameAlong, Job.Valid, UpToDate, SameLoader, Replaced, Readable,
      Job.AllTargets, Job.Retained;
    var st := j.Begin(fs);
    var installed := j.InstallAll(st, j.AllTargets());
    InstallAllFrame(j, st, j.AllTargets());
    GenerationsKeepLoader(j, true, st.disk, installed.disk);
    SameLoaderUpToDate(j, fs, installed.disk.fs);
    if UpToDate(j, fs) {
      UpToDateStays(j, installed);
      SameLoaderTransitive(j, fs, installed.disk.fs, j.BeforeSweep(fs).disk.fs);
    } else {
      UpdateReplaces(j, installed);
    }
  }

  lemma SameLoaderTransitive(j: Job, a: Fs, b: Fs, c: Fs)
    requires SameLoader(j, a, b) && SameLoader(j, b, c)
    ensures SameLoader(j, a, c)
  {
    hide Places;
  }

  lemma SweepKeepsLoader(j: Job, fs: Fs)
    requires j.Valid()
    ensures SameLoader(j, j.BeforeSweep(fs).disk.fs, j.Install(fs).disk.fs)
  {
    hide Job.BeforeSweep, Job.CollectGarbage, FrameAlong, Job.Valid, Places;
    var before := j.BeforeSweep(fs);
    if j.Install(fs) != before {
      BeforeSweepFrame(j, fs);
      assert j.site.lay.Linux() in j.InitialRoots();
      CollectGarbageFrame(j, before.disk, before.roots);
      GenerationsKeepLoader(j, false, before.disk, j.Install(fs).disk);
    }
  }

  /** After a completed run the boot loader is up to date. If it was before, neither copy has changed; if not, both
      are the signed new binary. */
  lemma LoaderAfterRun(j: Job, fs: Fs)
    requires j.Valid() && j.site.env.bootVersion(j.cfg.systemdBoot).Some? && j.Install(fs).status == Running
    ensures var after := j.Install(fs).disk.fs;
      && UpToDate(j, after)
      && (UpToDate(j, fs) ==> forall to :: to in Places(j) ==> to in fs && to in after && after[to] == fs[to])
      && (!UpToDate(j, fs) ==>
          forall to :: to in Places(j) ==> to in after && after[to] == File(j.cfg.sign(j.cfg.systemdBoot)))
  {
    hide Job.BeforeSweep, Job.CollectGarbage, Job.Valid, Places, CopyUpToDate;
    var before, after := j.BeforeSweep(fs).disk.fs, j.Install(fs).disk.fs;
    BeforeSweepLoader(j, fs);
    SweepKeepsLoader(j, fs);
    if UpToDate(j, fs) {
      SameLoaderTransitive(j, fs, before, after);
      SameLoaderUpToDate(j, fs, after);
      forall to | to in Places(j) ensures to in fs {
        PresentIfUpToDate(j, fs, to);
      }
    } else {
      SameLoaderReplaced(j, before, after);
      ReplacedIsUpToDate(j, after);
    }
  }
}
