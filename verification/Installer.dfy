/** The `Installer` object: it updates its garbage collection roots, its broken generations and the
    disk in place, step by step. Its methods compute what `Installation` specifies. */
module Installer {
  import opened FileSystem
  import opened EfiPaths
  import opened StubNames
  import opened Generations
  import opened GarbageCollector
  import opened Esp
  import opened Installation

  lemma {:induction false} InstallAllConcat(j: Job, st: State, a: seq<Generation>, b: seq<Generation>)
    ensures j.InstallAll(st, a + b) == j.InstallAll(j.InstallAll(st, a), b)
    decreases |a|
  {
    if a == [] {
      assert a + b == b;
    } else if st.status == Running {
      assert (a + b)[1..] == a[1..] + b;
      InstallAllConcat(j, j.InstallGeneration(st, a[0]), a[1..], b);
    }
  }

  lemma {:induction false} TargetsConcat(a: seq<Generation>, b: seq<Generation>)
    ensures Targets(a + b) == Targets(a) + Targets(b)
    decreases |a|
  {
    if a == [] {
      assert a + b == b;
    } else {
      assert (a + b)[1..] == a[1..] + b;
      TargetsConcat(a[1..], b);
    }
  }

  lemma ReadableFirst(links: seq<GenerationLink>)
    requires links != []
    ensures Readable(links) ==
      (if links[0].generation.Some? then [links[0].generation.value] else []) + Readable(links[1..])
  {
  }

  lemma {:induction false} ReadableConcat(a: seq<GenerationLink>, b: seq<GenerationLink>)
    ensures Readable(a + b) == Readable(a) + Readable(b)
    decreases |a|
  {
    hide Readable;
    if a == [] {
      assert a + b == b && Readable([]) == [] by {
        NoneRead();
      }
    } else {
      assert (a + b)[1..] == a[1..] + b;
      ReadableConcat(a[1..], b);
      ReadableFirst(a + b);
      ReadableFirst(a);
    }
  }

  lemma NoneRead()
    ensures Readable([]) == [] && BrokenVersions([]) == {}
  {
  }

  lemma ReadOneMore(links: seq<GenerationLink>, i: nat)
    requires i < |links|
    ensures Readable(links[..i + 1]) ==
      Readable(links[..i]) + (if links[i].generation.Some? then [links[i].generation.value] else [])
    ensures BrokenVersions(links[..i + 1]) ==
      BrokenVersions(links[..i]) + (if links[i].generation.Some? then {} else {links[i].version})
  {
    hide Readable;
    assert links[..i + 1] == links[..i] + [links[i]];
    ReadableConcat(links[..i], [links[i]]);
    ReadableFirst([links[i]]);
    assert [links[i]][1..] == [];
    NoneRead();
  }

  /** One more target after those already installed. */
  lemma InstallOneMore(j: Job, st: State, gs: seq<Generation>, i: nat)
    requires i < |gs| && j.InstallAll(st, gs[..i]).status == Running
    ensures j.InstallAll(st, gs[..i + 1]) == j.InstallGeneration(j.InstallAll(st, gs[..i]), gs[i])
  {
    hide Job.InstallGeneration;
    assert gs[..i + 1] == gs[..i] + [gs[i]];
    InstallAllConcat(j, st, gs[..i], [gs[i]]);
    var s := j.InstallAll(st, gs[..i]);
    assert [gs[i]][1..] == [];
    assert j.InstallAll(s, [gs[i]]) == j.InstallAll(j.InstallGeneration(s, gs[i]), []);
  }

  /** After a failure nothing more is installed. */
  lemma StopsEarly(j: Job, st: State, gs: seq<Generation>, i: nat)
    requires i <= |gs| && (i < |gs| ==> j.InstallAll(st, gs[..i]).status != Running)
    ensures j.InstallAll(st, gs) == j.InstallAll(st, gs[..i])
  {
    SplitAt(gs, i);
    InstallAllConcat(j, st, gs[..i], gs[i..]);
    Stopped(j, j.InstallAll(st, gs[..i]), gs[i..]);
  }

  lemma SplitAt<T>(s: seq<T>, i: nat)
    requires i <= |s|
    ensures s == s[..i] + s[i..]
  {
  }

  lemma Stopped(j: Job, st: State, gs: seq<Generation>)
    requires gs == [] || st.status != Running
    ensures j.InstallAll(st, gs) == st
  {
  }

  lemma InstallGroup(j: Job, st: State, gs: seq<Generation>, i: nat)
    requires i < |gs|
    ensures j.InstallAll(st, Targets(gs[..i + 1])) ==
            j.InstallAll(j.InstallAll(st, Targets(gs[..i])), [gs[i]] + gs[i].specialisations)
  {
    TargetsOneMore(gs, i);
    InstallAllConcat(j, st, Targets(gs[..i]), [gs[i]] + gs[i].specialisations);
  }

  lemma GroupsStopEarly(j: Job, st: State, gs: seq<Generation>, i: nat)
    requires i <= |gs| && (i < |gs| ==> j.InstallAll(st, Targets(gs[..i])).status != Running)
    ensures j.InstallAll(st, Targets(gs)) == j.InstallAll(st, Targets(gs[..i]))
  {
    SplitAt(gs, i);
    TargetsConcat(gs[..i], gs[i..]);
    InstallAllConcat(j, st, Targets(gs[..i]), Targets(gs[i..]));
    Stopped(j, j.InstallAll(st, Targets(gs[..i])), Targets(gs[i..]));
  }

  class Installer {
    const job: Job
    const gcRoots: Roots
    var brokenGens: set<nat>
    var disk: Disk

    ghost function View(status: Status): State
      reads this, gcRoots
    {
      State(disk, gcRoots.paths, brokenGens, status)
    }

    /** `InstallerBuilder::build`. */
    constructor (job: Job, fs: Fs)
      ensures this.job == job && disk == Disk(fs, []) && brokenGens == {} && gcRoots.paths == job.InitialRoots()
      ensures fresh(gcRoots)
    {
      this.job := job;
      this.disk := Disk(fs, []);
      this.brokenGens := {};
      this.gcRoots := new Roots();
      new;
      gcRoots.Extend(job.InitialRoots());
    }

    method InstallFile(content: Bytes, to: Path) returns (status: Status)
      modifies this`disk
      ensures View(status) == job.InstallFile(old(View(Running)), content, to)
    {
      status := Running;
      if to in disk.fs && disk.fs[to].Dir? {
        status := Aborted;
      } else if to !in disk.fs || job.site.env.sha256(content) != job.site.env.sha256(disk.fs[to].content) {
        disk := disk.MakeDirs(Parent(to));
        disk := disk.Write(TmpPath(to), content);
        disk := disk.Rename(TmpPath(to), to);
      }
    }

    method InstallNixosCa(content: Bytes, lbl: string) returns (to: Path, status: Status)
      modifies this`disk, gcRoots
      ensures to == job.StoreTarget(content, lbl)
      ensures View(status) == job.InstallStored(old(View(Running)), content, lbl)
    {
      to := job.site.lay.Nixos() + [lbl + "-" + job.site.env.base32(job.site.env.sha256(content)) + ".efi"];
      assert lbl + "-" + job.site.env.base32(job.site.env.sha256(content)) + ".efi" ==
             lbl + job.site.StoreSuffix(job.site.env.sha256(content));
      gcRoots.Extend({to});
      status := InstallFile(content, to);
    }

    method RegisterInstalledGeneration(g: Generation) returns (outcome: Registration)
      modifies gcRoots
      ensures (View(Running), outcome) == job.Register(old(View(Running)), g)
    {
      var reading := job.ReadInstalled(disk.fs, job.IdOf(g));
      if reading.Panic? {
        return Failed;
      }
      if reading.Unreadable? {
        return NotInstalled;
      }
      gcRoots.Extend({reading.stub, reading.kernel, reading.initrd});
      if job.cfg.pcrlock.Some? {
        var measurement := job.LanzabooteMeasurement(g);
        if measurement !in disk.fs {
          return NotInstalled;
        }
        gcRoots.Extend({measurement});
      }
      outcome := Installed;
    }

    method InstallSigned(content: Bytes, to: Path)
      modifies this`disk
      ensures disk == job.AtomicWrite(old(disk), job.cfg.sign(content), to)
    {
      disk := disk.MakeDirs(Parent(to));
      disk := disk.Write(TmpPath(to), job.cfg.sign(content));
      disk := disk.Rename(TmpPath(to), to);
    }

    /** The measurement of the image, then the signed stub. */
    method InstallStub(g: Generation, image: Bytes)
      modifies this`disk, gcRoots
      ensures View(Running) == job.InstallStub(old(View(Running)), g, image)
    {
      if job.cfg.pcrlock.Some? {
        var measurement := job.LanzabooteMeasurement(g);
        disk := disk.MakeDirs(Parent(measurement));
        disk := disk.Write(measurement, job.site.env.lockPe(image));
        gcRoots.Extend({measurement});
      }
      gcRoots.Extend({job.StubTarget(g)});
      InstallSigned(image, job.StubTarget(g));
    }

    method Reinstall(g: Generation) returns (status: Status)
      modifies this`disk, gcRoots
      ensures View(status) == job.Reinstall(old(View(Running)), g)
    {
      var kernelTarget, initrdTarget;
      kernelTarget, status := InstallNixosCa(g.kernel, "kernel-" + g.KernelVersion());
      if status != Running {
        return;
      }
      if g.initrd.None? {
        return Aborted;
      }
      initrdTarget, status := InstallNixosCa(g.initrd.value, "initrd-" + g.KernelVersion());
      if status != Running {
        return;
      }
      var image := job.StubImage(g, g.initrd.value);
      if image.None? {
        return Aborted;
      }
      InstallStub(g, image.value);
    }

    method InstallGeneration(g: Generation) returns (status: Status)
      modifies this`disk, gcRoots
      ensures View(status) == job.InstallGeneration(old(View(Running)), g)
    {
      var outcome := RegisterInstalledGeneration(g);
      match outcome {
        case Failed => status := Aborted;
        case Installed => status := Running;
        case NotInstalled => status := Reinstall(g);
      }
    }

    /** Unreadable links are remembered and skipped; each generation is followed by its specialisations. */
    method InstallGenerationsFromLinks(links: seq<GenerationLink>) returns (status: Status)
      requires brokenGens == {}
      modifies this, gcRoots
      ensures brokenGens == BrokenVersions(links)
      ensures Readable(links) == [] ==>
        status == NoBootableGenerations && disk == old(disk) && gcRoots.paths == old(gcRoots.paths)
      ensures Readable(links) != [] ==>
        View(status) == job.InstallAll(State(old(disk), old(gcRoots.paths), BrokenVersions(links), Running),
          Targets(Readable(links)))
    {
      hide Readable, BrokenVersions, Targets, Job.InstallAll;
      var generations: seq<Generation> := [];
      NoneRead();
      for i := 0 to |links|
        invariant disk == old(disk) && gcRoots.paths == old(gcRoots.paths)
        invariant generations == Readable(links[..i])
        invariant brokenGens == BrokenVersions(links[..i])
      {
        ReadOneMore(links, i);
        if links[i].generation.None? {
          brokenGens := brokenGens + {links[i].version};
        } else {
          generations := generations + [links[i].generation.value];
        }
      }
      assert links[..|links|] == links;
      if generations == [] {
        return NoBootableGenerations;
      }
      status := InstallGenerations(generations);
    }

    /** The targets in order; the first failure ends the run. */
    method InstallInOrder(gs: seq<Generation>) returns (status: Status)
      modifies this`disk, gcRoots
      ensures View(status) == job.InstallAll(old(View(Running)), gs)
    {
      status := Running;
      var i := 0;
      while i < |gs| && status == Running
        invariant 0 <= i <= |gs|
        invariant View(status) == job.InstallAll(old(View(Running)), gs[..i])
      {
        InstallOneMore(job, old(View(Running)), gs, i);
        status := InstallGeneration(gs[i]);
        i := i + 1;
      }
      StopsEarly(job, old(View(Running)), gs, i);
    }

    method InstallGenerations(generations: seq<Generation>) returns (status: Status)
      modifies this`disk, gcRoots
      ensures View(status) == job.InstallAll(old(View(Running)), Targets(generations))
    {
      status := Running;
      var i := 0;
      while i < |generations| && status == Running
        invariant 0 <= i <= |generations|
        invariant View(status) == job.InstallAll(old(View(Running)), Targets(generations[..i]))
      {
        InstallGroup(job, old(View(Running)), generations, i);
        status := InstallInOrder([generations[i]] + generations[i].specialisations);
        i := i + 1;
      }
      GroupsStopEarly(job, old(View(Running)), generations, i);
    }

    method InstallSystemdBoot() returns (status: Status)
      modifies this`disk
      ensures View(status) == job.InstallSystemdBoot(old(View(Running)))
    {
      hide Job.NeedsSystemdBoot, Disk.MakeDirs, Disk.Write, Disk.Rename;
      var need := job.NeedsSystemdBoot(disk.fs);
      if need.None? {
        return Aborted;
      }
      if need.value {
        if job.cfg.pcrlock.Some? {
          var next := job.BootloaderMeasurement("next");
          disk := disk.MakeDirs(Parent(next));
          disk := disk.Write(next, job.site.env.lockPe(job.cfg.systemdBoot));
        }
        InstallSigned(job.cfg.systemdBoot, job.site.lay.Fallback());
        InstallSigned(job.cfg.systemdBoot, job.site.lay.SystemdBoot());
        if job.cfg.pcrlock.Some? {
          disk := disk.Rename(job.BootloaderMeasurement("next"), job.BootloaderMeasurement("current"));
        }
      }
      status := InstallFile(job.cfg.loaderConf, job.site.lay.LoaderConf());
    }

    /** The sweep of one directory, deleting while walking. */
    method Collect(filter: Path -> bool, dir: Path)
      modifies this`disk
      ensures disk == job.Collect(old(disk), gcRoots.paths, filter, dir)
    {
      var walk := job.site.env.walk(disk.fs, dir, GarbageIn(disk.fs, gcRoots.paths, filter, dir));
      disk := gcRoots.CollectGarbageWithFilter(disk, filter, walk);
    }

    /** `Installer::install`, on a fresh installer. */
    method Install() returns (status: Status)
      requires disk.trace == [] && brokenGens == {} && gcRoots.paths == job.InitialRoots()
      modifies this, gcRoots
      ensures View(status) == job.Install(old(disk.fs))
    {
      hide Job.InstallAll, Job.InstallSystemdBoot, SelectLinks, Readable, Targets, BrokenVersions, Sweep, GarbageIn;
      status := InstallGenerationsFromLinks(SelectLinks(job.cfg.links, job.cfg.configurationLimit));
      if status != Running {
        return;
      }
      status := InstallSystemdBoot();
      if status != Running {
        return;
      }
      if brokenGens == {} {
        Collect(Everything, job.site.lay.Nixos());
        Collect(IsOurs, job.site.lay.Linux());
        if job.cfg.pcrlock.Some? {
          Collect(Everything, job.LanzabooteDir());
        }
      }
    }
  }

  lemma TargetsOneMore(gs: seq<Generation>, i: nat)
    requires i < |gs|
    ensures Targets(gs[..i + 1]) == Targets(gs[..i]) + ([gs[i]] + gs[i].specialisations)
  {
    assert gs[..i + 1] == gs[..i] + [gs[i]];
    TargetsConcat(gs[..i], [gs[i]]);
    assert [gs[i]][1..] == [];
    assert Targets([gs[i]]) == [gs[i]] + gs[i].specialisations + Targets([gs[i]][1..]);
  }
}
