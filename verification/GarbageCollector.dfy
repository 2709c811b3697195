/** The garbage collector of `rust/tool/shared/src/gc.rs`. */
module GarbageCollector {
  import opened FileSystem

  predicate IsGarbage(roots: set<Path>, filter: Path -> bool, p: Path) {
    p !in roots && filter(p)
  }

  /** The entries below `dir` that the collector is asked to delete. */
  function GarbageIn(fs: Fs, roots: set<Path>, filter: Path -> bool, dir: Path): set<Path> {
    set p | p in fs && dir <= p && IsGarbage(roots, filter, p)
  }

  /** A directory walk lists, in any order, entries that existed when it began. Deletions happen while
      it is under way: an entry may be stale, and one below a deleted directory may be missed. */
  ghost predicate IsWalk(fs: Fs, dir: Path, garbage: set<Path>, walk: seq<Path>) {
    && (forall q :: q in walk ==> q in fs && dir <= q)
    && (forall p :: p in fs && dir <= p ==> p in walk || Shadowed(fs, walk, garbage, p))
  }

  ghost predicate Shadowed(fs: Fs, walk: seq<Path>, garbage: set<Path>, p: Path) {
    exists q :: q in walk && q in garbage && q < p && q in fs && fs[q] == Dir
  }

  function Sweep(disk: Disk, roots: set<Path>, filter: Path -> bool, walk: seq<Path>): Disk
    decreases |walk|
  {
    if walk == [] then disk
    else Sweep(if IsGarbage(roots, filter, walk[0]) then disk.Remove(walk[0]) else disk, roots, filter, walk[1..])
  }

  /** `p` has an ancestor-or-self at or below `dir` that is unrooted and accepted by the filter. */
  ghost predicate Condemned(roots: set<Path>, filter: Path -> bool, dir: Path, p: Path) {
    exists k :: |dir| <= k <= |p| && dir <= p && IsGarbage(roots, filter, p[..k])
  }

  lemma AncestorCondemns(roots: set<Path>, filter: Path -> bool, dir: Path, q: Path, p: Path)
    requires dir <= q <= p && IsGarbage(roots, filter, q)
    ensures Condemned(roots, filter, dir, p)
  {
    assert p[..|q|] == q;
  }

  /** Every state during a sweep is part of the initial one, and a path that is not condemned is in all of them. */
  lemma {:induction false} SweepSound(disk: Disk, roots: set<Path>, filter: Path -> bool, dir: Path, walk: seq<Path>)
    requires forall q :: q in walk ==> dir <= q
    ensures var d := Sweep(disk, roots, filter, walk);
      && disk.trace <= d.trace
      && (forall p :: p in d.fs ==> p in disk.fs && d.fs[p] == disk.fs[p])
      && (forall i, p :: |disk.trace| <= i < |d.trace| && p in d.trace[i] ==>
          p in disk.fs && d.trace[i][p] == disk.fs[p])
      && (forall p :: p in disk.fs && !Condemned(roots, filter, dir, p) ==> p in d.fs)
      && (forall i, p :: |disk.trace| <= i < |d.trace| && p in disk.fs && !Condemned(roots, filter, dir, p) ==>
          p in d.trace[i])
    decreases |walk|
  {
    if walk != [] {
      var q := walk[0];
      var d1 := if IsGarbage(roots, filter, q) then disk.Remove(q) else disk;
      assert q in walk;
      assert forall r :: r in walk[1..] ==> r in walk;
      forall p | p in disk.fs && !Condemned(roots, filter, dir, p) ensures p in d1.fs {
        if IsGarbage(roots, filter, q) && q <= p {
          AncestorCondemns(roots, filter, dir, q, p);
        }
      }
      SweepSound(d1, roots, filter, dir, walk[1..]);
      var d := Sweep(disk, roots, filter, walk);
      assert d1 != disk ==> d.trace[|disk.trace|] == d1.trace[|disk.trace|] == d1.fs;
    }
  }

  /** What the removal of a whole directory may leave on its way from `a` to `b`, in whatever order it proceeds. */
  ghost predicate Between(a: Fs, b: Fs, x: Fs) {
    (forall p :: p in x ==> p in a && x[p] == a[p]) && (forall p :: p in b ==> p in x)
  }

  /** The state before the `i`th of the operations that follow `disk`. */
  function StateBefore(disk: Disk, trace: seq<Fs>, i: nat): Fs
    requires |disk.trace| <= i <= |trace|
  {
    if i == |disk.trace| then disk.fs else trace[i - 1]
  }

  /** Each operation from `a` to `b` only takes entries away. */
  ghost predicate Shrinks(a: Disk, b: Disk) {
    && a.trace <= b.trace && b.fs == StateBefore(a, b.trace, |b.trace|)
    && forall i, p :: |a.trace| <= i < |b.trace| && p in b.trace[i] ==> p in StateBefore(a, b.trace, i)
  }

  lemma ShrinksTransitive(a: Disk, b: Disk, c: Disk)
    requires Shrinks(a, b) && Shrinks(b, c)
    ensures Shrinks(a, c)
  {
    assert c.trace[..|b.trace|] == b.trace;
    forall i | |a.trace| <= i <= |c.trace| ensures StateBefore(a, c.trace, i) ==
      if i < |b.trace| then StateBefore(a, b.trace, i) else StateBefore(b, c.trace, i)
    {
      if |a.trace| < i <= |b.trace| {
        assert c.trace[i - 1] == b.trace[i - 1];
      }
    }
  }

  lemma RemoveShrinks(disk: Disk, q: Path)
    ensures Shrinks(disk, disk.Remove(q))
  {
    if q in disk.fs {
      var b := disk.Remove(q);
      assert b.trace == disk.trace + [b.fs];
    }
  }

  lemma {:induction false} SweepShrinks(disk: Disk, roots: set<Path>, filter: Path -> bool, walk: seq<Path>)
    ensures Shrinks(disk, Sweep(disk, roots, filter, walk))
    decreases |walk|
  {
    hide Shrinks, Disk.Remove;
    if walk != [] {
      var d1 := if IsGarbage(roots, filter, walk[0]) then disk.Remove(walk[0]) else disk;
      SweepShrinks(d1, roots, filter, walk[1..]);
      if d1 != disk {
        RemoveShrinks(disk, walk[0]);
        ShrinksTransitive(disk, d1, Sweep(disk, roots, filter, walk));
      }
    } else {
      NothingShrinks(disk);
    }
  }

  lemma NothingShrinks(disk: Disk)
    ensures Shrinks(disk, disk)
  {
  }

  /** The same holds in the middle of every single removal. */
  lemma SweepBetween(disk: Disk, roots: set<Path>, filter: Path -> bool, dir: Path, walk: seq<Path>, i: nat, x: Fs)
    requires forall q :: q in walk ==> dir <= q
    requires |disk.trace| <= i < |Sweep(disk, roots, filter, walk).trace|
    requires var trace := Sweep(disk, roots, filter, walk).trace; Between(StateBefore(disk, trace, i), trace[i], x)
    ensures forall p :: p in x ==> p in disk.fs && x[p] == disk.fs[p]
    ensures forall p :: p in disk.fs && !Condemned(roots, filter, dir, p) ==> p in x
  {
    hide Condemned, Sweep;
    SweepSound(disk, roots, filter, dir, walk);
  }

  /** What a sweep has visited and wants gone is gone. */
  lemma {:induction false} SweepComplete(disk: Disk, roots: set<Path>, filter: Path -> bool, walk: seq<Path>, q: Path)
    requires q in walk && IsGarbage(roots, filter, q)
    ensures q !in Sweep(disk, roots, filter, walk).fs
    ensures q in disk.fs && disk.fs[q].Dir? ==> forall p :: p in Sweep(disk, roots, filter, walk).fs ==> !(q <= p)
    decreases |walk|
  {
    var d1 := if IsGarbage(roots, filter, walk[0]) then disk.Remove(walk[0]) else disk;
    if walk[0] == q {
      SweepSound(d1, roots, filter, [], walk[1..]);
    } else {
      SweepComplete(d1, roots, filter, walk[1..], q);
      if q in disk.fs && disk.fs[q].Dir? && q !in d1.fs {
        assert walk[0] <= q;
        SweepSound(d1, roots, filter, [], walk[1..]);
      }
    }
  }

  /** A path below garbage does not survive the walk. */
  lemma CondemnedIsSwept(disk: Disk, roots: set<Path>, filter: Path -> bool, dir: Path, walk: seq<Path>, q: Path,
      p: Path)
    requires IsTree(disk.fs)
    requires IsWalk(disk.fs, dir, GarbageIn(disk.fs, roots, filter, dir), walk)
    requires p in disk.fs && dir <= q <= p && IsGarbage(roots, filter, q)
    ensures p !in Sweep(disk, roots, filter, walk).fs
  {
    if q != p {
      assert p[..|q|] == q;
    }
    assert q in disk.fs;
    var g := q;
    if q !in walk {
      g :| g in walk && g in GarbageIn(disk.fs, roots, filter, dir) && g < q && disk.fs[g] == Dir;
    }
    SweepComplete(disk, roots, filter, walk, g);
    if g != p {
      assert g == p[..|g|];
    }
  }

  /** The collector computes exactly the initial paths minus the condemned ones, whatever the walk. */
  lemma CollectGarbageExact(disk: Disk, roots: set<Path>, filter: Path -> bool, dir: Path, walk: seq<Path>)
    requires IsTree(disk.fs)
    requires IsWalk(disk.fs, dir, GarbageIn(disk.fs, roots, filter, dir), walk)
    ensures Sweep(disk, roots, filter, walk).fs ==
      map p | p in disk.fs && !Condemned(roots, filter, dir, p) :: disk.fs[p]
  {
    var d := Sweep(disk, roots, filter, walk);
    SweepSound(disk, roots, filter, dir, walk);
    forall p | p in disk.fs && Condemned(roots, filter, dir, p) ensures p !in d.fs {
      var k :| |dir| <= k <= |p| && dir <= p && IsGarbage(roots, filter, p[..k]);
      CondemnedIsSwept(disk, roots, filter, dir, walk, p[..k], p);
    }
  }

  /** Visiting order and missed entries do not matter. */
  lemma CollectGarbageOrderFree(disk: Disk, roots: set<Path>, filter: Path -> bool, dir: Path, walk1: seq<Path>,
      walk2: seq<Path>)
    requires IsTree(disk.fs)
    requires IsWalk(disk.fs, dir, GarbageIn(disk.fs, roots, filter, dir), walk1)
    requires IsWalk(disk.fs, dir, GarbageIn(disk.fs, roots, filter, dir), walk2)
    ensures Sweep(disk, roots, filter, walk1).fs == Sweep(disk, roots, filter, walk2).fs
  {
    CollectGarbageExact(disk, roots, filter, dir, walk1);
    CollectGarbageExact(disk, roots, filter, dir, walk2);
  }

  /** On any file system, after a sweep no existing entry at or below `dir` is garbage. */
  lemma SweepLeavesNoGarbage(disk: Disk, roots: set<Path>, filter: Path -> bool, dir: Path, walk: seq<Path>)
    requires IsWalk(disk.fs, dir, GarbageIn(disk.fs, roots, filter, dir), walk)
    ensures GarbageIn(Sweep(disk, roots, filter, walk).fs, roots, filter, dir) == {}
  {
    var d := Sweep(disk, roots, filter, walk);
    SweepSound(disk, roots, filter, dir, walk);
    forall p | p in d.fs && dir <= p ensures !IsGarbage(roots, filter, p) {
      if IsGarbage(roots, filter, p) {
        var g := p;
        if p !in walk {
          g :| g in walk && g in GarbageIn(disk.fs, roots, filter, dir) && g < p && disk.fs[g] == Dir;
        }
        SweepComplete(disk, roots, filter, walk, g);
      }
    }
  }

  /** With nothing to collect, a sweep does nothing at all. */
  lemma {:induction false} SweepIdle(disk: Disk, roots: set<Path>, filter: Path -> bool, walk: seq<Path>)
    requires forall q :: q in walk && q in disk.fs ==> !IsGarbage(roots, filter, q)
    ensures Sweep(disk, roots, filter, walk) == disk
    decreases |walk|
  {
    if walk != [] {
      SweepIdle(disk, roots, filter, walk[1..]);
    }
  }

  /** Keeps track of the garbage collection roots. */
  class Roots {
    var paths: set<Path>

    constructor ()
      ensures paths == {}
    {
      paths := {};
    }

    method Extend(other: set<Path>)
      modifies this
      ensures paths == old(paths) + other
    {
      paths := paths + other;
    }

    predicate InUse(p: Path)
      reads this
    {
      p in paths
    }

    /** Deletes, while walking the directory, every entry that is not in use and that the filter accepts. */
    method CollectGarbageWithFilter(before: Disk, filter: Path -> bool, walk: seq<Path>) returns (disk: Disk)
      ensures disk == Sweep(before, paths, filter, walk)
    {
      disk := before;
      var i := 0;
      while i < |walk|
        invariant 0 <= i <= |walk|
        invariant Sweep(disk, paths, filter, walk[i..]) == Sweep(before, paths, filter, walk)
      {
        if !InUse(walk[i]) && filter(walk[i]) {
          disk := disk.Remove(walk[i]);
        }
        assert walk[i..][1..] == walk[i + 1..];
        i := i + 1;
      }
    }

    method CollectGarbage(before: Disk, walk: seq<Path>) returns (disk: Disk)
      ensures disk == Sweep(before, paths, _ => true, walk)
    {
      disk := CollectGarbageWithFilter(before, _ => true, walk);
    }
  }
}
