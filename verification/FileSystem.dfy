/** Paths, files and an abstract disk whose every change is recorded. */
module FileSystem {

  type byte = x: int | 0 <= x < 256
  type Bytes = seq<byte>

  datatype Option<+T> = None | Some(value: T)

  /** An absolute path, as its sequence of components. `p <= q` reads "p is an ancestor of q, or q". */
  type Path = seq<string>

  datatype Node = Dir | File(content: Bytes)
  type Fs = map<Path, Node>

  function Parent(p: Path): Path {
    if p == [] then [] else p[..|p| - 1]
  }

  function Prefixes(p: Path): set<Path> {
    set k | 0 <= k <= |p| :: p[..k]
  }

  /** `remove_file` and `remove_dir_all`: nothing happens to a path that is already gone. */
  function RemoveNode(fs: Fs, q: Path): Fs {
    if q !in fs then fs
    else if fs[q].Dir? then map p | p in fs && !(q <= p) :: fs[p]
    else fs - {q}
  }

  /** Every ancestor of an existing path exists and is a directory. */
  ghost predicate IsTree(fs: Fs) {
    forall p, k {:trigger p[..k]} | p in fs && 0 <= k < |p| :: p[..k] in fs && fs[p[..k]] == Dir
  }

  /** A disk: the current files, and the state after each single file-system operation so far. */
  datatype Disk = Disk(fs: Fs, trace: seq<Fs>) {

    function Step(next: Fs): Disk {
      Disk(next, trace + [next])
    }

    /** `create_dir_all`: directories are added only where nothing exists. */
    function MakeDirs(p: Path): Disk {
      Step(fs + map q | q in Prefixes(p) && q !in fs :: Dir)
    }

    /** `File::create` truncates first; the contents follow. */
    function Write(p: Path, content: Bytes): Disk {
      Step(fs[p := File([])]).Step(fs[p := File(content)])
    }

    function Rename(from: Path, to: Path): Disk {
      if from in fs then Step((fs - {from})[to := fs[from]]) else this
    }

    function Remove(p: Path): Disk {
      if p in fs then Step(RemoveNode(fs, p)) else this
    }
  }

  /** The bytes of an ASCII string. */
  function Ascii(s: string): (b: Bytes)
    ensures |b| == |s|
  {
    seq(|s|, i requires 0 <= i < |s| => s[i] as int % 256)
  }
}
