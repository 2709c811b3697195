/** NixOS generations as the tool reads them from their bootspec documents. */
module Generations {
  import opened FileSystem
  import opened EfiPaths
  import opened StubNames

  /** A system configuration. `kernel` and `initrd` are file contents, the latter with any initrd
      secrets already appended; `kernelDirname` is the name of the directory that holds the kernel. */
  datatype Generation = Generation(
    version: nat,
    buildTime: Option<string>,
    specialisationName: Option<string>,
    toplevel: string,
    label_: string,
    sortKey: string,
    init: string,
    kernelParams: seq<string>,
    kernelDirname: string,
    kernel: Bytes,
    initrd: Option<Bytes>,
    specialisations: seq<Generation>)
  {
    function DescribeSpecialisation(): string {
      match specialisationName
      case None => ""
      case Some(name) => "-" + name
    }

    /** A single line for humans. */
    function Describe(): string {
      "Generation " + Decimal(version) + DescribeSpecialisation() + ", " +
      (if buildTime.Some? then buildTime.value else "Unknown")
    }

    /** A unique short identifier. */
    function VersionTag(): string {
      Decimal(version) + DescribeSpecialisation()
    }

    function KernelVersion(): string {
      var parts := Split(kernelDirname, '-');
      parts[|parts| - 1]
    }

    function Cmdline(): string {
      Join(["init=" + init] + kernelParams, ' ')
    }

    /** Names that can be path components without a backslash, as Nix guarantees for store paths. */
    predicate WellNamed() {
      && '/' !in kernelDirname && '\\' !in kernelDirname
      && (specialisationName.Some? ==> '/' !in specialisationName.value)
    }
  }

  /** A profile link; `None` when no bootspec can be read or synthesised from it. */
  datatype GenerationLink = GenerationLink(version: nat, generation: Option<Generation>)

  // ---------------------------------------------------------------------------------------------
  // What the derived strings are

  lemma {:induction false} LastPiece(s: string, sep: char)
    ensures var parts := Split(s, sep);
      var last := parts[|parts| - 1];
      && sep !in last && EndsWith(s, last)
      && (if |parts| == 1 then last == s else |last| < |s| && s[|s| - |last| - 1] == sep)
  {
    if s != "" {
      LastPiece(s[1..], sep);
      var parts, rest := Split(s, sep), Split(s[1..], sep);
      assert s == [s[0]] + s[1..];
      if |rest| > 1 {
        assert parts[|parts| - 1] == rest[|rest| - 1];
      }
    }
  }

  /** The kernel version is what follows the last dash of the directory name, or all of it. */
  lemma KernelVersionIs(g: Generation)
    ensures var d, v := g.kernelDirname, g.KernelVersion();
      && '-' !in v && EndsWith(d, v) && (v == d || (|v| < |d| && d[|d| - |v| - 1] == '-'))
  {
    LastPiece(g.kernelDirname, '-');
  }

  /** The words of a command line, one blank between each two. */
  predicate Spells(text: string, words: seq<string>)
    decreases |words|
  {
    && words != []
    && if |words| == 1 then text == words[0]
       else words[0] + " " <= text && Spells(text[|words[0]| + 1..], words[1..])
  }

  lemma {:induction false} JoinSpells(words: seq<string>)
    requires words != []
    ensures Spells(Join(words, ' '), words)
    decreases |words|
  {
    if |words| > 1 {
      var rest := Join(words[1..], ' ');
      JoinSpells(words[1..]);
      assert Join(words, ' ') == words[0] + " " + rest;
      assert (words[0] + " " + rest)[|words[0]| + 1..] == rest;
    }
  }

  /** The command line is "init=" with the init program, and then every kernel parameter in order. */
  lemma CmdlineIs(g: Generation)
    ensures Spells(g.Cmdline(), ["init=" + g.init] + g.kernelParams)
    ensures ' ' !in g.init && (forall p :: p in g.kernelParams ==> ' ' !in p) ==>
      Split(g.Cmdline(), ' ') == ["init=" + g.init] + g.kernelParams
  {
    var words := ["init=" + g.init] + g.kernelParams;
    JoinSpells(words);
    if ' ' !in g.init && forall p :: p in g.kernelParams ==> ' ' !in p {
      assert ' ' !in words[0];
      forall i | 0 <= i < |words| ensures ' ' !in words[i] {
        if i > 0 {
          assert words[i] == g.kernelParams[i - 1] && words[i] in g.kernelParams;
        }
      }
      SplitJoin(words, ' ');
    }
  }

  lemma SpecialisationDescribed(a: Generation, b: Generation)
    requires a.DescribeSpecialisation() == b.DescribeSpecialisation()
    ensures a.specialisationName == b.specialisationName
  {
    if a.specialisationName.Some? && b.specialisationName.Some? {
      assert a.specialisationName.value == a.DescribeSpecialisation()[1..];
      assert b.specialisationName.value == b.DescribeSpecialisation()[1..];
    }
  }

  /** The version tag tells generations apart by version and specialisation. */
  lemma VersionTagUnique(a: Generation, b: Generation)
    requires a.VersionTag() == b.VersionTag()
    ensures a.version == b.version && a.specialisationName == b.specialisationName
  {
    hide Decimal, DecimalValue;
    var x, y := Decimal(a.version), Decimal(b.version);
    var s, t := a.DescribeSpecialisation(), b.DescribeSpecialisation();
    DecimalNoDash(a.version);
    DecimalNoDash(b.version);
    DecimalRoundTrip(a.version);
    DecimalRoundTrip(b.version);
    DashExactly(x, s);
    DashExactly(y, t);
    if s == "" {
      assert x + s == x && y + t == y;
    } else {
      assert s == "-" + s[1..] && t == "-" + t[1..];
      assert x + s == x + "-" + s[1..] && y + t == y + "-" + t[1..];
      SplitAtDash(x, s[1..], y, t[1..]);
    }
    SpecialisationDescribed(a, b);
  }

  lemma DashExactly(x: string, s: string)
    requires '-' !in x && (s == "" || s[0] == '-')
    ensures '-' in x + s <==> s != ""
  {
    if s != "" {
      assert (x + s)[|x|] == '-';
    }
  }
}
