/** Measuring the sections of the running image into PCR 11. */
module Measure {
  import opened FileSystem
  import opened Sorting
  import opened TpmLog
  import opened PeImage

  // ---------------------------------------------------------------------------------------------
  // Unified sections

  datatype UnifiedSection =
    | Linux | OsRel | CmdLine | Initrd | Ucode | Splash | Dtb | DtbAuto | Hwids | Uname | Sbat | PcrSig | PcrPkey
  {
    function Rank(): nat {
      match this
      case Linux => 0
      case OsRel => 1
      case CmdLine => 2
      case Initrd => 3
      case Ucode => 4
      case Splash => 5
      case Dtb => 6
      case DtbAuto => 7
      case Hwids => 8
      case Uname => 9
      case Sbat => 10
      case PcrSig => 11
      case PcrPkey => 12
    }

    function Name(): string {
      match this
      case Linux => ".linux"
      case OsRel => ".osrel"
      case CmdLine => ".cmdline"
      case Initrd => ".initrd"
      case Ucode => ".ucode"
      case Splash => ".splash"
      case Dtb => ".dtb"
      case DtbAuto => ".dtbauto"
      case Hwids => ".hwids"
      case Uname => ".uname"
      case Sbat => ".sbat"
      case PcrSig => ".pcrsig"
      case PcrPkey => ".pcrpkey"
    }

    predicate ShouldBeMeasured() {
      !PcrSig? && !DtbAuto?
    }
  }

  function TryFrom(name: string): Option<UnifiedSection> {
    match name
    case ".linux" => Some(Linux)
    case ".osrel" => Some(OsRel)
    case ".cmdline" => Some(CmdLine)
    case ".initrd" => Some(Initrd)
    case ".ucode" => Some(Ucode)
    case ".splash" => Some(Splash)
    case ".dtb" => Some(Dtb)
    case ".dtbauto" => Some(DtbAuto)
    case ".hwids" => Some(Hwids)
    case ".uname" => Some(Uname)
    case ".sbat" => Some(Sbat)
    case ".pcrsig" => Some(PcrSig)
    case ".pcrpkey" => Some(PcrPkey)
    case _ => None
  }

  /** `try_from` and `name` are inverse to each other. */
  lemma NamesAreUnique(name: string, u: UnifiedSection)
    ensures TryFrom(name) == Some(u) <==> name == u.Name()
  {
  }

  predicate CanonicalOrder(u: UnifiedSection, v: UnifiedSection) {
    u.Rank() <= v.Rank()
  }

  lemma CanonicalOrderIsTotal()
    ensures TotalPreorder(CanonicalOrder) && Antisymmetric(CanonicalOrder)
  {
  }

  // ---------------------------------------------------------------------------------------------
  // The log

  /** The unified section that this line of the table makes the stub measure. */
  function ToMeasure(s: Section): Option<UnifiedSection> {
    if s.name.None? then None
    else
      var u := TryFrom(s.name.value);
      if u.Some? && u.value.ShouldBeMeasured() then u else None
  }

  function Selected(sections: seq<Section>): seq<UnifiedSection> {
    if sections == [] then []
    else
      var u := ToMeasure(sections[|sections| - 1]);
      Selected(sections[..|sections| - 1]) + (if u.Some? then [u.value] else [])
  }

  /** The image in memory, its section table, and what was loaded from the file system. */
  datatype Running = Running(memory: Bytes, sections: seq<Section>, kernel: Bytes, initrd: Bytes)

  /** What is measured as the contents of `u`. */
  function Contents(image: Running, u: UnifiedSection): Reading {
    var read := SectionData(image.memory, image.sections, u.Name());
    if read.Panics? then Panics
    else if u.Linux? then Data(image.kernel)
    else if u.Initrd? then Data(image.initrd)
    else read
  }

  function Pair(u: UnifiedSection, data: Bytes): seq<Event> {
    [Event(PCR_KERNEL_IMAGE, Ascii(u.Name()) + [0]), Event(PCR_KERNEL_IMAGE, data)]
  }

  /** The events for `us` in turn; `None` if reading a section panics. */
  function LogOf(image: Running, us: seq<UnifiedSection>): Option<seq<Event>> {
    if us == [] then Some([])
    else
      var u := us[|us| - 1];
      var before := LogOf(image, us[..|us| - 1]);
      if before.None? then None
      else
        match Contents(image, u)
        case Panics => None
        case Absent => before
        case Data(data) => Some(before.value + Pair(u, data))
  }

  function SortedSections(sections: seq<Section>): seq<UnifiedSection> {
    Sort(CanonicalOrder, Selected(sections))
  }

  /** `measure_image`, with a TPM that accepts every event. */
  method MeasureImage(image: Running) returns (r: Option<(nat, seq<Event>)>)
    ensures LogOf(image, SortedSections(image.sections)) == (if r.Some? then Some(r.value.1) else None)
    ensures r.Some? ==> r.value.0 == |r.value.1|
  {
    hide Sort, CanonicalOrder;
    var selected := [];
    for k := 0 to |image.sections|
      invariant selected == Selected(image.sections[..k])
    {
      assert image.sections[..k + 1][..k] == image.sections[..k];
      var name := image.sections[k].name;
      if name.Some? {
        var unified := TryFrom(name.value);
        if unified.Some? && unified.value.ShouldBeMeasured() {
          selected := selected + [unified.value];
        }
      }
    }
    assert image.sections[..|image.sections|] == image.sections;
    var sorted := Sort(CanonicalOrder, selected);
    r := MeasureSorted(image, sorted);
  }

  method MeasureSorted(image: Running, sorted: seq<UnifiedSection>) returns (r: Option<(nat, seq<Event>)>)
    ensures LogOf(image, sorted) == (if r.Some? then Some(r.value.1) else None)
    ensures r.Some? ==> r.value.0 == |r.value.1|
  {
    hide Contents, Ascii, LogOf;
    var measurements, log := 0, [];
    LogOfNone(image);
    for k := 0 to |sorted|
      invariant LogOf(image, sorted[..k]) == Some(log) && measurements == |log|
    {
      LogOfOneMore(image, sorted, k);
      var u := sorted[k];
      var read := Contents(image, u);
      if read.Panics? {
        PanicIsFinal(image, sorted, k + 1);
        return None;
      }
      if read.Data? {
        log := log + [Event(PCR_KERNEL_IMAGE, Ascii(u.Name()) + [0])];
        measurements := measurements + 1;
        assert log + [Event(PCR_KERNEL_IMAGE, read.bytes)] == LogOf(image, sorted[..k]).value + Pair(u, read.bytes);
        log := log + [Event(PCR_KERNEL_IMAGE, read.bytes)];
        measurements := measurements + 1;
      }
    }
    assert sorted[..|sorted|] == sorted;
    return Some((measurements, log));
  }

  lemma LogOfNone(image: Running)
    ensures LogOf(image, []) == Some([])
  {
  }

  lemma LogOfOneMore(image: Running, us: seq<UnifiedSection>, k: nat)
    requires k < |us|
    ensures LogOf(image, us[..k + 1]) ==
      var before := LogOf(image, us[..k]);
      if before.None? then None
      else
        match Contents(image, us[k])
        case Panics => None
        case Absent => before
        case Data(data) => Some(before.value + Pair(us[k], data))
  {
    hide Contents, Pair;
    assert us[..k + 1][..k] == us[..k];
  }

  lemma {:induction false} PanicIsFinal(image: Running, us: seq<UnifiedSection>, k: nat)
    requires k <= |us| && LogOf(image, us[..k]).None?
    ensures LogOf(image, us).None?
    decreases |us| - k
  {
    if k < |us| {
      LogOfOneMore(image, us, k);
      PanicIsFinal(image, us, k + 1);
    } else {
      assert us[..k] == us;
    }
  }

  // ---------------------------------------------------------------------------------------------
  // The canonical log

  /** The order of the UAPI specification for unified kernel images. */
  const CANONICAL: seq<UnifiedSection> :=
    [Linux, OsRel, CmdLine, Initrd, Ucode, Splash, Dtb, DtbAuto, Hwids, Uname, Sbat, PcrSig, PcrPkey]

  ghost predicate Present(sections: seq<Section>, u: UnifiedSection) {
    exists s :: s in sections && s.name == Some(u.Name())
  }

  /** Those of the first `n` canonical sections that the table names and that are measured. */
  ghost function Expected(sections: seq<Section>, n: nat): seq<UnifiedSection>
    requires n <= |CANONICAL|
  {
    if n == 0 then []
    else
      var u := CANONICAL[n - 1];
      Expected(sections, n - 1) + (if Present(sections, u) && u.ShouldBeMeasured() then [u] else [])
  }

  /** No unified section name occurs twice. */
  ghost predicate DistinctNames(sections: seq<Section>) {
    forall j, k :: 0 <= j < k < |sections| && sections[j].name.Some? && TryFrom(sections[j].name.value).Some? ==>
      sections[j].name != sections[k].name
  }

  ghost predicate NoDuplicates<T>(s: seq<T>) {
    forall j, k :: 0 <= j < k < |s| ==> s[j] != s[k]
  }

  lemma {:induction false} SameElements<T>(s: seq<T>, t: seq<T>)
    requires NoDuplicates(s) && NoDuplicates(t) && forall x :: x in s <==> x in t
    ensures multiset(s) == multiset(t)
  {
    forall x ensures multiset(s)[x] == multiset(t)[x] {
      CountsOnce(s, x);
      CountsOnce(t, x);
    }
  }

  lemma {:induction false} CountsOnce<T>(s: seq<T>, x: T)
    requires NoDuplicates(s)
    ensures multiset(s)[x] == if x in s then 1 else 0
    decreases |s|
  {
    if s != [] {
      var front := s[..|s| - 1];
      assert s == front + [s[|s| - 1]];
      CountsOnce(front, x);
    }
  }

  /** `u` is selected exactly if the table names it and it is to be measured. */
  lemma {:induction false} SelectedExactly(sections: seq<Section>, u: UnifiedSection)
    ensures u in Selected(sections) <==> Present(sections, u) && u.ShouldBeMeasured()
    decreases |sections|
  {
    hide TryFrom;
    if sections != [] {
      var front, last := sections[..|sections| - 1], sections[|sections| - 1];
      SelectedExactly(front, u);
      assert sections == front + [last];
      if last.name.Some? {
        NamesAreUnique(last.name.value, u);
      }
    }
  }

  lemma {:induction false} SelectedOnce(sections: seq<Section>)
    requires DistinctNames(sections)
    ensures NoDuplicates(Selected(sections))
    decreases |sections|
  {
    hide TryFrom;
    if sections != [] {
      var front, last := sections[..|sections| - 1], sections[|sections| - 1];
      SelectedOnce(front);
      var u := ToMeasure(last);
      if u.Some? {
        SelectedExactly(front, u.value);
        NamesAreUnique(last.name.value, u.value);
        assert forall j :: 0 <= j < |front| ==> front[j] == sections[j];
      }
    }
  }

  lemma CanonicalAt(i: nat)
    requires i < |CANONICAL|
    ensures CANONICAL[i].Rank() == i
  {
  }

  lemma CanonicalAll(u: UnifiedSection)
    ensures u.Rank() < |CANONICAL| && CANONICAL[u.Rank()] == u
  {
  }

  lemma {:induction false} ExpectedExactly(sections: seq<Section>, n: nat, u: UnifiedSection)
    requires n <= |CANONICAL|
    ensures u in Expected(sections, n) <==> u.Rank() < n && Present(sections, u) && u.ShouldBeMeasured()
    decreases n
  {
    hide CANONICAL, Present;
    if n > 0 {
      ExpectedExactly(sections, n - 1, u);
      CanonicalAt(n - 1);
      CanonicalAll(u);
    }
  }

  /** Strictly increasing in the canonical order. */
  lemma {:induction false} ExpectedIncreases(sections: seq<Section>, n: nat)
    requires n <= |CANONICAL|
    ensures forall j, k :: 0 <= j < k < |Expected(sections, n)| ==>
      Expected(sections, n)[j].Rank() < Expected(sections, n)[k].Rank()
    decreases n
  {
    hide CANONICAL, Present;
    if n > 0 {
      ExpectedIncreases(sections, n - 1);
      CanonicalAt(n - 1);
      var front := Expected(sections, n - 1);
      forall j | 0 <= j < |front| ensures front[j].Rank() < n - 1 {
        ExpectedExactly(sections, n - 1, front[j]);
      }
    }
  }

  /** With distinct names, what the stub sorted is the specification's list, restricted to what is there. */
  lemma SortedIsExpected(sections: seq<Section>)
    requires DistinctNames(sections)
    ensures SortedSections(sections) == Expected(sections, |CANONICAL|)
  {
    hide Selected, Expected, Sort, CANONICAL, Present, DistinctNames;
    var selected, expected := Selected(sections), Expected(sections, |CANONICAL|);
    CanonicalOrderIsTotal();
    SelectedOnce(sections);
    ExpectedIncreases(sections, |CANONICAL|);
    forall u ensures u in selected <==> u in expected {
      SelectedExactly(sections, u);
      ExpectedExactly(sections, |CANONICAL|, u);
      CanonicalAll(u);
    }
    SameElements(selected, expected);
    SortCorrect(CanonicalOrder, selected);
    AscendingUnique(CanonicalOrder, Sort(CanonicalOrder, selected), expected);
  }

  lemma {:induction false} FindsPresent(sections: seq<Section>, name: string, k: nat)
    requires k <= |sections|
    ensures Find(sections, name, false, k).None? <==> forall j :: k <= j < |sections| ==> sections[j].name != Some(name)
    ensures Find(sections, name, false, k).Some? ==> sections[Find(sections, name, false, k).value].name == Some(name)
    decreases |sections| - k
  {
    if k < |sections| {
      FindsPresent(sections, name, k + 1);
    }
  }

  lemma PresentHasContents(image: Running, u: UnifiedSection)
    requires Present(image.sections, u)
    ensures !Contents(image, u).Absent?
  {
    FindsPresent(image.sections, u.Name(), 0);
  }

  /** What each measured section contributes: its name with a NUL, then its contents. */
  ghost predicate Interleaved(image: Running, us: seq<UnifiedSection>, log: seq<Event>) {
    && |log| == 2 * |us|
    && forall k :: 0 <= k < |us| ==>
      && log[2 * k] == Event(PCR_KERNEL_IMAGE, Ascii(us[k].Name()) + [0])
      && Contents(image, us[k]).Data? && log[2 * k + 1] == Event(PCR_KERNEL_IMAGE, Contents(image, us[k]).bytes)
  }

  lemma LogLast(image: Running, us: seq<UnifiedSection>)
    requires us != [] && LogOf(image, us).Some? && Present(image.sections, us[|us| - 1])
    ensures var u, before := us[|us| - 1], LogOf(image, us[..|us| - 1]);
      before.Some? && Contents(image, u).Data?
        && LogOf(image, us).value == before.value + Pair(u, Contents(image, u).bytes)
  {
    hide Contents, Present, Pair;
    PresentHasContents(image, us[|us| - 1]);
  }

  lemma InterleavedMore(image: Running, us: seq<UnifiedSection>, u: UnifiedSection, log: seq<Event>)
    requires Interleaved(image, us, log) && Contents(image, u).Data?
    ensures Interleaved(image, us + [u], log + Pair(u, Contents(image, u).bytes))
  {
    hide Contents, Ascii;
    var more := log + Pair(u, Contents(image, u).bytes);
    forall k | 0 <= k < |us| ensures more[2 * k] == log[2 * k] && more[2 * k + 1] == log[2 * k + 1] {
    }
  }

  lemma {:induction false} LogInterleaved(image: Running, us: seq<UnifiedSection>)
    requires LogOf(image, us).Some?
    requires forall k :: 0 <= k < |us| ==> Present(image.sections, us[k])
    ensures Interleaved(image, us, LogOf(image, us).value)
    decreases |us|
  {
    hide Contents, Present, LogOf, Pair, Interleaved;
    if us != [] {
      var front, u := us[..|us| - 1], us[|us| - 1];
      LogLast(image, us);
      LogInterleaved(image, front);
      InterleavedMore(image, front, u, LogOf(image, front).value);
      assert us == front + [u];
    } else {
      NothingInterleaved(image);
    }
  }

  lemma NothingInterleaved(image: Running)
    ensures LogOf(image, []) == Some([]) && Interleaved(image, [], [])
  {
  }

  /** The measurement of an image with distinct names: one pair of events in PCR 11 per measured section of the
      specification's list that the table names, in that order, and nothing else. */
  lemma LogIsCanonical(image: Running)
    requires DistinctNames(image.sections) && LogOf(image, SortedSections(image.sections)).Some?
    ensures Interleaved(image, Expected(image.sections, |CANONICAL|),
      LogOf(image, SortedSections(image.sections)).value)
  {
    hide LogOf, Expected, CANONICAL, Present, DistinctNames, Interleaved, SortedSections;
    SortedIsExpected(image.sections);
    var expected := Expected(image.sections, |CANONICAL|);
    forall k | 0 <= k < |expected| ensures Present(image.sections, expected[k]) {
      ExpectedExactly(image.sections, |CANONICAL|, expected[k]);
    }
    LogInterleaved(image, expected);
  }

  // ---------------------------------------------------------------------------------------------
  // What the log does not depend on

  ghost predicate IsUnified(s: Section) {
    s.name.Some? && TryFrom(s.name.value).Some?
  }

  /** The two tables have the same unified sections, in whatever order and among whatever others. */
  ghost predicate SameUnified(a: seq<Section>, b: seq<Section>) {
    forall s :: IsUnified(s) ==> (s in a <==> s in b)
  }

  lemma FoundUnique(a: seq<Section>, b: seq<Section>, u: UnifiedSection)
    requires DistinctNames(a) && DistinctNames(b) && SameUnified(a, b)
    ensures Find(a, u.Name(), false).Some? <==> Find(b, u.Name(), false).Some?
    ensures Find(a, u.Name(), false).Some? ==> a[Find(a, u.Name(), false).value] == b[Find(b, u.Name(), false).value]
  {
    hide Find, TryFrom;
    FindsPresent(a, u.Name(), 0);
    FindsPresent(b, u.Name(), 0);
    NamesAreUnique(u.Name(), u);
    var i, j := Find(a, u.Name(), false), Find(b, u.Name(), false);
    if i.Some? {
      assert IsUnified(a[i.value]) && a[i.value] in b;
    }
    if j.Some? {
      assert IsUnified(b[j.value]) && b[j.value] in a;
    }
  }

  lemma ContentsUnique(x: Running, y: Running, u: UnifiedSection)
    requires DistinctNames(x.sections) && DistinctNames(y.sections) && SameUnified(x.sections, y.sections)
    requires y == x.(sections := y.sections)
    ensures Contents(x, u) == Contents(y, u)
  {
    hide Find, DistinctNames, SameUnified;
    FoundUnique(x.sections, y.sections, u);
  }

  lemma PresentUnique(a: seq<Section>, b: seq<Section>, u: UnifiedSection)
    requires SameUnified(a, b)
    ensures Present(a, u) <==> Present(b, u)
  {
    hide TryFrom;
    NamesAreUnique(u.Name(), u);
  }

  lemma {:induction false} ExpectedUnique(a: seq<Section>, b: seq<Section>, n: nat)
    requires SameUnified(a, b) && n <= |CANONICAL|
    ensures Expected(a, n) == Expected(b, n)
    decreases n
  {
    hide Present, SameUnified, CANONICAL;
    if n > 0 {
      ExpectedUnique(a, b, n - 1);
      PresentUnique(a, b, CANONICAL[n - 1]);
    }
  }

  lemma {:induction false} LogOfUnique(x: Running, y: Running, us: seq<UnifiedSection>)
    requires DistinctNames(x.sections) && DistinctNames(y.sections) && SameUnified(x.sections, y.sections)
    requires y == x.(sections := y.sections)
    ensures LogOf(x, us) == LogOf(y, us)
    decreases |us|
  {
    hide Contents, DistinctNames, SameUnified;
    if us != [] {
      LogOfUnique(x, y, us[..|us| - 1]);
      ContentsUnique(x, y, us[|us| - 1]);
    }
  }

  /** The log depends on the unified sections alone: neither on their order nor on the other sections. */
  lemma LogDependsOnUnified(x: Running, y: Running)
    requires DistinctNames(x.sections) && DistinctNames(y.sections) && SameUnified(x.sections, y.sections)
    requires y == x.(sections := y.sections)
    ensures LogOf(x, SortedSections(x.sections)) == LogOf(y, SortedSections(y.sections))
  {
    hide LogOf, DistinctNames, SameUnified, SortedSections, CANONICAL;
    SortedIsExpected(x.sections);
    SortedIsExpected(y.sections);
    ExpectedUnique(x.sections, y.sections, |CANONICAL|);
    LogOfUnique(x, y, SortedSections(x.sections));
  }

  lemma {:induction false} UnifiedOnce(sections: seq<Section>, s: Section)
    requires DistinctNames(sections) && IsUnified(s)
    ensures multiset(sections)[s] <= 1
    decreases |sections|
  {
    hide TryFrom;
    if sections != [] {
      var front, last := sections[..|sections| - 1], sections[|sections| - 1];
      assert sections == front + [last];
      UnifiedOnce(front, s);
      if s == last {
        assert forall j :: 0 <= j < |front| ==> front[j] == sections[j];
        assert s !in front;
      }
    }
  }

  lemma OccursTwice<T>(s: seq<T>, j: nat, k: nat)
    requires j < k < |s| && s[j] == s[k]
    ensures multiset(s)[s[j]] >= 2
  {
    assert s == s[..k] + s[k..];
    assert s[j] in s[..k] && s[k] in s[k..];
    assert multiset(s)[s[j]] == multiset(s[..k])[s[j]] + multiset(s[k..])[s[j]];
  }

  lemma AtMostOnce(a: seq<Section>, b: seq<Section>, others: seq<Section>, s: Section)
    requires DistinctNames(a) && IsUnified(s) && s !in others && multiset(b) == multiset(a + others)
    ensures multiset(b)[s] <= 1
  {
    hide DistinctNames, IsUnified;
    UnifiedOnce(a, s);
    assert multiset(a + others)[s] == multiset(a)[s] + multiset(others)[s];
    assert multiset(others)[s] == 0;
  }

  /** Mixing in sections that are not unified keeps the unified names distinct. */
  lemma StillDistinct(a: seq<Section>, b: seq<Section>, others: seq<Section>)
    requires DistinctNames(a) && multiset(b) == multiset(a + others)
    requires forall s :: s in others ==> !IsUnified(s)
    ensures DistinctNames(b)
  {
    hide IsUnified;
    forall j, k | 0 <= j < k < |b| && IsUnified(b[j]) ensures b[j].name != b[k].name {
      AtMostOnce(a, b, others, b[j]);
      if b[j] == b[k] {
        OccursTwice(b, j, k);
      }
      if b[j].name == b[k].name {
        assert IsUnified(b[k]) by {
          SameNameUnified(b[j], b[k]);
        }
        assert b[j] in multiset(b) && b[k] in multiset(b);
        assert b[j] in a && b[k] in a;
        NotBoth(a, b[j], b[k]);
      }
    }
    DistinctByUnified(b);
  }

  lemma SameNameUnified(s: Section, t: Section)
    requires s.name == t.name
    ensures IsUnified(s) <==> IsUnified(t)
  {
  }

  lemma NotBoth(a: seq<Section>, s: Section, t: Section)
    requires DistinctNames(a) && s in a && t in a && s != t && IsUnified(s)
    ensures s.name != t.name
  {
    hide TryFrom;
    var j :| 0 <= j < |a| && a[j] == s;
    var k :| 0 <= k < |a| && a[k] == t;
    assert j < k || k < j;
  }

  lemma DistinctByUnified(b: seq<Section>)
    requires forall j, k :: 0 <= j < k < |b| && IsUnified(b[j]) ==> b[j].name != b[k].name
    ensures DistinctNames(b)
  {
    hide TryFrom;
  }

  /** Permuting the section table, and mixing in sections that are not unified, changes nothing. */
  lemma LogTableOrderFree(x: Running, y: Running, others: seq<Section>)
    requires DistinctNames(x.sections) && y == x.(sections := y.sections)
    requires multiset(y.sections) == multiset(x.sections + others)
    requires forall s :: s in others ==> !IsUnified(s)
    ensures LogOf(x, SortedSections(x.sections)) == LogOf(y, SortedSections(y.sections))
  {
    hide LogOf, DistinctNames, SortedSections, IsUnified;
    StillDistinct(x.sections, y.sections, others);
    forall s | IsUnified(s) ensures s in x.sections <==> s in y.sections {
      assert s in y.sections <==> s in multiset(y.sections);
      assert s in x.sections + others <==> s in multiset(x.sections + others);
    }
    LogDependsOnUnified(x, y);
  }

  lemma ContentsOfLoaded(file: Bytes, x: Running, u: UnifiedSection)
    requires IsImage(file, x.sections, x.memory)
    ensures !Contents(x, u).Panics?
  {
    hide ByteAt;
  }

  /** For an image that was loaded from its file, measuring never panics. */
  lemma {:induction false} LoadedIsMeasured(file: Bytes, x: Running, us: seq<UnifiedSection>)
    requires IsImage(file, x.sections, x.memory)
    ensures LogOf(x, us).Some?
    decreases |us|
  {
    hide Contents, IsImage, Pair;
    if us != [] {
      LoadedIsMeasured(file, x, us[..|us| - 1]);
      ContentsOfLoaded(file, x, us[|us| - 1]);
    }
  }

  // ---------------------------------------------------------------------------------------------
  // The log spelled out

  /** The section names of the specification, in its order. */
  const SPECIFIED: seq<string> :=
    [".linux", ".osrel", ".cmdline", ".initrd", ".ucode", ".splash", ".dtb", ".dtbauto", ".hwids", ".uname", ".sbat",
     ".pcrsig", ".pcrpkey"]

  /** Those of the first `n` names that the table has, without the two that are never measured. */
  ghost function NamesMeasured(sections: seq<Section>, n: nat): seq<string>
    requires n <= |SPECIFIED|
  {
    if n == 0 then []
    else
      var name := SPECIFIED[n - 1];
      NamesMeasured(sections, n - 1)
      + (if (exists s :: s in sections && s.name == Some(name)) && name !in {".dtbauto", ".pcrsig"} then [name] else [])
  }

  function Names(us: seq<UnifiedSection>): (names: seq<string>)
    ensures |names| == |us| && forall i :: 0 <= i < |us| ==> names[i] == us[i].Name()
  {
    seq(|us|, i requires 0 <= i < |us| => us[i].Name())
  }

  lemma SpecifiedAt(i: nat)
    requires i < |CANONICAL|
    ensures |SPECIFIED| == |CANONICAL| && SPECIFIED[i] == CANONICAL[i].Name()
  {
  }

  lemma SkippedExactly(u: UnifiedSection)
    ensures u.ShouldBeMeasured() <==> u.Name() !in {".dtbauto", ".pcrsig"}
  {
    NamesAreUnique(".dtbauto", u);
    NamesAreUnique(".pcrsig", u);
  }

  lemma {:induction false} ExpectedNames(sections: seq<Section>, n: nat)
    requires n <= |CANONICAL|
    ensures n <= |SPECIFIED| && Names(Expected(sections, n)) == NamesMeasured(sections, n)
    decreases n
  {
    hide CANONICAL, SPECIFIED, UnifiedSection.Name, UnifiedSection.ShouldBeMeasured;
    if n > 0 {
      ExpectedNames(sections, n - 1);
      SpecifiedAt(n - 1);
      SkippedExactly(CANONICAL[n - 1]);
    }
  }

  ghost predicate IsMemoryOf(image: Running, s: Section, data: Bytes) {
    s.VirtualEnd() <= |image.memory| && data == image.memory[s.virtualAddress..s.VirtualEnd()]
  }

  /** The data that goes with a section name: kernel and initrd as loaded from the file system, and for the others the
      memory of the section of that name. */
  ghost predicate DataFor(image: Running, name: string, data: Bytes) {
    if name == ".linux" then data == image.kernel
    else if name == ".initrd" then data == image.initrd
    else
      exists s :: s in image.sections && s.name == Some(name) && IsMemoryOf(image, s, data)
  }

  /** Two events in PCR 11 for each name: the name with a NUL, and its data. */
  ghost predicate EventsFor(image: Running, names: seq<string>, log: seq<Event>) {
    && |log| == 2 * |names|
    && forall k :: 0 <= k < |names| ==>
      && log[2 * k] == Event(11, Ascii(names[k]) + [0])
      && log[2 * k + 1].pcr == 11 && DataFor(image, names[k], log[2 * k + 1].data)
  }

  lemma ContentsAreData(file: Bytes, image: Running, u: UnifiedSection)
    requires IsImage(file, image.sections, image.memory) && Disjoint(image.sections) && Present(image.sections, u)
    ensures Contents(image, u).Data? && DataFor(image, u.Name(), Contents(image, u).bytes)
  {
    hide Find, SectionData, Disjoint, IsImage;
    var name := u.Name();
    FindsPresent(image.sections, name, 0);
    SectionDataIsMemory(file, image.sections, image.memory, name);
    NamesAreUnique(".linux", u);
    NamesAreUnique(".initrd", u);
    var k := Find(image.sections, name, false).value;
    SectionMemory(file, image.sections, image.memory, k);
    assert image.sections[k] in image.sections && image.sections[k].name == Some(name);
    if !u.Linux? && !u.Initrd? {
      assert IsMemoryOf(image, image.sections[k], Contents(image, u).bytes);
    }
  }

  lemma InterleavedEvents(file: Bytes, image: Running, us: seq<UnifiedSection>, log: seq<Event>)
    requires IsImage(file, image.sections, image.memory) && Disjoint(image.sections)
    requires forall k :: 0 <= k < |us| ==> Present(image.sections, us[k])
    requires Interleaved(image, us, log)
    ensures EventsFor(image, Names(us), log)
  {
    hide Contents, DataFor, Present, IsImage, Disjoint, Ascii;
    forall k | 0 <= k < |us| ensures DataFor(image, us[k].Name(), Contents(image, us[k]).bytes) {
      ContentsAreData(file, image, us[k]);
    }
  }

  /** For an image loaded from its file, with distinct names and disjoint sections, the log is this: for each measured
      name of the specification that the table has, in the order of the specification, the name with a NUL and then
      the kernel, the initrd or the memory of that section; and nothing else. */
  lemma LogSpelledOut(file: Bytes, image: Running)
    requires IsImage(file, image.sections, image.memory) && Disjoint(image.sections) && DistinctNames(image.sections)
    ensures LogOf(image, SortedSections(image.sections)).Some?
    ensures var log := LogOf(image, SortedSections(image.sections)).value;
      EventsFor(image, NamesMeasured(image.sections, |SPECIFIED|), log)
  {
    hide LogOf, Expected, CANONICAL, Present, DistinctNames, Interleaved, SortedSections, IsImage, Disjoint, EventsFor,
      Names, NamesMeasured;
    var expected := Expected(image.sections, |CANONICAL|);
    LoadedIsMeasured(file, image, SortedSections(image.sections));
    LogIsCanonical(image);
    forall k | 0 <= k < |expected| ensures Present(image.sections, expected[k]) {
      ExpectedExactly(image.sections, |CANONICAL|, expected[k]);
    }
    InterleavedEvents(file, image, expected, LogOf(image, SortedSections(image.sections)).value);
    ExpectedNames(image.sections, |CANONICAL|);
    SameLengths();
  }

  lemma SameLengths()
    ensures |CANONICAL| == |SPECIFIED| == 13
  {
  }
}
