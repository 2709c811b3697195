/** PE images: loading one into memory, and reading its sections from memory and from disk. */
module PeImage {
  import opened FileSystem
  import opened Numbers

  /** A line of the section table; `name` is `None` when it cannot be decoded. */
  datatype Section = Section(
    name: Option<string>, virtualAddress: u32, virtualSize: u32, rawPointer: u32, rawSize: u32)
  {

    function VirtualEnd(): nat {
      virtualAddress + virtualSize
    }

    /** What is copied from the file; the rest of the virtual size is zero padding. */
    function CopySize(): nat {
      if virtualSize <= rawSize then virtualSize else rawSize
    }

    function RawEnd(): nat {
      rawPointer + CopySize()
    }

    /** `i` is one of the bytes copied from the file. */
    predicate Copies(i: nat) {
      virtualAddress <= i < virtualAddress + CopySize()
    }

    /** `i` belongs to the section in memory. */
    predicate Holds(i: nat) {
      virtualAddress <= i < VirtualEnd()
    }
  }

  /** What the parser says about a file. */
  datatype Pe = Pe(sections: seq<Section>, hasRelocations: bool, entry: nat)

  datatype Status = LoadError | OutOfResources | IncompatibleVersion

  // ---------------------------------------------------------------------------------------------
  // Pages

  const PAGE := 4096

  /** `bytes_to_pages` where a `usize` has `bits` bits. */
  function BytesToPages(bytes: nat, bits: nat): nat
    requires bits >= 12
  {
    if bytes + (PAGE - 1) < Pow2(bits) then (bytes + (PAGE - 1)) / PAGE else Pow2(bits - 12)
  }

  lemma Pow2Pages(bits: nat)
    requires bits >= 12
    ensures Pow2(bits) == PAGE * Pow2(bits - 12)
  {
    PowSum(12, bits - 12);
    PowSum(6, 6);
    assert Pow2(6) == 64;
  }

  /** For every `usize`, also where rounding up would overflow: the least number of pages that hold the bytes. */
  lemma PagesSufficeExactly(bytes: nat, bits: nat, pages: nat)
    requires bits >= 12 && bytes < Pow2(bits)
    ensures PAGE * pages >= bytes <==> pages >= BytesToPages(bytes, bits)
    ensures BytesToPages(bytes, bits) < Pow2(bits)
  {
    Pow2Pages(bits);
  }

  // ---------------------------------------------------------------------------------------------
  // What loading means

  ghost predicate EndsFit(sections: seq<Section>) {
    forall k :: 0 <= k < |sections| ==> sections[k].VirtualEnd() < U32_LIMIT
  }

  ghost predicate RawFits(file: Bytes, sections: seq<Section>) {
    forall k :: 0 <= k < |sections| ==> sections[k].RawEnd() <= |file|
  }

  /** The maximum of the section ends, zero if there are none. */
  ghost predicate IsImageLength(sections: seq<Section>, n: nat) {
    && (forall k :: 0 <= k < |sections| ==> sections[k].VirtualEnd() <= n)
    && (n == 0 || exists k :: 0 <= k < |sections| && sections[k].VirtualEnd() == n)
  }

  /** The byte at `i`: from the last section of the table that copies over it, else zero. */
  ghost function ByteAt(file: Bytes, sections: seq<Section>, i: nat): byte
    requires RawFits(file, sections)
  {
    if sections == [] then 0
    else
      var last := sections[|sections| - 1];
      if last.Copies(i) then file[last.rawPointer + (i - last.virtualAddress)]
      else ByteAt(file, sections[..|sections| - 1], i)
  }

  lemma {:induction false} ByteFromLast(file: Bytes, sections: seq<Section>, i: nat, k: nat)
    requires RawFits(file, sections) && k < |sections| && sections[k].Copies(i)
    requires forall j :: k < j < |sections| ==> !sections[j].Copies(i)
    ensures ByteAt(file, sections, i) == file[sections[k].rawPointer + (i - sections[k].virtualAddress)]
    decreases |sections|
  {
    if k + 1 < |sections| {
      assert !sections[|sections| - 1].Copies(i);
      ByteFromLast(file, sections[..|sections| - 1], i, k);
    }
  }

  lemma {:induction false} ByteUncovered(file: Bytes, sections: seq<Section>, i: nat)
    requires RawFits(file, sections)
    requires forall j :: 0 <= j < |sections| ==> !sections[j].Copies(i)
    ensures ByteAt(file, sections, i) == 0
    decreases |sections|
  {
    if sections != [] {
      ByteUncovered(file, sections[..|sections| - 1], i);
    }
  }

  /** `memory` is the image of `file`. */
  ghost predicate IsImage(file: Bytes, sections: seq<Section>, memory: Bytes) {
    && EndsFit(sections) && RawFits(file, sections) && IsImageLength(sections, |memory|)
    && forall i :: 0 <= i < |memory| ==> memory[i] == ByteAt(file, sections, i)
  }

  // ---------------------------------------------------------------------------------------------
  // Loading

  /** The checked additions: the image length, or nothing on overflow of an address. */
  method ImageLength(sections: seq<Section>) returns (length: Option<nat>)
    ensures length.Some? <==> EndsFit(sections)
    ensures length.Some? ==> length.value < U32_LIMIT && IsImageLength(sections, length.value)
  {
    var max := 0;
    for k := 0 to |sections|
      invariant EndsFit(sections[..k]) && max < U32_LIMIT && IsImageLength(sections[..k], max)
    {
      ghost var next := sections[..k + 1];
      assert next[k] == sections[k];
      var end := sections[k].VirtualEnd();
      if end >= U32_LIMIT {
        return None;
      }
      if end > max {
        max := end;
      } else if max > 0 {
        ghost var j :| 0 <= j < k && sections[..k][j].VirtualEnd() == max;
        assert next[j].VirtualEnd() == max;
      }
    }
    assert sections[..|sections|] == sections;
    return Some(max);
  }

  method ZeroFill(memory: array<byte>)
    modifies memory
    ensures forall i :: 0 <= i < memory.Length ==> memory[i] == 0
  {
    for i := 0 to memory.Length
      invariant forall j :: 0 <= j < i ==> memory[j] == 0
    {
      memory[i] := 0;
    }
  }

  /** `copy_from_slice` into `memory[start..start + size]`. */
  method CopySlice(memory: array<byte>, start: nat, file: Bytes, from: nat, size: nat)
    requires start + size <= memory.Length && from + size <= |file|
    modifies memory
    ensures forall i :: 0 <= i < memory.Length ==>
      memory[i] == if start <= i < start + size then file[from + (i - start)] else old(memory[i])
  {
    for n := 0 to size
      invariant forall i :: 0 <= i < memory.Length ==>
        memory[i] == if start <= i < start + n then file[from + (i - start)] else old(memory[i])
    {
      memory[start + n] := file[from + n];
    }
  }

  /** The section loop of `Image::load`, with both bound checks; `limit` is one more than `usize::MAX`. */
  method CopySections(file: Bytes, sections: seq<Section>, memory: array<byte>, limit: nat) returns (ok: bool)
    requires EndsFit(sections) && IsImageLength(sections, memory.Length)
    requires |file| < limit && U32_LIMIT <= limit
    requires forall i :: 0 <= i < memory.Length ==> memory[i] == 0
    modifies memory
    ensures ok <==> RawFits(file, sections)
    ensures ok ==> IsImage(file, sections, memory[..])
  {
    for k := 0 to |sections|
      invariant RawFits(file, sections[..k])
      invariant forall i :: 0 <= i < memory.Length ==> memory[i] == ByteAt(file, sections[..k], i)
    {
      var s := sections[k];
      var copySize := s.CopySize();
      var rawEnd := s.rawPointer + copySize;
      var virtEnd := s.virtualAddress + copySize;
      if rawEnd >= limit || virtEnd >= limit {
        return false;
      }
      if virtEnd > memory.Length || rawEnd > |file| {
        return false;
      }
      CopySlice(memory, s.virtualAddress, file, s.rawPointer, copySize);
      assert sections[..k + 1][..k] == sections[..k] && sections[..k + 1][k] == s;
    }
    assert sections[..|sections|] == sections;
    return true;
  }

  /** The two virtual checks of the loop can never fire, whatever the width of `usize`. */
  lemma VirtualChecksNeverFire(sections: seq<Section>, length: nat, k: nat)
    requires EndsFit(sections) && IsImageLength(sections, length) && k < |sections|
    ensures sections[k].virtualAddress + sections[k].CopySize() <= length
    ensures sections[k].virtualAddress + sections[k].CopySize() < U32_LIMIT
  {
  }

  /** The page allocator of the boot services: how many pages were given out at each base address. */
  class BootServices {
    var pages: map<nat, nat>

    constructor ()
      ensures pages == map[]
    {
      pages := map[];
    }

    /** `grant` is what the firmware answers. */
    method AllocatePages(count: nat, grant: Option<nat>) returns (base: Option<nat>)
      modifies this
      ensures base == grant
      ensures pages == if grant.Some? then old(pages)[grant.value := count] else old(pages)
    {
      base := grant;
      if grant.Some? {
        pages := pages[grant.value := count];
      }
    }

    /** Only an allocation as a whole can be freed. */
    method FreePages(base: nat, count: nat) returns (ok: bool)
      modifies this
      ensures ok <==> base in old(pages) && old(pages)[base] == count
      ensures pages == if ok then old(pages) - {base} else old(pages)
    {
      ok := base in pages && pages[base] == count;
      if ok {
        pages := pages - {base};
      }
    }
  }

  datatype Image = Image(base: nat, memory: array<byte>, entry: nat)

  datatype Loading = Failed(status: Status) | Loaded(image: Image)

  /** Why loading fails, in the order of the checks; `None` if it does not. */
  ghost function Refusal(file: Bytes, pe: Option<Pe>, granted: bool, length: nat): Option<Status> {
    if pe.None? || !EndsFit(pe.value.sections) then Some(LoadError)
    else if !granted then Some(OutOfResources)
    else if !RawFits(file, pe.value.sections) then Some(LoadError)
    else if pe.value.hasRelocations then Some(IncompatibleVersion)
    else if pe.value.entry >= length then Some(LoadError)
    else None
  }

  /** What an allocation of `length` bytes leaves behind. */
  ghost function Granted(pages: map<nat, nat>, grant: Option<nat>, length: nat, bits: nat): map<nat, nat>
    requires bits >= 12
  {
    if grant.Some? then pages[grant.value := BytesToPages(length, bits)] else pages
  }

  /** `Image::load`: `garbage` is what the firmware leaves in the pages. */
  method Load(file: Bytes, pe: Option<Pe>, bits: nat, services: BootServices, grant: Option<nat>, garbage: nat -> byte)
      returns (r: Loading, ghost length: nat)
    requires bits >= 32 && U32_LIMIT <= Pow2(bits) && |file| < Pow2(bits)
    requires grant.Some? ==> grant.value !in services.pages
    modifies services
    ensures pe.Some? && EndsFit(pe.value.sections) ==> IsImageLength(pe.value.sections, length)
    ensures Refusal(file, pe, grant.Some?, length) == (if r.Failed? then Some(r.status) else None)
    ensures services.pages ==
      if pe.Some? && EndsFit(pe.value.sections) then Granted(old(services.pages), grant, length, bits)
      else old(services.pages)
    ensures r.Loaded? ==> fresh(r.image.memory) && IsImage(file, pe.value.sections, r.image.memory[..])
    ensures r.Loaded? ==> r.image.memory.Length == length < U32_LIMIT
    ensures r.Loaded? ==> r.image.entry == pe.value.entry < length && grant == Some(r.image.base)
  {
    hide Pow2, BytesToPages, IsImageLength, IsImage, EndsFit, RawFits;
    length := 0;
    if pe.None? {
      return Failed(LoadError), 0;
    }
    var end := ImageLength(pe.value.sections);
    if end.None? {
      return Failed(LoadError), 0;
    }
    length := end.value;
    var base := services.AllocatePages(BytesToPages(end.value, bits), grant);
    if base.None? {
      return Failed(OutOfResources), length;
    }
    var memory := new byte[end.value](i => garbage(i));
    ZeroFill(memory);
    var copied := CopySections(file, pe.value.sections, memory, Pow2(bits));
    if !copied {
      return Failed(LoadError), length;
    }
    if pe.value.hasRelocations {
      return Failed(IncompatibleVersion), length;
    }
    if pe.value.entry >= memory.Length {
      return Failed(LoadError), length;
    }
    r := Loaded(Image(base.value, memory, pe.value.entry));
  }

  /** What the loaded-image protocol of our own handle says; a null pointer is address zero. */
  datatype HandleState = HandleState(imageBase: nat, imageSize: nat, options: nat, optionsSize: nat)

  class LoadedImage {
    var state: HandleState

    constructor (initial: HandleState)
      ensures state == initial
    {
      state := initial;
    }
  }

  /** `Image::start`, for a kernel that returns and leaves `kernel` of what it saw in our handle. The kernel sees its
      own image and options; the pages given out for the image are given back, and the handle is as it was, except
      that absent options come back with size zero. */
  method Start(image: Image, bits: nat, services: BootServices, handle: LoadedImage, options: nat, optionsSize: u32,
               kernel: HandleState -> HandleState) returns (freed: bool, seen: HandleState)
    requires bits >= 12
    modifies services, handle
    ensures seen == HandleState(image.base, image.memory.Length, options, optionsSize)
    ensures freed <==> (image.base in old(services.pages)
                        && old(services.pages)[image.base] == BytesToPages(image.memory.Length, bits))
    ensures services.pages == if freed then old(services.pages) - {image.base} else old(services.pages)
    ensures freed ==>
      handle.state == if old(handle.state).options == 0 then old(handle.state).(optionsSize := 0) else old(handle.state)
  {
    hide BytesToPages;
    var ours := handle.state;
    handle.state := handle.state.(imageBase := image.base, imageSize := image.memory.Length);
    handle.state := handle.state.(options := options, optionsSize := optionsSize);
    seen := handle.state;
    handle.state := kernel(seen);
    freed := services.FreePages(image.base, BytesToPages(image.memory.Length, bits));
    if !freed {
      return;
    }
    handle.state := handle.state.(imageBase := ours.imageBase, imageSize := ours.imageSize);
    if ours.options != 0 {
      handle.state := handle.state.(options := ours.options, optionsSize := ours.optionsSize);
    } else {
      handle.state := handle.state.(options := 0, optionsSize := 0);
    }
  }

  /** A kernel that is loaded, started and returns costs no page and leaves the handle as it was. */
  method LoadAndStart(file: Bytes, pe: Option<Pe>, bits: nat, services: BootServices, grant: Option<nat>,
                      garbage: nat -> byte, handle: LoadedImage, options: nat, optionsSize: u32,
                      kernel: HandleState -> HandleState)
      returns (started: bool, freed: bool, ghost length: nat)
    requires bits >= 32 && U32_LIMIT <= Pow2(bits) && |file| < Pow2(bits)
    requires grant.Some? ==> grant.value !in services.pages
    requires handle.state.options == 0 ==> handle.state.optionsSize == 0
    modifies services, handle
    ensures pe.Some? && EndsFit(pe.value.sections) ==> IsImageLength(pe.value.sections, length)
    ensures started <==> Refusal(file, pe, grant.Some?, length).None?
    ensures handle.state == old(handle.state)
    ensures started ==> freed && services.pages == old(services.pages)
  {
    hide Pow2, BytesToPages, IsImageLength, IsImage, EndsFit, RawFits;
    var r;
    r, length := Load(file, pe, bits, services, grant, garbage);
    if r.Failed? {
      return false, false, length;
    }
    var seen;
    freed, seen := Start(r.image, bits, services, handle, options, optionsSize, kernel);
    started := true;
    assert services.pages == old(services.pages);
  }

  // ---------------------------------------------------------------------------------------------
  // Two readers

  datatype Reading = Absent | Panics | Data(bytes: Bytes)

  /** The first section with the name; `strict` stumbles over undecodable names, otherwise they are skipped. */
  function Find(sections: seq<Section>, name: string, strict: bool, k: nat := 0): (r: Option<nat>)
    requires k <= |sections|
    ensures r.Some? ==> k <= r.value < |sections|
    decreases |sections| - k
  {
    if k == |sections| then None
    else if sections[k].name == Some(name) || (strict && sections[k].name.None?) then Some(k)
    else Find(sections, name, strict, k + 1)
  }

  /** `read_section_data`: the lanzaboote tool reading a file. */
  function ReadSectionData(file: Bytes, sections: seq<Section>, name: string): Reading {
    match Find(sections, name, true)
    case None => Absent
    case Some(k) =>
      var s := sections[k];
      if s.name.None? || s.virtualSize > s.rawSize || s.rawPointer + s.virtualSize > |file| then Panics
      else Data(file[s.rawPointer..s.rawPointer + s.virtualSize])
  }

  /** `section_data`: the stub reading a loaded image. */
  function SectionData(memory: Bytes, sections: seq<Section>, name: string): Reading {
    match Find(sections, name, false)
    case None => Absent
    case Some(k) =>
      var s := sections[k];
      var end := s.virtualAddress + s.CopySize();
      if end > |memory| then Panics
      else Data(memory[s.virtualAddress..end] + seq(s.virtualSize - s.CopySize(), _ => 0))
  }

  ghost predicate Apart(s: Section, t: Section) {
    s.VirtualEnd() <= t.virtualAddress || t.VirtualEnd() <= s.virtualAddress || s.virtualSize == 0 || t.virtualSize == 0
  }

  /** No two sections share a byte of memory. */
  ghost predicate Disjoint(sections: seq<Section>) {
    forall j, k :: 0 <= j < k < |sections| ==> Apart(sections[j], sections[k])
  }

  ghost predicate Readable(sections: seq<Section>) {
    forall k :: 0 <= k < |sections| ==> sections[k].name.Some?
  }

  lemma DisjointAt(sections: seq<Section>, k: nat, i: nat)
    requires Disjoint(sections) && k < |sections| && sections[k].Holds(i)
    ensures forall j :: 0 <= j < |sections| && j != k ==> !sections[j].Copies(i)
  {
  }

  /** The memory of section `k`: its raw bytes, then zeros. */
  lemma SectionMemory(file: Bytes, sections: seq<Section>, memory: Bytes, k: nat)
    requires IsImage(file, sections, memory) && Disjoint(sections) && k < |sections|
    ensures sections[k].VirtualEnd() <= |memory|
    ensures var s := sections[k];
      memory[s.virtualAddress..s.VirtualEnd()] ==
      file[s.rawPointer..s.RawEnd()] + seq(s.virtualSize - s.CopySize(), _ => 0)
  {
    hide ByteAt;
    var s := sections[k];
    forall i | s.virtualAddress <= i < s.VirtualEnd()
      ensures memory[i] == if s.Copies(i) then file[s.rawPointer + (i - s.virtualAddress)] else 0
    {
      DisjointAt(sections, k, i);
      if s.Copies(i) {
        ByteFromLast(file, sections, i, k);
      } else {
        ByteUncovered(file, sections, i);
      }
    }
  }

  lemma SliceTake(b: Bytes, from: nat, to: nat, n: nat)
    requires from + n <= to <= |b|
    ensures b[from..to][..n] == b[from..from + n]
  {
  }

  /** The stub's reader returns the memory of the section, all of its virtual size. */
  lemma SectionDataIsMemory(file: Bytes, sections: seq<Section>, memory: Bytes, name: string)
    requires IsImage(file, sections, memory) && Disjoint(sections)
    ensures SectionData(memory, sections, name) ==
      match Find(sections, name, false)
      case None => Absent
      case Some(k) =>
        (assert sections[k].VirtualEnd() <= |memory|;
         Data(memory[sections[k].virtualAddress..sections[k].VirtualEnd()]))
  {
    hide ByteAt, Find;
    match Find(sections, name, false) {
      case None =>
      case Some(k) =>
        SectionMemory(file, sections, memory, k);
        var s := sections[k];
        var whole, copied := memory[s.virtualAddress..s.VirtualEnd()], file[s.rawPointer..s.RawEnd()];
        assert whole[..s.CopySize()] == copied;
        SliceTake(memory, s.virtualAddress, s.VirtualEnd(), s.CopySize());
    }
  }

  /** Both searches find the same, unless the strict one stumbles over an undecodable name first. */
  lemma {:induction false} FindsAgree(sections: seq<Section>, name: string, k: nat)
    requires k <= |sections|
    ensures var strict := Find(sections, name, true, k);
      (strict.Some? && sections[strict.value].name.None?) || strict == Find(sections, name, false, k)
    decreases |sections| - k
  {
    if k < |sections| {
      FindsAgree(sections, name, k + 1);
    }
  }

  /** The reader of files returns what the reader of memory does, with two exceptions in which it panics: an
      undecodable name before the section, and a virtual size that exceeds the raw size. */
  lemma ReadersAgree(file: Bytes, sections: seq<Section>, memory: Bytes, name: string)
    requires IsImage(file, sections, memory) && Disjoint(sections)
    ensures ReadSectionData(file, sections, name) ==
      match Find(sections, name, true)
      case None => SectionData(memory, sections, name)
      case Some(k) =>
        if sections[k].name.None? || sections[k].virtualSize > sections[k].rawSize then Panics
        else SectionData(memory, sections, name)
  {
    hide ByteAt, Find, SectionData, Disjoint;
    FindsAgree(sections, name, 0);
    SectionDataIsMemory(file, sections, memory, name);
    match Find(sections, name, true) {
      case None =>
      case Some(k) =>
        SectionMemory(file, sections, memory, k);
        var s := sections[k];
        if s.virtualSize <= s.rawSize {
          assert memory[s.virtualAddress..s.VirtualEnd()] == file[s.rawPointer..s.rawPointer + s.virtualSize];
        }
    }
  }

  /** Without undecodable names, a name that one reader finds absent is absent for the other too. */
  lemma FindsReadable(sections: seq<Section>, name: string)
    requires Readable(sections)
    ensures Find(sections, name, true) == Find(sections, name, false)
  {
    hide Find;
    FindsAgree(sections, name, 0);
  }

  // ---------------------------------------------------------------------------------------------
  // What the tool embeds in a stub

  datatype Payload = Payload(name: string, content: Bytes)

  datatype StubContents = StubContents(
    osRelease: Bytes, cmdline: Bytes, initrdPath: Bytes, kernelPath: Bytes, initrdHash: Bytes, kernelHash: Bytes)

  /** The sections of `lanzaboote_image`, in the order of their offsets. */
  function Payloads(c: StubContents): seq<Payload> {
    [Payload(".osrel", c.osRelease), Payload(".cmdline", c.cmdline), Payload(".initrd", c.initrdPath),
     Payload(".linux", c.kernelPath), Payload(".initrdh", c.initrdHash), Payload(".linuxh", c.kernelHash)]
  }

  /** Each section starts where the one before it ends. */
  function OffsetOf(start: nat, ps: seq<Payload>, k: nat): nat
    requires k <= |ps|
  {
    if k == 0 then start else OffsetOf(start, ps, k - 1) + |ps[k - 1].content|
  }

  /** `stub_offset`, relative to the image base. */
  function StubEnd(stub: seq<Section>): nat
    requires stub != []
  {
    stub[|stub| - 1].VirtualEnd()
  }

  /** What `objcopy` is asked for: the stub's own sections stay where they are in memory, and section `k` of `ps`
      is added at its offset, with exactly its content. */
  ghost predicate Wrapped(stub: seq<Section>, ps: seq<Payload>, file: Bytes, sections: seq<Section>) {
    && stub != [] && |sections| == |stub| + |ps|
    && (forall k :: 0 <= k < |stub| ==>
        && sections[k].name == stub[k].name && sections[k].virtualAddress == stub[k].virtualAddress
        && sections[k].virtualSize == stub[k].virtualSize)
    && (forall k :: 0 <= k < |ps| ==> Added(sections[|stub| + k], OffsetOf(StubEnd(stub), ps, k), ps[k], file))
  }

  ghost predicate Added(s: Section, offset: nat, p: Payload, file: Bytes) {
    && s.name == Some(p.name) && s.virtualAddress == offset && s.virtualSize == |p.content|
      && s.virtualSize <= s.rawSize
    && s.rawPointer + s.virtualSize <= |file| && file[s.rawPointer..s.rawPointer + s.virtualSize] == p.content
  }

  /** The stub's own sections are disjoint, end no later than the last one, and do not use the names of the tool. */
  ghost predicate ProperStub(stub: seq<Section>, ps: seq<Payload>) {
    && stub != [] && Disjoint(stub) && Readable(stub)
    && (forall k :: 0 <= k < |stub| ==> stub[k].VirtualEnd() <= stub[|stub| - 1].VirtualEnd())
    && (forall j, k :: 0 <= j < |stub| && 0 <= k < |ps| ==> stub[j].name != Some(ps[k].name))
  }

  lemma {:induction false} OffsetsAscend(start: nat, ps: seq<Payload>, j: nat, k: nat)
    requires j < k <= |ps|
    ensures start <= OffsetOf(start, ps, j) && OffsetOf(start, ps, j) + |ps[j].content| <= OffsetOf(start, ps, k)
    decreases k
  {
    if j + 1 < k {
      OffsetsAscend(start, ps, j, k - 1);
    } else if j > 0 {
      OffsetsAscend(start, ps, 0, j);
    }
  }

  lemma AddedAt(stub: seq<Section>, ps: seq<Payload>, file: Bytes, sections: seq<Section>, k: nat)
    requires Wrapped(stub, ps, file, sections) && |stub| <= k < |sections|
    ensures Added(sections[k], OffsetOf(StubEnd(stub), ps, k - |stub|), ps[k - |stub|], file)
  {
    assert sections[k] == sections[|stub| + (k - |stub|)];
  }

  /** An added section lies behind the stub, and behind those added before it. */
  lemma AddedBehind(stub: seq<Section>, ps: seq<Payload>, file: Bytes, sections: seq<Section>, j: nat, k: nat)
    requires ProperStub(stub, ps) && Wrapped(stub, ps, file, sections) && j < k < |sections| && |stub| <= k
    ensures sections[j].VirtualEnd() <= sections[k].virtualAddress
  {
    hide OffsetOf, Disjoint, Readable;
    var n, end := |stub|, StubEnd(stub);
    AddedAt(stub, ps, file, sections, k);
    if n <= j {
      AddedAt(stub, ps, file, sections, j);
      OffsetsAscend(end, ps, j - n, k - n);
    } else {
      assert sections[j].VirtualEnd() == stub[j].VirtualEnd() <= end;
      OffsetsAscend(end, ps, k - n, |ps|);
    }
  }

  /** Chaining the offsets keeps all sections of the assembled stub apart. */
  lemma AssembledDisjoint(stub: seq<Section>, ps: seq<Payload>, file: Bytes, sections: seq<Section>)
    requires ProperStub(stub, ps) && Wrapped(stub, ps, file, sections)
    ensures Disjoint(sections) && Readable(sections)
  {
    hide OffsetOf, Added, StubEnd;
    forall j, k | 0 <= j < k < |sections| ensures Apart(sections[j], sections[k]) {
      if |stub| <= k {
        AddedBehind(stub, ps, file, sections, j, k);
      } else {
        assert Apart(stub[j], stub[k]);
      }
    }
    forall k | 0 <= k < |sections| ensures sections[k].name.Some? {
      if |stub| <= k {
        NamedAt(stub, ps, file, sections, k);
      }
    }
  }

  lemma NamedAt(stub: seq<Section>, ps: seq<Payload>, file: Bytes, sections: seq<Section>, k: nat)
    requires Wrapped(stub, ps, file, sections) && |stub| <= k < |sections|
    ensures sections[k].name == Some(ps[k - |stub|].name)
  {
    AddedAt(stub, ps, file, sections, k);
  }

  lemma {:induction false} FindsAt(sections: seq<Section>, name: string, at: nat, k: nat)
    requires k <= at < |sections| && sections[at].name == Some(name)
    requires forall j :: k <= j < at ==> sections[j].name != Some(name)
    ensures Find(sections, name, false, k) == Some(at)
    decreases at - k
  {
    if k < at {
      FindsAt(sections, name, at, k + 1);
    }
  }

  lemma PayloadNamesDistinct(c: StubContents, j: nat, k: nat)
    requires j < k < 6
    ensures Payloads(c)[j].name != Payloads(c)[k].name
  {
    var names := [".osrel", ".cmdline", ".initrd", ".linux", ".initrdh", ".linuxh"];
    assert Payloads(c)[j].name == names[j] && Payloads(c)[k].name == names[k];
    assert |names[0]| == 6 && |names[1]| == 8 && |names[2]| == 7;
    assert |names[3]| == 6 && |names[4]| == 8 && |names[5]| == 7;
    assert names[0][1] == 'o' && names[1][1] == 'c' && names[2][1] == 'i';
    assert names[3][1] == 'l' && names[4][1] == 'i' && names[5][1] == 'l';
  }

  lemma PayloadFound(stub: seq<Section>, c: StubContents, file: Bytes, sections: seq<Section>, k: nat)
    requires k < 6 && ProperStub(stub, Payloads(c)) && Wrapped(stub, Payloads(c), file, sections)
    ensures Find(sections, Payloads(c)[k].name, false) == Some(|stub| + k)
  {
    hide OffsetOf, Payloads, StubEnd, Disjoint, Readable;
    var ps, n := Payloads(c), |stub|;
    assert |ps| == 6 by {
      SixPayloads(c);
    }
    NamedAt(stub, ps, file, sections, n + k);
    forall j | 0 <= j < n + k ensures sections[j].name != Some(ps[k].name) {
      if n <= j {
        NamedAt(stub, ps, file, sections, j);
        PayloadNamesDistinct(c, j - n, k);
      }
    }
    FindsAt(sections, ps[k].name, n + k, 0);
  }

  lemma SixPayloads(c: StubContents)
    ensures |Payloads(c)| == 6
  {
  }

  /** Across the two programs: in a stub assembled by the tool and loaded into memory, the stub reads from each
      section exactly what the tool embedded, and so does the tool when it reads the file back. */
  lemma EmbeddedIsRead(stub: seq<Section>, c: StubContents, file: Bytes, sections: seq<Section>, memory: Bytes, k: nat)
    requires k < 6 && ProperStub(stub, Payloads(c)) && Wrapped(stub, Payloads(c), file, sections)
    requires IsImage(file, sections, memory)
    ensures SectionData(memory, sections, Payloads(c)[k].name) == Data(Payloads(c)[k].content)
    ensures ReadSectionData(file, sections, Payloads(c)[k].name) == Data(Payloads(c)[k].content)
  {
    hide ByteAt, OffsetOf, Payloads, StubEnd, Find, Disjoint, Readable, IsImage, SectionData, ReadSectionData;
    SixPayloads(c);
    var p, at := Payloads(c)[k], |stub| + k;
    AssembledDisjoint(stub, Payloads(c), file, sections);
    PayloadFound(stub, c, file, sections, k);
    AddedAt(stub, Payloads(c), file, sections, at);
    SectionDataIsMemory(file, sections, memory, p.name);
    SectionMemory(file, sections, memory, at);
    assert file[sections[at].rawPointer..sections[at].RawEnd()] + [] == p.content;
    ReadersAgree(file, sections, memory, p.name);
    FindsReadable(sections, p.name);
  }

  /** What each reader finds under each name. */
  ghost predicate BothRead(file: Bytes, sections: seq<Section>, memory: Bytes, name: string, content: Bytes) {
    SectionData(memory, sections, name) == Data(content) && ReadSectionData(file, sections, name) == Data(content)
  }

  /** Section by section: the stub finds the kernel's path and hash under ".linux" and ".linuxh", the initrd's under
      ".initrd" and ".initrdh", and the command line and the os-release under their own names. */
  lemma EachSectionRead(stub: seq<Section>, c: StubContents, file: Bytes, sections: seq<Section>, memory: Bytes)
    requires ProperStub(stub, Payloads(c)) && Wrapped(stub, Payloads(c), file, sections)
    requires IsImage(file, sections, memory)
    ensures BothRead(file, sections, memory, ".osrel", c.osRelease)
    ensures BothRead(file, sections, memory, ".cmdline", c.cmdline)
    ensures BothRead(file, sections, memory, ".initrd", c.initrdPath)
    ensures BothRead(file, sections, memory, ".linux", c.kernelPath)
    ensures BothRead(file, sections, memory, ".initrdh", c.initrdHash)
    ensures BothRead(file, sections, memory, ".linuxh", c.kernelHash)
  {
    hide ProperStub, Wrapped, IsImage, SectionData, ReadSectionData;
    forall k: nat | k < 6 ensures BothRead(file, sections, memory, Payloads(c)[k].name, Payloads(c)[k].content) {
      EmbeddedIsRead(stub, c, file, sections, memory, k);
    }
    assert BothRead(file, sections, memory, Payloads(c)[0].name, Payloads(c)[0].content);
    assert BothRead(file, sections, memory, Payloads(c)[1].name, Payloads(c)[1].content);
    assert BothRead(file, sections, memory, Payloads(c)[2].name, Payloads(c)[2].content);
    assert BothRead(file, sections, memory, Payloads(c)[3].name, Payloads(c)[3].content);
    assert BothRead(file, sections, memory, Payloads(c)[4].name, Payloads(c)[4].content);
    assert BothRead(file, sections, memory, Payloads(c)[5].name, Payloads(c)[5].content);
  }
}
