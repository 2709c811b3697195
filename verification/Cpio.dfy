/** The `Cpio` object: a growing buffer and an inode counter. */
module Cpio {
  import opened FileSystem
  import opened Numbers
  import opened CpioFormat
  import opened CpioWriter
  import opened EfiPaths

  lemma {:induction false} WordsAppend(ws: seq<u32>, w: u32)
    ensures Words(ws + [w]) == Words(ws) + Word(w)
  {
    assert (ws + [w])[..|ws|] == ws;
  }

  /** `write_cpio_header`: magic, thirteen words, the NUL-terminated name, padding. */
  method WriteHeader(e: Entry) returns (cursor: Bytes, headerSize: nat)
    requires Representable(e)
    ensures cursor == HeaderBytes(e) && headerSize == |cursor|
  {
    headerSize := STATIC_HEADER_LEN;
    cursor := MAGIC;
    var fields := Fields(e);
    for i := 0 to |fields|
      invariant cursor == MAGIC + Words(fields[..i])
    {
      WordsAppend(fields[..i], fields[i]);
      assert fields[..i + 1] == fields[..i] + [fields[i]];
      cursor := cursor + Word(fields[i]);
    }
    assert fields[..|fields|] == fields;
    cursor := cursor + e.name;
    headerSize := headerSize + |e.name|;
    cursor := cursor + [0];
    headerSize := headerSize + 1;
    ComputePad4Aligns(headerSize);
    var pad := ComputePad4(headerSize);
    if pad.Some? {
      cursor := cursor + pad.value;
      headerSize := headerSize + |pad.value|;
    } else {
      assert cursor + Zeros(0) == cursor;
    }
  }

  /** `write_cpio_contents`. */
  method WriteContents(before: Bytes, headerSize: nat, contents: Bytes) returns (cursor: Bytes, totalSize: nat)
    ensures cursor == before + contents + Zeros(PadLength(|contents|))
    ensures totalSize == headerSize + |contents| + PadLength(|contents|)
  {
    totalSize := headerSize + |contents|;
    cursor := before + contents;
    ComputePad4Aligns(|contents|);
    var pad := ComputePad4(|contents|);
    if pad.Some? {
      cursor := cursor + pad.value;
      totalSize := totalSize + |pad.value|;
    } else {
      assert cursor + Zeros(0) == cursor;
    }
  }

  class Cpio {
    var buffer: Bytes
    var inodeCounter: u32

    ghost function View(): Archive
      reads this
    {
      Archive(buffer, inodeCounter)
    }

    constructor ()
      ensures View() == EMPTY
    {
      buffer, inodeCounter := [], 0;
    }

    method PackOne(fname: Bytes, contents: Bytes, targetDirPrefix: Bytes, accessMode: bv32) returns (r: Outcome)
      modifies this
      ensures (View(), r) == CpioWriter.PackOne(old(View()), fname, contents, targetDirPrefix, accessMode)
    {
      hide EntryBytes, HeaderBytes, Align, HeaderLength;
      r := CheckOne(Archive(buffer, inodeCounter), fname, contents, targetDirPrefix);
      if !r.Written? {
        return;
      }
      inodeCounter := inodeCounter + 1;
      var name := if targetDirPrefix != [] then targetDirPrefix + [SLASH] + fname else fname;
      if |name| + 1 > U32_MAX {
        return Panicked;
      }
      r := Append(PlainEntry(name, inodeCounter, accessMode | S_IFREG, contents));
    }

    /** `write_cpio_entry` into a fresh cursor, which is then appended. */
    method Append(e: Entry) returns (r: Outcome)
      requires Representable(e)
      modifies this`buffer
      ensures buffer == old(buffer) + EntryBytes(e) && r == Written(EntryLength(e))
    {
      hide HeaderBytes, HeaderLength;
      var cursor, headerSize := WriteHeader(e);
      var written;
      cursor, written := WriteContents(cursor, headerSize, e.contents);
      buffer := buffer + cursor;
      r := Written(written);
    }

    method PackDir(path: Bytes, accessMode: bv32) returns (r: Outcome)
      modifies this
      ensures (View(), r) == CpioWriter.PackDir(old(View()), path, accessMode)
    {
      hide EntryBytes, HeaderBytes, Align, HeaderLength;
      r := CheckDir(Archive(buffer, inodeCounter), path);
      if !r.Written? {
        return;
      }
      inodeCounter := inodeCounter + 1;
      if |path| + 1 > U32_MAX {
        return Panicked;
      }
      r := Append(PlainEntry(path, inodeCounter, accessMode | S_IFDIR, []));
    }

    /** All directories on the way to `path`, the last one with its own mode. */
    method PackPrefix(path: Bytes, dirMode: bv32) returns (r: Outcome)
      modifies this
      ensures (View(), r) == CpioWriter.PackPrefix(old(View()), path, dirMode)
    {
      hide CpioWriter.PackDir;
      var components := Split(path, SLASH);
      var parts := |components|;
      var ancestor: Bytes := [];
      r := Written(0);
      var n := 0;
      while n < parts && r.Written?
        invariant 0 <= n <= parts
        invariant (View(), r) == PackDirs(old(View()), components, dirMode, n)
        invariant ancestor == Rooted(components[..n])
      {
        assert components[..n + 1][..n] == components[..n];
        ancestor := ancestor + [SLASH] + components[n];
        n := n + 1;
        r := PackDir(ancestor, if n < parts then PARENT_MODE else dirMode);
      }
      StopsAtFailure(old(View()), components, dirMode, n);
    }

    method PackTrailer() returns (r: Outcome)
      modifies this
      ensures (View(), r) == CpioWriter.PackTrailer(old(View()))
    {
      r := PackOne(TRAILER, [], [], 0);
    }
  }

  /** After a failing directory nothing more is packed. */
  lemma {:induction false} StopsAtFailure(a: Archive, components: seq<Bytes>, dirMode: bv32, n: nat)
    requires a.inodes <= U32_MAX && n <= |components|
    requires n == |components| || !PackDirs(a, components, dirMode, n).1.Written?
    ensures PackDirs(a, components, dirMode, |components|) == PackDirs(a, components, dirMode, n)
    decreases |components| - n
  {
    hide CpioWriter.PackDir;
    if n < |components| {
      assert PackDirs(a, components, dirMode, n + 1) == PackDirs(a, components, dirMode, n);
      StopsAtFailure(a, components, dirMode, n + 1);
    }
  }
}
