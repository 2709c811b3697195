/** Conversions between paths on the mounted ESP and UEFI path strings. */
module EfiPaths {
  import opened FileSystem

  predicate StartsWith(s: string, t: string) {
    t <= s
  }

  predicate EndsWith(s: string, t: string) {
    |t| <= |s| && s[|s| - |t|..] == t
  }

  /** `str::replace` of one character by another. */
  function Replace(s: string, from: char, to: char): (r: string)
    ensures |r| == |s|
    ensures forall i :: 0 <= i < |s| ==> r[i] == if s[i] == from then to else s[i]
  {
    seq(|s|, i requires 0 <= i < |s| => if s[i] == from then to else s[i])
  }

  function Join(parts: seq<string>, sep: char): string {
    if parts == [] then ""
    else if |parts| == 1 then parts[0]
    else parts[0] + [sep] + Join(parts[1..], sep)
  }

  /** `str::split` on one character: always at least one piece. */
  function Split<T(==)>(s: seq<T>, sep: T): (parts: seq<seq<T>>)
    ensures parts != []
  {
    if s == [] then [[]]
    else
      var rest := Split(s[1..], sep);
      if s[0] == sep then [[]] + rest else [[s[0]] + rest[0]] + rest[1..]
  }

  /** `Path::components`: empty and `.` components vanish. */
  function Components(parts: seq<string>): Path {
    if parts == [] then []
    else if parts[0] == "" || parts[0] == "." then Components(parts[1..])
    else [parts[0]] + Components(parts[1..])
  }

  /** A component that survives the trip through a UEFI path string. */
  predicate PlainComponent(c: string) {
    c != "" && c != "." && '/' !in c && '\\' !in c
  }

  predicate Plain(p: Path) {
    forall i :: 0 <= i < |p| ==> PlainComponent(p[i])
  }

  /** `esp_relative_uefi_path`: fails for a path that is not below the ESP. */
  function EspRelativeUefiPath(esp: Path, path: Path): Option<string> {
    if esp <= path then Some("\\" + Replace(Join(path[|esp|..], '/'), '/', '\\')) else None
  }

  /** `resolve_efi_path`. `None` stands for the panic on an empty section; a second leading
      backslash makes the joined path absolute, so that it no longer depends on the ESP. */
  function ResolveEfiPath(esp: Path, efiPath: string): Option<Path> {
    if efiPath == "" then None
    else
      var unix := Replace(efiPath[1..], '\\', '/');
      Some((if StartsWith(unix, "/") then [] else esp) + Components(Split(unix, '/')))
  }

  /** How the firmware finds the file named by a UEFI path string on the volume mounted at `esp`. */
  function FirmwareLookup(esp: Path, efiPath: string): Path {
    esp + Components(Split(efiPath, '\\'))
  }

  lemma {:induction false} SplitConcat(a: string, sep: char, b: string)
    requires sep !in a
    ensures Split(a + [sep] + b, sep) == [a] + Split(b, sep)
  {
    var s := a + [sep] + b;
    if a == "" {
      assert s[1..] == b;
    } else {
      assert s[1..] == a[1..] + [sep] + b;
      SplitConcat(a[1..], sep, b);
      assert [a[0]] + a[1..] == a;
    }
  }

  lemma {:induction false} SplitPiece(a: string, sep: char)
    requires sep !in a
    ensures Split(a, sep) == [a]
  {
    if a != "" {
      SplitPiece(a[1..], sep);
      assert [a[0]] + a[1..] == a;
    }
  }

  lemma {:induction false} SplitJoin(parts: seq<string>, sep: char)
    requires parts != [] && forall i :: 0 <= i < |parts| ==> sep !in parts[i]
    ensures Split(Join(parts, sep), sep) == parts
  {
    if |parts| == 1 {
      SplitPiece(parts[0], sep);
    } else {
      SplitConcat(parts[0], sep, Join(parts[1..], sep));
      SplitJoin(parts[1..], sep);
    }
  }

  lemma {:induction false} ReplaceJoin(parts: seq<string>, from: char, to: char)
    requires forall i :: 0 <= i < |parts| ==> from !in parts[i]
    ensures Replace(Join(parts, from), from, to) == Join(parts, to)
  {
    if |parts| > 1 {
      ReplaceJoin(parts[1..], from, to);
      var rest := Join(parts[1..], from);
      assert Replace(parts[0] + [from] + rest, from, to) == parts[0] + [to] + Replace(rest, from, to);
    }
  }

  lemma {:induction false} PlainComponents(p: Path)
    requires Plain(p)
    ensures Components(p) == p
  {
    if p != [] {
      PlainComponents(p[1..]);
    }
  }

  /** The tool reads back the path it wrote, and the firmware finds the same file under it. */
  lemma UefiPathRoundTrip(esp: Path, path: Path)
    requires esp < path && Plain(path[|esp|..])
    ensures EspRelativeUefiPath(esp, path).Some?
    ensures ResolveEfiPath(esp, EspRelativeUefiPath(esp, path).value) == Some(path)
    ensures FirmwareLookup(esp, EspRelativeUefiPath(esp, path).value) == path
  {
    var rel := path[|esp|..];
    var uefi := Join(rel, '\\');
    ReplaceJoin(rel, '/', '\\');
    var efiPath := EspRelativeUefiPath(esp, path).value;
    assert efiPath == "\\" + uefi && efiPath[1..] == uefi;
    SplitJoin(rel, '\\');
    PlainComponents(rel);
    assert Split(efiPath, '\\') == [""] + rel by {
      SplitConcat("", '\\', uefi);
      assert "" + ['\\'] + uefi == efiPath;
    }
    assert ([""] + rel)[1..] == rel;
    ReplaceJoin(rel, '\\', '/');
    SplitJoin(rel, '/');
    assert Join(rel, '/')[0] == rel[0][0];
    assert rel[0][0] != '/';
    assert esp + rel == path;
  }

  lemma {:induction false} SplitInvents(s: string, sep: char, c: char)
    requires c !in s
    ensures forall i :: 0 <= i < |Split(s, sep)| ==> c !in Split(s, sep)[i]
  {
    if s != "" {
      SplitInvents(s[1..], sep, c);
    }
  }

  lemma {:induction false} ComponentsInvent(parts: seq<string>, c: char)
    requires forall i :: 0 <= i < |parts| ==> c !in parts[i]
    ensures forall i :: 0 <= i < |Components(parts)| ==> c !in Components(parts)[i]
  {
    if parts != [] {
      ComponentsInvent(parts[1..], c);
    }
  }

  /** For real file names, a backslash is exactly what breaks the round trip. */
  lemma RoundTripExactly(esp: Path, path: Path)
    requires esp < path
    requires forall i :: |esp| <= i < |path| ==> path[i] != "" && path[i] != "." && '/' !in path[i]
    ensures ResolveEfiPath(esp, EspRelativeUefiPath(esp, path).value) == Some(path) <==> Plain(path[|esp|..])
  {
    if Plain(path[|esp|..]) {
      UefiPathRoundTrip(esp, path);
    } else {
      var efiPath := EspRelativeUefiPath(esp, path).value;
      var unix := Replace(efiPath[1..], '\\', '/');
      SplitInvents(unix, '/', '\\');
      ComponentsInvent(Split(unix, '/'), '\\');
      var i :| |esp| <= i < |path| && !PlainComponent(path[i]);
      var resolved := ResolveEfiPath(esp, efiPath).value;
      if |resolved| == |path| {
        assert '\\' !in resolved[i];
      }
    }
  }

  /** The index of the last dot of a file name. */
  function LastDot(name: string): (i: int)
    ensures -1 <= i < |name|
    ensures i >= 0 ==> name[i] == '.'
    ensures forall j :: i < j < |name| ==> name[j] != '.'
  {
    if name == "" then -1
    else if name[|name| - 1] == '.' then |name| - 1
    else LastDot(name[..|name| - 1])
  }

  /** `with_extension(".tmp")`: the extension is replaced, and the new one already carries a dot. */
  function TmpName(name: string): (r: string)
    ensures EndsWith(r, "..tmp")
  {
    var i := LastDot(name);
    (if i > 0 then name[..i] else name) + "..tmp"
  }

  function TmpPath(p: Path): Path {
    if p == [] then [] else p[..|p| - 1] + [TmpName(p[|p| - 1])]
  }
}
