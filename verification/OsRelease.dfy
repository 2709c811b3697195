/** The os-release parser and printer of `rust/tool/shared/src/os_release.rs`. */
module OsRelease {
  import opened FileSystem
  import opened Generations
  import opened StubNames

  type Entries = map<string, string>

  datatype State =
    | PreKey | Key | PreValue | Value | ValueEscape
    | SingleQuoteValue | DoubleQuoteValue | DoubleQuoteValueEscape
    | Comment | CommentEscape

  predicate StartsComment(c: char) {
    c == '#' || c == ';'
  }

  predicate IsNewline(c: char) {
    c == '\r' || c == '\n'
  }

  predicate IsBlank(c: char) {
    c == ' ' || c == '\t' || IsNewline(c)
  }

  predicate NeedsShellEscape(c: char) {
    c == '"' || c == '\\' || c == '`' || c == '$'
  }

  /** The Unicode White_Space property, which `trim_end` goes by. */
  predicate IsWhitespace(c: char) {
    || '\U{0009}' <= c <= '\U{000D}' || c == ' ' || c == '\U{0085}' || c == '\U{00A0}' || c == '\U{1680}'
    || '\U{2000}' <= c <= '\U{200A}' || c == '\U{2028}' || c == '\U{2029}' || c == '\U{202F}'
    || c == '\U{205F}' || c == '\U{3000}'
  }

  function TrimEnd(s: string): (r: string)
    ensures r <= s
    ensures r != "" ==> !IsWhitespace(r[|r| - 1])
  {
    if s != "" && IsWhitespace(s[|s| - 1]) then TrimEnd(s[..|s| - 1]) else s
  }

  /** The four variables of the parser's loop. */
  datatype Scan = Scan(state: State, key: string, value: string, entries: Entries) {
    function Insert(v: string): Entries {
      entries[TrimEnd(key) := v]
    }
  }

  const START := Scan(PreKey, "", "", map[])

  function Step(s: Scan, c: char): Scan {
    match s.state
    case PreKey =>
      if StartsComment(c) then s.(state := Comment)
      else if !IsBlank(c) then s.(state := Key, key := s.key + [c])
      else s
    case Key =>
      if IsNewline(c) then s.(state := PreKey, key := "")
      else if c == '=' then s.(state := PreValue)
      else s.(key := s.key + [c])
    case PreValue =>
      if IsNewline(c) then Scan(PreKey, "", "", s.Insert(s.value))
      else if c == '\'' then s.(state := SingleQuoteValue)
      else if c == '"' then s.(state := DoubleQuoteValue)
      else if c == '\\' then s.(state := ValueEscape)
      else if !IsBlank(c) then s.(state := Value, value := s.value + [c])
      else s
    case Value =>
      if IsNewline(c) then Scan(PreKey, "", "", s.Insert(TrimEnd(s.value)))
      else if c == '\\' then s.(state := ValueEscape)
      else s.(value := s.value + [c])
    case ValueEscape =>
      if IsNewline(c) then s.(state := Value) else s.(state := Value, value := s.value + [c])
    case SingleQuoteValue =>
      if c == '\'' then s.(state := PreValue) else s.(value := s.value + [c])
    case DoubleQuoteValue =>
      if c == '"' then s.(state := PreValue)
      else if c == '\\' then s.(state := DoubleQuoteValueEscape)
      else s.(value := s.value + [c])
    case DoubleQuoteValueEscape =>
      if NeedsShellEscape(c) then s.(state := DoubleQuoteValue, value := s.value + [c])
      else if c != '\n' then s.(state := DoubleQuoteValue, value := s.value + ['\\', c])
      else s.(state := DoubleQuoteValue)
    case Comment =>
      if c == '\\' then s.(state := CommentEscape)
      else if IsNewline(c) then s.(state := PreKey)
      else s
    case CommentEscape =>
      if IsNewline(c) then s.(state := PreKey) else s.(state := Comment)
  }

  function Run(s: Scan, text: string): Scan
    decreases |text|
  {
    if text == "" then s else Run(Step(s, text[0]), text[1..])
  }

  /** An entry that the end of the text cuts short is still recorded. */
  function Finish(s: Scan): Entries {
    match s.state
    case PreValue | ValueEscape | SingleQuoteValue | DoubleQuoteValue | DoubleQuoteValueEscape => s.Insert(s.value)
    case Value => s.Insert(TrimEnd(s.value))
    case PreKey | Key | Comment | CommentEscape => s.entries
  }

  function Parse(text: string): Entries {
    Finish(Run(START, text))
  }

  method FromStr(text: string) returns (entries: Entries)
    ensures entries == Parse(text)
  {
    entries := map[];
    var state := PreKey;
    var key, value := "", "";
    var i := 0;
    while i < |text|
      invariant 0 <= i <= |text|
      invariant Run(Scan(state, key, value, entries), text[i..]) == Run(START, text)
    {
      var c := text[i];
      assert text[i..][0] == c && text[i..][1..] == text[i + 1..];
      match state {
        case PreKey =>
          if StartsComment(c) {
            state := Comment;
          } else if !IsBlank(c) {
            state, key := Key, key + [c];
          }
        case Key =>
          if IsNewline(c) {
            state, key := PreKey, "";
          } else if c == '=' {
            state := PreValue;
          } else {
            key := key + [c];
          }
        case PreValue =>
          if IsNewline(c) {
            state := PreKey;
            entries := entries[TrimEnd(key) := value];
            key, value := "", "";
          } else if c == '\'' {
            state := SingleQuoteValue;
          } else if c == '"' {
            state := DoubleQuoteValue;
          } else if c == '\\' {
            state := ValueEscape;
          } else if !IsBlank(c) {
            state, value := Value, value + [c];
          }
        case Value =>
          if IsNewline(c) {
            state := PreKey;
            entries := entries[TrimEnd(key) := TrimEnd(value)];
            key, value := "", "";
          } else if c == '\\' {
            state := ValueEscape;
          } else {
            value := value + [c];
          }
        case ValueEscape =>
          state := Value;
          if !IsNewline(c) {
            value := value + [c];
          }
        case SingleQuoteValue =>
          if c == '\'' {
            state := PreValue;
          } else {
            value := value + [c];
          }
        case DoubleQuoteValue =>
          if c == '"' {
            state := PreValue;
          } else if c == '\\' {
            state := DoubleQuoteValueEscape;
          } else {
            value := value + [c];
          }
        case DoubleQuoteValueEscape =>
          state := DoubleQuoteValue;
          if NeedsShellEscape(c) {
            value := value + [c];
          } else if c != '\n' {
            value := value + ['\\', c];
          }
        case Comment =>
          if c == '\\' {
            state := CommentEscape;
          } else if IsNewline(c) {
            state := PreKey;
          }
        case CommentEscape =>
          state := if IsNewline(c) then PreKey else Comment;
      }
      i := i + 1;
    }
    if state in {PreValue, Value, ValueEscape, SingleQuoteValue, DoubleQuoteValue, DoubleQuoteValueEscape} {
      entries := entries[TrimEnd(key) := if state == Value then TrimEnd(value) else value];
    }
  }

  // ---------------------------------------------------------------------------------------------
  // Scanning piece by piece

  lemma {:induction false} RunConcat(s: Scan, a: string, b: string)
    ensures Run(s, a + b) == Run(Run(s, a), b)
    decreases |a|
  {
    if a == "" {
      assert a + b == b;
    } else {
      assert (a + b)[1..] == a[1..] + b;
      RunConcat(Step(s, a[0]), a[1..], b);
    }
  }

  lemma RunChar(s: Scan, c: char)
    ensures Run(s, [c]) == Step(s, c)
  {
    assert Run(Step(s, c), [c][1..]) == Step(s, c);
  }

  /** Between entries both accumulators are empty. */
  ghost predicate Tidy(s: Scan) {
    && (s.state in {PreKey, Comment, CommentEscape} ==> s.key == "" && s.value == "")
    && (s.state == Key ==> s.value == "")
  }

  lemma {:induction false} RunTidy(s: Scan, text: string)
    requires Tidy(s)
    ensures Tidy(Run(s, text))
    decreases |text|
  {
    if text != "" {
      RunTidy(Step(s, text[0]), text[1..]);
    }
  }

  lemma OverlayUpdate(before: Entries, m: Entries, k: string, v: string)
    ensures (before + m)[k := v] == before + m[k := v]
  {
  }

  lemma StepOverlay(s: Scan, before: Entries, c: char)
    ensures Step(s.(entries := before + s.entries), c) == Step(s, c).(entries := before + Step(s, c).entries)
  {
    if s.state.PreValue? && IsNewline(c) {
      OverlayUpdate(before, s.entries, TrimEnd(s.key), s.value);
    } else if s.state.Value? && IsNewline(c) {
      OverlayUpdate(before, s.entries, TrimEnd(s.key), TrimEnd(s.value));
    } else {
      assert Step(s, c).entries == s.entries;
    }
  }

  /** Entries found earlier only serve as a background. */
  lemma {:induction false} RunOverlay(s: Scan, before: Entries, text: string)
    ensures Run(s.(entries := before + s.entries), text) == Run(s, text).(entries := before + Run(s, text).entries)
    decreases |text|
  {
    if text != "" {
      StepOverlay(s, before, text[0]);
      RunOverlay(Step(s, text[0]), before, text[1..]);
    }
  }

  /** Text that ends between entries can be parsed on its own: later entries override earlier ones. */
  lemma ParseComposes(a: string, b: string)
    requires Run(START, a).state == PreKey
    ensures Parse(a + b) == Parse(a) + Parse(b)
  {
    var s := Run(START, a);
    RunConcat(START, a, b);
    RunTidy(START, a);
    assert s == START.(entries := s.entries + START.entries);
    RunOverlay(START, s.entries, b);
    var r := Run(START, b);
    OverlayUpdate(s.entries, r.entries, TrimEnd(r.key), r.value);
    OverlayUpdate(s.entries, r.entries, TrimEnd(r.key), TrimEnd(r.value));
  }

  lemma {:induction false} RunComment(s: Scan, body: string)
    requires s.state in {Comment, CommentEscape} && forall i :: 0 <= i < |body| ==> !IsNewline(body[i])
    ensures Run(s, body).state in {Comment, CommentEscape}
    ensures Run(s, body) == s.(state := Run(s, body).state)
    decreases |body|
  {
    if body != "" {
      RunComment(Step(s, body[0]), body[1..]);
    }
  }

  lemma RunCommentLine(s: Scan, mark: char, body: string, newline: char)
    requires s.state == PreKey && StartsComment(mark) && IsNewline(newline)
    requires forall i :: 0 <= i < |body| ==> !IsNewline(body[i])
    ensures Run(s, [mark] + body + [newline]) == s
  {
    hide Run;
    var t := s.(state := Comment);
    RunConcat(s, [mark] + body, [newline]);
    RunConcat(s, [mark], body);
    RunChar(s, mark);
    RunComment(t, body);
    RunChar(Run(t, body), newline);
  }

  /** A comment line contributes nothing, even when it ends in a backslash. */
  lemma CommentsIgnored(a: string, mark: char, body: string, newline: char, b: string)
    requires Run(START, a).state == PreKey
    requires mark in {'#', ';'} && newline in {'\r', '\n'} && '\r' !in body && '\n' !in body
    ensures Parse(a + [mark] + body + [newline] + b) == Parse(a + b)
  {
    hide Run, Finish;
    var s := Run(START, a);
    var line := [mark] + body + [newline];
    RunCommentLine(s, mark, body, newline);
    assert a + [mark] + body + [newline] + b == a + (line + b);
    RunConcat(START, a, line + b);
    RunConcat(s, line, b);
    RunConcat(START, a, b);
  }

  // ---------------------------------------------------------------------------------------------
  // What can come out

  /** No line break anywhere, and no '=' after the first character. */
  predicate KeyShape(key: string) {
    && (forall i :: 0 <= i < |key| ==> !IsNewline(key[i]))
    && (forall i :: 1 <= i < |key| ==> key[i] != '=')
  }

  ghost predicate KeysShaped(s: Scan) {
    KeyShape(s.key) && (s.state == Key ==> s.key != "") && forall k :: k in s.entries ==> KeyShape(k)
  }

  lemma {:induction false} RunKeys(s: Scan, text: string)
    requires Tidy(s) && KeysShaped(s)
    ensures KeysShaped(Run(s, text))
    decreases |text|
  {
    if text != "" {
      assert KeyShape(TrimEnd(s.key));
      RunKeys(Step(s, text[0]), text[1..]);
    }
  }

  lemma ParsedKeys(text: string)
    ensures forall k :: k in Parse(text) ==> KeyShape(k) && TrimEnd(k) == k
  {
    RunKeys(START, text);
    assert KeyShape(TrimEnd(Run(START, text).key));
    RunTrimmed(START, text);
    TrimTwice(Run(START, text).key);
  }

  lemma TrimTwice(s: string)
    ensures TrimEnd(TrimEnd(s)) == TrimEnd(s)
  {
  }

  lemma {:induction false} RunTrimmed(s: Scan, text: string)
    requires forall k :: k in s.entries ==> TrimEnd(k) == k
    ensures forall k :: k in Run(s, text).entries ==> TrimEnd(k) == k
    decreases |text|
  {
    if text != "" {
      TrimTwice(s.key);
      RunTrimmed(Step(s, text[0]), text[1..]);
    }
  }

  /** The size of a map: keys, values and one '=' each. */
  ghost function Weight(m: Entries): nat {
    if m == map[] then 0
    else
      var k :| k in m;
      |k| + |m[k]| + 1 + Weight(m - {k})
  }

  lemma {:induction false} WeightOf(m: Entries, k: string)
    requires k in m
    ensures Weight(m) == |k| + |m[k]| + 1 + Weight(m - {k})
    decreases |m|
  {
    var j :| j in m && Weight(m) == |j| + |m[j]| + 1 + Weight(m - {j});
    if j != k {
      assert k in m - {j};
      assert j in m - {k};
      WeightOf(m - {j}, k);
      WeightOf(m - {k}, j);
      assert m - {j} - {k} == m - {k} - {j};
    }
  }

  lemma WeightUpdate(m: Entries, k: string, v: string)
    ensures Weight(m[k := v]) <= Weight(m) + |k| + |v| + 1
  {
    WeightOf(m[k := v], k);
    if k in m {
      WeightOf(m, k);
      assert m[k := v] - {k} == m - {k};
    } else {
      assert m[k := v] - {k} == m;
    }
  }

  /** What the accumulators will have cost when the entry is recorded. */
  ghost function Pending(s: Scan): nat {
    match s.state
    case PreKey | Comment | CommentEscape => 0
    case Key => |s.key|
    case DoubleQuoteValueEscape => |s.key| + |s.value| + 2
    case _ => |s.key| + |s.value| + 1
  }

  lemma StepWeight(s: Scan, c: char)
    requires Tidy(s)
    ensures Weight(Step(s, c).entries) + Pending(Step(s, c)) <= Weight(s.entries) + Pending(s) + 1
  {
    hide Weight, TrimEnd, IsBlank, NeedsShellEscape;
    WeightUpdate(s.entries, TrimEnd(s.key), s.value);
    WeightUpdate(s.entries, TrimEnd(s.key), TrimEnd(s.value));
  }

  lemma {:induction false} RunWeight(s: Scan, text: string)
    requires Tidy(s)
    ensures Weight(Run(s, text).entries) + Pending(Run(s, text)) <= Weight(s.entries) + Pending(s) + |text|
    decreases |text|
  {
    if text != "" {
      StepWeight(s, text[0]);
      RunWeight(Step(s, text[0]), text[1..]);
    }
  }

  /** The parsed map is never larger than its text: nothing is duplicated or made up. */
  lemma ParseConserves(text: string)
    ensures Weight(Parse(text)) <= |text|
  {
    var s := Run(START, text);
    RunWeight(START, text);
    RunTidy(START, text);
    WeightUpdate(s.entries, TrimEnd(s.key), s.value);
    WeightUpdate(s.entries, TrimEnd(s.key), TrimEnd(s.value));
  }

  // ---------------------------------------------------------------------------------------------
  // Printing and reading back

  /** `Display`, in the order in which the map is iterated. */
  function Print(entries: Entries, keys: seq<string>): string
    requires forall i :: 0 <= i < |keys| ==> keys[i] in entries
  {
    if keys == [] then ""
    else keys[0] + "=" + entries[keys[0]] + "\n" + Print(entries, keys[1..])
  }

  predicate CleanKey(k: string) {
    && k != "" && KeyShape(k)
    && !IsBlank(k[0]) && !StartsComment(k[0])
    && !IsWhitespace(k[|k| - 1])
  }

  predicate CleanValue(v: string) {
    && (forall i :: 0 <= i < |v| ==> !IsNewline(v[i]) && v[i] != '\\')
    && (v != "" ==> !IsBlank(v[0]) && v[0] != '\'' && v[0] != '"' && !IsWhitespace(v[|v| - 1]))
  }

  lemma {:induction false} RunKeyChars(s: Scan, w: string)
    requires s.state == Key && forall i :: 0 <= i < |w| ==> !IsNewline(w[i]) && w[i] != '='
    ensures Run(s, w) == s.(key := s.key + w)
    decreases |w|
  {
    if w != "" {
      RunKeyChars(Step(s, w[0]), w[1..]);
      assert s.key + [w[0]] + w[1..] == s.key + w;
    } else {
      assert s.key + w == s.key;
    }
  }

  lemma {:induction false} RunValueChars(s: Scan, w: string)
    requires s.state == Value && forall i :: 0 <= i < |w| ==> !IsNewline(w[i]) && w[i] != '\\'
    ensures Run(s, w) == s.(value := s.value + w)
    decreases |w|
  {
    if w != "" {
      RunValueChars(Step(s, w[0]), w[1..]);
      assert s.value + [w[0]] + w[1..] == s.value + w;
    } else {
      assert s.value + w == s.value;
    }
  }

  /** A clean key and the '=' after it. */
  lemma RunKey(entries: Entries, k: string)
    requires CleanKey(k)
    ensures Run(START.(entries := entries), k + "=") == Scan(PreValue, k, "", entries)
  {
    var s := START.(entries := entries);
    RunConcat(s, k, "=");
    RunKeyChars(Step(s, k[0]), k[1..]);
    assert [k[0]] + k[1..] == k;
    assert Run(s, k) == Scan(Key, k, "", entries);
    assert Run(Scan(Key, k, "", entries), "=") == Scan(PreValue, k, "", entries);
  }

  lemma RunValue(s: Scan, v: string)
    requires s.state == PreValue && s.value == "" && CleanValue(v)
    ensures Run(s, v + "\n") == Scan(PreKey, "", "", s.Insert(v))
  {
    RunConcat(s, v, "\n");
    if v != "" {
      assert Step(s, v[0]) == s.(state := Value, value := [v[0]]);
      RunValueChars(s.(state := Value, value := [v[0]]), v[1..]);
      assert [v[0]] + v[1..] == v;
      assert Run(s, v) == s.(state := Value, value := v);
      assert TrimEnd(v) == v;
    }
    RunChar(Run(s, v), '\n');
  }

  lemma RunLine(entries: Entries, k: string, v: string)
    requires CleanKey(k) && CleanValue(v)
    ensures Run(START.(entries := entries), k + "=" + v + "\n") == START.(entries := entries[k := v])
  {
    RunKey(entries, k);
    RunConcat(START.(entries := entries), k + "=", v + "\n");
    RunValue(Scan(PreValue, k, "", entries), v);
    assert k + "=" + v + "\n" == k + "=" + (v + "\n");
  }

  lemma {:induction false} RunPrint(before: Entries, entries: Entries, keys: seq<string>)
    requires forall i :: 0 <= i < |keys| ==> keys[i] in entries && CleanKey(keys[i]) && CleanValue(entries[keys[i]])
    ensures Run(START.(entries := before), Print(entries, keys)) == START.(entries := before + Restrict(entries, keys))
    decreases |keys|
  {
    if keys == [] {
      assert before + Restrict(entries, keys) == before;
    } else {
      var line := keys[0] + "=" + entries[keys[0]] + "\n";
      RunConcat(START.(entries := before), line, Print(entries, keys[1..]));
      RunLine(before, keys[0], entries[keys[0]]);
      RunPrint(before[keys[0] := entries[keys[0]]], entries, keys[1..]);
      RestrictFirst(before, entries, keys);
    }
  }

  ghost function Restrict(entries: Entries, keys: seq<string>): Entries
    requires forall i :: 0 <= i < |keys| ==> keys[i] in entries
  {
    map k | k in keys :: entries[k]
  }

  lemma RestrictFirst(before: Entries, entries: Entries, keys: seq<string>)
    requires keys != [] && forall i :: 0 <= i < |keys| ==> keys[i] in entries
    ensures before[keys[0] := entries[keys[0]]] + Restrict(entries, keys[1..]) == before + Restrict(entries, keys)
  {
    assert forall k :: k in keys <==> k == keys[0] || k in keys[1..];
  }

  /** Printing a clean map and parsing it again gives the map back. */
  lemma PrintThenParse(entries: Entries, keys: seq<string>)
    requires forall k :: k in keys <==> k in entries
    requires forall k :: k in entries ==> CleanKey(k) && CleanValue(entries[k])
    ensures Parse(Print(entries, keys)) == entries
  {
    RunPrint(map[], entries, keys);
    assert map[] + Restrict(entries, keys) == entries;
  }

  method Display(entries: Entries, keys: seq<string>) returns (text: string)
    requires forall i :: 0 <= i < |keys| ==> keys[i] in entries
    ensures text == Print(entries, keys)
  {
    text := "";
    for i := 0 to |keys|
      invariant text + Print(entries, keys[i..]) == Print(entries, keys)
    {
      assert keys[i..][0] == keys[i] && keys[i..][1..] == keys[i + 1..];
      text := text + (keys[i] + "=" + entries[keys[i]] + "\n");
    }
  }

  // ---------------------------------------------------------------------------------------------
  // Quoting

  function EscapeDouble(v: string): string {
    if v == "" then ""
    else (if NeedsShellEscape(v[0]) then ['\\', v[0]] else [v[0]]) + EscapeDouble(v[1..])
  }

  lemma {:induction false} RunDoubleQuoted(s: Scan, v: string)
    requires s.state == DoubleQuoteValue
    ensures Run(s, EscapeDouble(v)) == s.(value := s.value + v)
    decreases |v|
  {
    if v == "" {
      assert s.value + v == s.value;
    } else {
      var first := if NeedsShellEscape(v[0]) then ['\\', v[0]] else [v[0]];
      var t := s.(value := s.value + [v[0]]);
      if NeedsShellEscape(v[0]) {
        RunConcat(s, ['\\'], [v[0]]);
        RunChar(s, '\\');
        RunChar(s.(state := DoubleQuoteValueEscape), v[0]);
        assert first == ['\\'] + [v[0]];
      } else {
        RunChar(s, v[0]);
      }
      assert Run(s, first) == t;
      RunConcat(s, first, EscapeDouble(v[1..]));
      RunDoubleQuoted(t, v[1..]);
      assert s.value + [v[0]] + v[1..] == s.value + v;
    }
  }

  lemma {:induction false} RunSingleQuoted(s: Scan, v: string)
    requires s.state == SingleQuoteValue && '\'' !in v
    ensures Run(s, v) == s.(value := s.value + v)
    decreases |v|
  {
    if v == "" {
      assert s.value + v == s.value;
    } else {
      RunSingleQuoted(Step(s, v[0]), v[1..]);
      assert s.value + [v[0]] + v[1..] == s.value + v;
    }
  }

  /** An entry whose quoted value is complete. */
  lemma ParseQuoted(k: string, quoted: string, v: string)
    requires CleanKey(k) && Run(Scan(PreValue, k, "", map[]), quoted) == Scan(PreValue, k, v, map[])
    ensures Parse(k + "=" + quoted) == map[k := v]
  {
    RunKey(map[], k);
    RunConcat(START, k + "=", quoted);
  }

  /** Every string whatsoever survives double quotes once the four shell characters are escaped. */
  lemma DoubleQuoteInverse(k: string, v: string)
    requires CleanKey(k)
    ensures Parse(k + "=" + ("\"" + EscapeDouble(v) + "\"")) == map[k := v]
  {
    var s := Scan(PreValue, k, "", map[]);
    RunConcat(s, "\"" + EscapeDouble(v), "\"");
    RunConcat(s, "\"", EscapeDouble(v));
    RunChar(s, '"');
    RunDoubleQuoted(s.(state := DoubleQuoteValue), v);
    RunChar(s.(state := DoubleQuoteValue, value := v), '"');
    ParseQuoted(k, "\"" + EscapeDouble(v) + "\"", v);
  }

  /** Every string without an apostrophe survives single quotes as it is. */
  lemma SingleQuoteInverse(k: string, v: string)
    requires CleanKey(k) && '\'' !in v
    ensures Parse(k + "=" + ("'" + v + "'")) == map[k := v]
  {
    var s := Scan(PreValue, k, "", map[]);
    RunConcat(s, "'" + v, "'");
    RunConcat(s, "'", v);
    RunChar(s, '\'');
    RunSingleQuoted(s.(state := SingleQuoteValue), v);
    RunChar(s.(state := SingleQuoteValue, value := v), '\'');
    ParseQuoted(k, "'" + v + "'", v);
  }

  // ---------------------------------------------------------------------------------------------
  // The os-release of a generation

  function FromGeneration(g: Generation): Entries {
    map["ID" := g.sortKey,
        "PRETTY_NAME" := g.label_ + " (" + g.Describe() + ")",
        "VERSION_ID" := g.Describe()]
  }

  const GENERATION_KEYS := ["ID", "PRETTY_NAME", "VERSION_ID"]

  function GenerationText(g: Generation): string {
    Print(FromGeneration(g), GENERATION_KEYS)
  }

  predicate NoBreaks(v: string) {
    forall i :: 0 <= i < |v| ==> !IsNewline(v[i]) && v[i] != '\\'
  }

  /** The description ends in a date or in "Unknown". */
  predicate PlainDate(g: Generation) {
    g.buildTime.Some? ==> g.buildTime.value != "" && forall c :: c in g.buildTime.value ==> IsDigit(c) || c == '-'
  }

  lemma NoBreaksConcat(a: string, b: string)
    ensures NoBreaks(a + b) <==> NoBreaks(a) && NoBreaks(b)
  {
    if NoBreaks(a + b) {
      assert forall i :: 0 <= i < |a| ==> (a + b)[i] == a[i];
      assert forall i :: 0 <= i < |b| ==> (a + b)[|a| + i] == b[i];
    }
  }

  function DateOf(g: Generation): string {
    if g.buildTime.Some? then g.buildTime.value else "Unknown"
  }

  lemma DescribeClean(g: Generation)
    requires PlainDate(g)
    ensures NoBreaks(g.Describe()) <==> NoBreaks(g.DescribeSpecialisation())
    ensures CleanValue(g.Describe()) <==> NoBreaks(g.DescribeSpecialisation())
  {
    var d, date := g.Describe(), DateOf(g);
    var head := "Generation " + Decimal(g.version);
    assert d == head + g.DescribeSpecialisation() + ", " + date;
    NoBreaksConcat("Generation ", Decimal(g.version));
    NoBreaksConcat(head, g.DescribeSpecialisation());
    NoBreaksConcat(head + g.DescribeSpecialisation(), ", ");
    NoBreaksConcat(head + g.DescribeSpecialisation() + ", ", date);
    assert date != "" && NoBreaks(date) && !IsWhitespace(date[|date| - 1]) by {
      if g.buildTime.Some? {
        assert forall i :: 0 <= i < |date| ==> date[i] in date;
      }
    }
    assert d[0] == 'G' && d[|d| - 1] == date[|date| - 1];
  }

  /** A label that can open the PRETTY_NAME value: it must not be empty. */
  predicate CleanLabel(lbl: string) {
    NoBreaks(lbl) && lbl != "" && !IsBlank(lbl[0]) && lbl[0] != '\'' && lbl[0] != '"'
  }

  lemma PrettyNameClean(g: Generation)
    requires PlainDate(g)
    ensures CleanValue(g.label_ + " (" + g.Describe() + ")") <==>
      CleanLabel(g.label_) && NoBreaks(g.DescribeSpecialisation())
  {
    DescribeClean(g);
    var pretty := g.label_ + " (" + g.Describe() + ")";
    NoBreaksConcat(g.label_, " (");
    NoBreaksConcat(g.label_ + " (", g.Describe());
    NoBreaksConcat(g.label_ + " (" + g.Describe(), ")");
    assert pretty[|pretty| - 1] == ')';
    assert pretty[0] == if g.label_ == "" then ' ' else g.label_[0];
  }

  /** The entries of a generation are clean exactly when the sort key is, the label is clean and not empty,
      and the specialisation name has no line break or backslash. */
  lemma GenerationEntriesClean(g: Generation)
    requires PlainDate(g)
    ensures (forall k :: k in FromGeneration(g) ==> CleanKey(k) && CleanValue(FromGeneration(g)[k])) <==>
            CleanValue(g.sortKey) && CleanLabel(g.label_) && NoBreaks(g.DescribeSpecialisation())
  {
    hide CleanValue, CleanLabel, NoBreaks, PlainDate, Generation.Describe;
    var m := FromGeneration(g);
    DescribeClean(g);
    PrettyNameClean(g);
    assert "ID" in m && "PRETTY_NAME" in m && "VERSION_ID" in m;
    assert m["ID"] == g.sortKey && m["VERSION_ID"] == g.Describe();
    assert m["PRETTY_NAME"] == g.label_ + " (" + g.Describe() + ")";
    assert CleanKey("ID") && CleanKey("PRETTY_NAME") && CleanKey("VERSION_ID");
  }

  /** A blank before a clean value is lost. */
  lemma RunBlankLine(entries: Entries, k: string, v: string)
    requires CleanKey(k) && CleanValue(v)
    ensures Run(START.(entries := entries), k + "=" + (" " + v) + "\n") == START.(entries := entries[k := v])
  {
    var s := Scan(PreValue, k, "", entries);
    RunKey(entries, k);
    RunConcat(START.(entries := entries), k + "=", " " + (v + "\n"));
    RunConcat(s, " ", v + "\n");
    RunChar(s, ' ');
    RunValue(s, v);
    assert k + "=" + (" " + v) + "\n" == k + "=" + (" " + (v + "\n"));
  }

  lemma PrintLines(m: Entries, a: string, b: string, c: string)
    requires a in m && b in m && c in m
    ensures Print(m, [a, b, c]) == a + "=" + m[a] + "\n" + (b + "=" + m[b] + "\n" + (c + "=" + m[c] + "\n"))
  {
    assert [a, b, c][1..] == [b, c] && [b, c][1..] == [c] && [c][1..] == [];
    assert Print(m, [a, b, c]) == a + "=" + m[a] + "\n" + Print(m, [b, c]);
    assert Print(m, [b, c]) == b + "=" + m[b] + "\n" + Print(m, [c]);
    assert Print(m, [c]) == c + "=" + m[c] + "\n" + Print(m, []);
  }

  /** An empty label makes the PRETTY_NAME begin with a blank, which does not come back. */
  lemma EmptyLabelLost(g: Generation)
    requires PlainDate(g) && CleanValue(g.sortKey) && g.label_ == "" && NoBreaks(g.DescribeSpecialisation())
    ensures Parse(GenerationText(g)) == FromGeneration(g)["PRETTY_NAME" := "(" + g.Describe() + ")"]
    ensures Parse(GenerationText(g)) != FromGeneration(g)
  {
    hide Run, CleanKey, CleanValue;
    var m, pretty := FromGeneration(g), "(" + g.Describe() + ")";
    assert m["PRETTY_NAME"] == " " + pretty;
    PrintLines(m, "ID", "PRETTY_NAME", "VERSION_ID");
    EmptyLabelClean(g);
    RunLine(map[], "ID", g.sortKey);
    var m1 := map["ID" := g.sortKey];
    RunBlankLine(m1, "PRETTY_NAME", pretty);
    var m2 := m1["PRETTY_NAME" := pretty];
    RunLine(m2, "VERSION_ID", g.Describe());
    assert START == START.(entries := map[]);
    var first, second := "ID" + "=" + g.sortKey + "\n", "PRETTY_NAME" + "=" + (" " + pretty) + "\n";
    var third := "VERSION_ID" + "=" + g.Describe() + "\n";
    assert GenerationText(g) == first + (second + third);
    RunConcat(START, first, second + third);
    RunConcat(START.(entries := m1), second, third);
    assert m2["VERSION_ID" := g.Describe()] == m["PRETTY_NAME" := pretty];
    assert |pretty| != |m["PRETTY_NAME"]|;
  }

  lemma EmptyLabelClean(g: Generation)
    requires PlainDate(g) && NoBreaks(g.DescribeSpecialisation())
    ensures CleanKey("ID") && CleanKey("PRETTY_NAME") && CleanKey("VERSION_ID")
    ensures CleanValue(g.Describe()) && CleanValue("(" + g.Describe() + ")")
  {
    DescribeClean(g);
    var v := "(" + g.Describe() + ")";
    NoBreaksConcat("(", g.Describe());
    NoBreaksConcat("(" + g.Describe(), ")");
    assert v[0] == '(' && v[|v| - 1] == ')';
  }
}
