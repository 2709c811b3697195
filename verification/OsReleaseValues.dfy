/** What a line of an os-release file means, piece by piece. */
module OsReleaseValues {
  import opened OsRelease

  // ---------------------------------------------------------------------------------------------
  // Pieces of a value

  /** A character, a character after a backslash, or a backslash before a line break. */
  datatype Piece = Plain(c: char) | Escaped(c: char) | Continued

  function Text(ps: seq<Piece>): string {
    if ps == [] then "" else PieceText(ps[0]) + Text(ps[1..])
  }

  function PieceText(p: Piece): string {
    match p
    case Plain(c) => [c]
    case Escaped(c) => ['\\', c]
    case Continued => "\\\n"
  }

  /** Between double quotes a backslash is kept unless it precedes one of four characters or a line break. */
  function Quoted(ps: seq<Piece>): string {
    if ps == [] then "" else QuotedPiece(ps[0]) + Quoted(ps[1..])
  }

  function QuotedPiece(p: Piece): string {
    match p
    case Plain(c) => [c]
    case Escaped(c) => if c in {'"', '\\', '`', '$'} then [c] else ['\\', c]
    case Continued => ""
  }

  /** Without quotes a backslash is never kept. */
  function Unquoted(ps: seq<Piece>): string {
    if ps == [] then "" else UnquotedPiece(ps[0]) + Unquoted(ps[1..])
  }

  function UnquotedPiece(p: Piece): string {
    match p
    case Plain(c) => [c]
    case Escaped(c) => if c == '\r' then "" else [c]
    case Continued => ""
  }

  predicate CanBeQuoted(ps: seq<Piece>) {
    forall i :: 0 <= i < |ps| ==>
      match ps[i]
      case Plain(c) => c != '"' && c != '\\'
      case Escaped(c) => c != '\n'
      case Continued => true
  }

  predicate CanBeUnquoted(ps: seq<Piece>) {
    forall i :: 0 <= i < |ps| ==>
      match ps[i]
      case Plain(c) => c != '\\' && c != '\r' && c != '\n'
      case Escaped(c) => c != '\n'
      case Continued => true
  }

  lemma QuotedStep(s: Scan, p: Piece)
    requires s.state == DoubleQuoteValue && CanBeQuoted([p])
    ensures Run(s, PieceText(p)) == s.(value := s.value + QuotedPiece(p))
  {
    hide Run;
    assert [p][0] == p;
    match p {
      case Plain(c) =>
        RunChar(s, c);
      case Escaped(c) =>
        RunTwo(s, '\\', c);
      case Continued =>
        RunTwo(s, '\\', '\n');
        assert s.value + "" == s.value;
    }
  }

  lemma RunTwo(s: Scan, a: char, b: char)
    ensures Run(s, [a, b]) == Step(Step(s, a), b)
  {
    hide Run;
    RunConcat(s, [a], [b]);
    RunChar(s, a);
    RunChar(Step(s, a), b);
    assert [a] + [b] == [a, b];
  }

  lemma {:induction false} RunQuoted(s: Scan, ps: seq<Piece>)
    requires s.state == DoubleQuoteValue && CanBeQuoted(ps)
    ensures Run(s, Text(ps)) == s.(value := s.value + Quoted(ps))
    decreases |ps|
  {
    hide Run, PieceText, QuotedPiece;
    if ps == [] {
      RunNothing(s);
      assert s.value + "" == s.value;
    } else {
      var t := s.(value := s.value + QuotedPiece(ps[0]));
      assert CanBeQuoted([ps[0]]);
      QuotedStep(s, ps[0]);
      RunConcat(s, PieceText(ps[0]), Text(ps[1..]));
      RunQuoted(t, ps[1..]);
      assert s.value + QuotedPiece(ps[0]) + Quoted(ps[1..]) == s.value + Quoted(ps);
    }
  }

  lemma RunNothing(s: Scan)
    ensures Run(s, "") == s
  {
  }

  lemma UnquotedStep(s: Scan, p: Piece)
    requires s.state == Value && CanBeUnquoted([p])
    ensures Run(s, PieceText(p)) == s.(value := s.value + UnquotedPiece(p))
  {
    hide Run;
    assert [p][0] == p;
    match p {
      case Plain(c) =>
        RunChar(s, c);
      case Escaped(c) =>
        RunTwo(s, '\\', c);
        assert s.value + "" == s.value;
      case Continued =>
        RunTwo(s, '\\', '\n');
        assert s.value + "" == s.value;
    }
  }

  lemma {:induction false} RunUnquoted(s: Scan, ps: seq<Piece>)
    requires s.state == Value && CanBeUnquoted(ps)
    ensures Run(s, Text(ps)) == s.(value := s.value + Unquoted(ps))
    decreases |ps|
  {
    hide Run, PieceText, UnquotedPiece;
    if ps == [] {
      RunNothing(s);
      assert s.value + "" == s.value;
    } else {
      var t := s.(value := s.value + UnquotedPiece(ps[0]));
      assert CanBeUnquoted([ps[0]]);
      UnquotedStep(s, ps[0]);
      RunConcat(s, PieceText(ps[0]), Text(ps[1..]));
      RunUnquoted(t, ps[1..]);
      assert s.value + UnquotedPiece(ps[0]) + Unquoted(ps[1..]) == s.value + Unquoted(ps);
    }
  }

  /** What can begin an unquoted value: neither a blank nor a quote. */
  predicate CanBegin(ps: seq<Piece>) {
    ps != [] && CanBeUnquoted(ps) && (ps[0].Plain? ==> ps[0].c !in {' ', '\t', '\'', '"'})
  }

  lemma BeginStep(s: Scan, p: Piece)
    requires s.state == PreValue && CanBegin([p])
    ensures Run(s, PieceText(p)) == s.(state := Value, value := s.value + UnquotedPiece(p))
  {
    hide Run;
    assert [p][0] == p;
    match p {
      case Plain(c) =>
        RunChar(s, c);
      case Escaped(c) =>
        RunTwo(s, '\\', c);
        assert s.value + "" == s.value;
      case Continued =>
        RunTwo(s, '\\', '\n');
        assert s.value + "" == s.value;
    }
  }

  lemma RunTail(s: Scan, ps: seq<Piece>)
    requires s.state == PreValue && CanBegin(ps)
    ensures Run(s, Text(ps)) == s.(state := Value, value := s.value + Unquoted(ps))
  {
    hide Run, PieceText, UnquotedPiece;
    var t := s.(state := Value, value := s.value + UnquotedPiece(ps[0]));
    BeginStep(s, ps[0]);
    RunConcat(s, PieceText(ps[0]), Text(ps[1..]));
    RunUnquoted(t, ps[1..]);
    assert s.value + UnquotedPiece(ps[0]) + Unquoted(ps[1..]) == s.value + Unquoted(ps);
  }

  // ---------------------------------------------------------------------------------------------
  // Quoted parts

  /** A blank, or a part in single or in double quotes. */
  datatype Part = Blank(c: char) | Single(text: string) | Double(pieces: seq<Piece>)

  predicate IsPart(p: Part) {
    match p
    case Blank(c) => c == ' ' || c == '\t'
    case Single(text) => '\'' !in text
    case Double(pieces) => CanBeQuoted(pieces)
  }

  function PartText(p: Part): string {
    match p
    case Blank(c) => [c]
    case Single(text) => "'" + text + "'"
    case Double(pieces) => "\"" + Text(pieces) + "\""
  }

  function PartMeaning(p: Part): string {
    match p
    case Blank(c) => ""
    case Single(text) => text
    case Double(pieces) => Quoted(pieces)
  }

  function PartsText(ps: seq<Part>): string {
    if ps == [] then "" else PartText(ps[0]) + PartsText(ps[1..])
  }

  function PartsMeaning(ps: seq<Part>): string {
    if ps == [] then "" else PartMeaning(ps[0]) + PartsMeaning(ps[1..])
  }

  lemma SingleStep(s: Scan, text: string)
    requires s.state == PreValue && '\'' !in text
    ensures Run(s, "'" + text + "'") == s.(value := s.value + text)
  {
    hide Run;
    RunConcat(s, "'" + text, "'");
    RunConcat(s, "'", text);
    RunChar(s, '\'');
    RunSingleQuoted(s.(state := SingleQuoteValue), text);
    RunChar(s.(state := SingleQuoteValue, value := s.value + text), '\'');
  }

  lemma DoubleStep(s: Scan, pieces: seq<Piece>)
    requires s.state == PreValue && CanBeQuoted(pieces)
    ensures Run(s, "\"" + Text(pieces) + "\"") == s.(value := s.value + Quoted(pieces))
  {
    hide Run, CanBeQuoted, Text, Quoted;
    RunConcat(s, "\"" + Text(pieces), "\"");
    RunConcat(s, "\"", Text(pieces));
    RunChar(s, '"');
    RunQuoted(s.(state := DoubleQuoteValue), pieces);
    RunChar(s.(state := DoubleQuoteValue, value := s.value + Quoted(pieces)), '"');
  }

  lemma PartStep(s: Scan, p: Part)
    requires s.state == PreValue && IsPart(p)
    ensures Run(s, PartText(p)) == s.(value := s.value + PartMeaning(p))
  {
    hide Run, CanBeQuoted, Text, Quoted;
    match p {
      case Blank(c) =>
        RunChar(s, c);
        assert s.value + "" == s.value;
      case Single(text) =>
        SingleStep(s, text);
      case Double(pieces) =>
        DoubleStep(s, pieces);
    }
  }

  lemma {:induction false} RunParts(s: Scan, ps: seq<Part>)
    requires s.state == PreValue && forall i :: 0 <= i < |ps| ==> IsPart(ps[i])
    ensures Run(s, PartsText(ps)) == s.(value := s.value + PartsMeaning(ps))
    decreases |ps|
  {
    hide Run, PartText, PartMeaning, IsPart;
    if ps == [] {
      RunNothing(s);
      assert s.value + "" == s.value;
    } else {
      var t := s.(value := s.value + PartMeaning(ps[0]));
      PartStep(s, ps[0]);
      RunConcat(s, PartText(ps[0]), PartsText(ps[1..]));
      RunParts(t, ps[1..]);
      assert s.value + PartMeaning(ps[0]) + PartsMeaning(ps[1..]) == s.value + PartsMeaning(ps);
    }
  }

  // ---------------------------------------------------------------------------------------------
  // A whole line

  /** Blanks that may stand between a key and its '='. */
  predicate IsGap(gap: string) {
    forall i :: 0 <= i < |gap| ==> IsWhitespace(gap[i]) && gap[i] != '\r' && gap[i] != '\n'
  }

  lemma {:induction false} TrimGap(k: string, gap: string)
    requires CleanKey(k) && IsGap(gap)
    ensures TrimEnd(k + gap) == k
    decreases |gap|
  {
    if gap == "" {
      assert k + gap == k;
    } else {
      var n := |gap| - 1;
      assert (k + gap)[..|k + gap| - 1] == k + gap[..n];
      TrimGap(k, gap[..n]);
    }
  }

  lemma RunGap(entries: Entries, k: string, gap: string)
    requires CleanKey(k) && IsGap(gap)
    ensures Run(START.(entries := entries), k + gap + "=") == Scan(PreValue, k + gap, "", entries)
  {
    hide Run, IsWhitespace;
    var s := START.(entries := entries);
    var kg := k + gap;
    assert forall i :: 0 <= i < |gap| ==> gap[i] != '=' by {
      NoEqualsInGap(gap);
    }
    RunConcat(s, kg, "=");
    assert kg == [kg[0]] + kg[1..];
    RunConcat(s, [kg[0]], kg[1..]);
    RunChar(s, kg[0]);
    assert kg[0] == k[0] && Step(s, kg[0]) == Scan(Key, [kg[0]], "", entries);
    forall i | 0 <= i < |kg[1..]| ensures !IsNewline(kg[1..][i]) && kg[1..][i] != '=' {
      if i + 1 < |k| {
        assert kg[1..][i] == k[i + 1];
      } else {
        assert kg[1..][i] == gap[i + 1 - |k|];
      }
    }
    RunKeyChars(Step(s, kg[0]), kg[1..]);
    RunChar(Scan(Key, kg, "", entries), '=');
  }

  lemma NoEqualsInGap(gap: string)
    requires IsGap(gap)
    ensures forall i :: 0 <= i < |gap| ==> gap[i] != '='
  {
  }

  /** The value of a line: its quoted parts one after the other and what follows without quotes; trailing white space
      counts unless it is quoted and nothing follows. */
  function LineValue(ps: seq<Part>, tail: seq<Piece>): string {
    if tail == [] then PartsMeaning(ps) else TrimEnd(PartsMeaning(ps) + Unquoted(tail))
  }

  lemma RunBeforeEnd(entries: Entries, k: string, gap: string, ps: seq<Part>, tail: seq<Piece>)
    requires CleanKey(k) && IsGap(gap) && (forall i :: 0 <= i < |ps| ==> IsPart(ps[i]))
      && (tail == [] || CanBegin(tail))
    ensures Run(START.(entries := entries), k + gap + "=" + (PartsText(ps) + Text(tail))) ==
      if tail == [] then Scan(PreValue, k + gap, PartsMeaning(ps), entries)
      else Scan(Value, k + gap, PartsMeaning(ps) + Unquoted(tail), entries)
  {
    hide Run, IsPart, CleanKey, IsGap, CanBegin, PartsText, PartsMeaning, Unquoted;
    var s, t := START.(entries := entries), Scan(PreValue, k + gap, "", entries);
    RunGap(entries, k, gap);
    RunConcat(s, k + gap + "=", PartsText(ps) + Text(tail));
    RunConcat(t, PartsText(ps), Text(tail));
    RunParts(t, ps);
    assert "" + PartsMeaning(ps) == PartsMeaning(ps);
    if tail == [] {
      RunNothing(t.(value := PartsMeaning(ps)));
    } else {
      RunTail(t.(value := PartsMeaning(ps)), tail);
    }
  }

  /** A line means what its parts mean, after whatever came before it, whether or not a line break ends it. */
  lemma LineMeaning(before: string, k: string, gap: string, ps: seq<Part>, tail: seq<Piece>, newline: char)
    requires CleanKey(k) && IsGap(gap) && (forall i :: 0 <= i < |ps| ==> IsPart(ps[i]))
      && (tail == [] || CanBegin(tail))
    requires Run(START, before).state == PreKey && newline in {'\r', '\n'}
    ensures var line := k + gap + "=" + (PartsText(ps) + Text(tail));
      && Parse(before + line) == Parse(before)[k := LineValue(ps, tail)]
      && Parse(before + (line + [newline])) == Parse(before)[k := LineValue(ps, tail)]
  {
    hide Run, IsPart, IsGap, CanBegin, PartsText, PartsMeaning, Unquoted, CleanKey, TrimEnd, Text;
    var s := Run(START, before);
    var line := k + gap + "=" + (PartsText(ps) + Text(tail));
    RunTidy(START, before);
    assert s == START.(entries := s.entries);
    RunConcat(START, before, line);
    RunConcat(START, before, line + [newline]);
    RunConcat(s, line, [newline]);
    RunBeforeEnd(s.entries, k, gap, ps, tail);
    RunChar(Run(s, line), newline);
    TrimGap(k, gap);
  }

  /** An unfinished quote at the end of the text holds what there is of it;
    a lone backslash at the very end is dropped. */
  lemma UnfinishedQuote(k: string, pieces: seq<Piece>, text: string)
    requires CleanKey(k) && CanBeQuoted(pieces) && '\'' !in text
    ensures Parse(k + "=" + ("\"" + Text(pieces))) == map[k := Quoted(pieces)]
    ensures Parse(k + "=" + ("\"" + Text(pieces) + "\\")) == map[k := Quoted(pieces)]
    ensures Parse(k + "=" + ("'" + text)) == map[k := text]
  {
    hide Run, CanBeQuoted, Text, Quoted, CleanKey, TrimEnd;
    var s := Scan(PreValue, k, "", map[]);
    RunKey(map[], k);
    CleanKeyIsTrimmed(k);
    RunConcat(START, k + "=", "\"" + Text(pieces));
    RunConcat(START, k + "=", "\"" + Text(pieces) + "\\");
    RunConcat(START, k + "=", "'" + text);
    RunConcat(s, "\"", Text(pieces));
    RunConcat(s, "\"" + Text(pieces), "\\");
    RunConcat(s, "'", text);
    RunChar(s, '"');
    RunChar(s, '\'');
    RunQuoted(s.(state := DoubleQuoteValue), pieces);
    RunSingleQuoted(s.(state := SingleQuoteValue), text);
    assert "" + Quoted(pieces) == Quoted(pieces) && "" + text == text;
    RunChar(s.(state := DoubleQuoteValue, value := Quoted(pieces)), '\\');
  }

  lemma CleanKeyIsTrimmed(k: string)
    requires CleanKey(k)
    ensures TrimEnd(k) == k
  {
  }

  /** A backslash at the very end of the text is dropped, and what precedes it is kept as it is. */
  lemma UnfinishedEscape(k: string, tail: seq<Piece>)
    requires CleanKey(k) && (tail == [] || CanBegin(tail))
    ensures Parse(k + "=" + (Text(tail) + "\\")) == map[k := Unquoted(tail)]
  {
    hide Run, CanBegin, CleanKey, TrimEnd;
    var s := Scan(PreValue, k, "", map[]);
    RunKey(map[], k);
    CleanKeyIsTrimmed(k);
    RunConcat(START, k + "=", Text(tail) + "\\");
    RunConcat(s, Text(tail), "\\");
    if tail == [] {
      RunNothing(s);
      RunChar(s, '\\');
    } else {
      RunTail(s, tail);
      assert "" + Unquoted(tail) == Unquoted(tail);
      RunChar(s.(state := Value, value := Unquoted(tail)), '\\');
    }
  }

  /** A key or a comment that the end of the text cuts short contributes nothing. */
  lemma UnfinishedLineIgnored(before: string, junk: string, mark: char, body: string)
    requires Run(START, before).state == PreKey
    requires forall i :: 0 <= i < |junk| ==> junk[i] !in {'=', '\r', '\n'}
    requires junk != "" ==> junk[0] !in {' ', '\t', '#', ';'}
    requires mark in {'#', ';'} && '\r' !in body && '\n' !in body
    ensures Parse(before + junk) == Parse(before) && Parse(before + ([mark] + body)) == Parse(before)
  {
    hide Run;
    var s := Run(START, before);
    RunTidy(START, before);
    RunConcat(START, before, junk);
    RunConcat(START, before, [mark] + body);
    RunConcat(s, [mark], body);
    RunChar(s, mark);
    RunComment(s.(state := Comment), body);
    if junk == "" {
      RunNothing(s);
    } else {
      assert junk == [junk[0]] + junk[1..];
      RunConcat(s, [junk[0]], junk[1..]);
      RunChar(s, junk[0]);
      RunKeyChars(Step(s, junk[0]), junk[1..]);
    }
  }

  /** Blank lines, indentation and lines without a '=' contribute nothing. */
  lemma JunkIgnored(before: string, indent: string, junk: string, newline: char, after: string)
    requires Run(START, before).state == PreKey && newline in {'\r', '\n'}
    requires forall i :: 0 <= i < |indent| ==> indent[i] in {' ', '\t', '\r', '\n'}
    requires forall i :: 0 <= i < |junk| ==> junk[i] !in {'=', '\r', '\n'}
    requires junk != "" ==> junk[0] !in {' ', '\t', '#', ';'}
    ensures Parse(before + (indent + junk + [newline] + after)) == Parse(before + after)
    ensures Parse(before + (indent + after)) == Parse(before + after)
  {
    hide Run, Finish;
    var s := Run(START, before);
    RunTidy(START, before);
    RunIndent(s, indent);
    RunJunk(s, junk, newline);
    RunConcat(START, before, after);
    RunConcat(START, before, indent + after);
    RunConcat(s, indent, after);
    RunConcat(START, before, indent + junk + [newline] + after);
    assert indent + junk + [newline] + after == indent + (junk + [newline] + after);
    RunConcat(s, indent, junk + [newline] + after);
    RunConcat(s, junk + [newline], after);
  }

  lemma {:induction false} RunIndent(s: Scan, indent: string)
    requires s.state == PreKey && forall i :: 0 <= i < |indent| ==> indent[i] in {' ', '\t', '\r', '\n'}
    ensures Run(s, indent) == s
    decreases |indent|
  {
    if indent != "" {
      RunIndent(s, indent[1..]);
    }
  }

  lemma RunJunk(s: Scan, junk: string, newline: char)
    requires s.state == PreKey && s.key == "" && newline in {'\r', '\n'}
    requires forall i :: 0 <= i < |junk| ==> junk[i] !in {'=', '\r', '\n'}
    requires junk != "" ==> junk[0] !in {' ', '\t', '#', ';'}
    ensures Run(s, junk + [newline]) == s
  {
    hide Run;
    if junk == "" {
      assert junk + [newline] == [newline];
      RunChar(s, newline);
    } else {
      assert junk == [junk[0]] + junk[1..];
      RunConcat(s, junk, [newline]);
      RunConcat(s, [junk[0]], junk[1..]);
      RunChar(s, junk[0]);
      var t := Step(s, junk[0]);
      RunKeyChars(t, junk[1..]);
      RunChar(t.(key := t.key + junk[1..]), newline);
    }
  }
}
