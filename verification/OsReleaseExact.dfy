/** Exactly which os-release maps survive being printed and parsed. */
module OsReleaseExact {
  import opened OsRelease
  import opened Generations

  // ---------------------------------------------------------------------------------------------
  // A sharper account of the parser

  /** The size of a map as it is printed: keys, values, and '=' and line break for each. */
  ghost function Full(m: Entries): nat {
    Weight(m) + |m|
  }

  lemma FullUpdate(m: Entries, k: string, v: string)
    ensures k !in m ==> Full(m[k := v]) == Full(m) + |k| + |v| + 2
    ensures k in m ==> Full(m[k := v]) < Full(m) + |k| + |v| + 2
  {
    hide Weight;
    WeightOf(m[k := v], k);
    if k in m {
      WeightOf(m, k);
      assert m[k := v] - {k} == m - {k};
      assert m[k := v].Keys == m.Keys;
      SameSize(m[k := v], m);
    } else {
      assert m[k := v] - {k} == m;
      assert m[k := v].Keys == m.Keys + {k};
    }
  }

  lemma SameSize(m: Entries, n: Entries)
    requires m.Keys == n.Keys
    ensures |m| == |n|
  {
    assert |m| == |m.Keys| && |n| == |n.Keys|;
  }

  /** Inside quotes a line break is kept, which makes up for the opening quote. */
  ghost function Credit(s: Scan): nat {
    if s.state in {SingleQuoteValue, DoubleQuoteValue, DoubleQuoteValueEscape} then 1 else 0
  }

  ghost function Potential(s: Scan): nat {
    Full(s.entries) + Pending(s) + Credit(s)
  }

  lemma StepPotential(s: Scan, c: char)
    requires Tidy(s)
    ensures Potential(Step(s, c)) <= Potential(s) + 1
  {
    hide Full, TrimEnd, IsBlank, NeedsShellEscape;
    FullUpdate(s.entries, TrimEnd(s.key), s.value);
    FullUpdate(s.entries, TrimEnd(s.key), TrimEnd(s.value));
  }

  lemma LastBreak(s: Scan)
    requires Tidy(s)
    ensures Full(Finish(Step(s, '\n'))) <= Potential(s) + 1
  {
    hide Full, TrimEnd;
    var t := Step(s, '\n');
    FullUpdate(s.entries, TrimEnd(s.key), s.value);
    FullUpdate(s.entries, TrimEnd(s.key), TrimEnd(s.value));
    FullUpdate(t.entries, TrimEnd(t.key), t.value);
    FullUpdate(t.entries, TrimEnd(t.key), TrimEnd(t.value));
  }

  predicate EndsLine(text: string) {
    text != "" && text[|text| - 1] == '\n'
  }

  lemma RunLast(s: Scan, text: string)
    requires |text| == 1 && EndsLine(text)
    ensures Run(s, text) == Step(s, '\n')
  {
    assert text == ['\n'];
    RunChar(s, '\n');
  }

  lemma RunNext(s: Scan, text: string)
    requires |text| > 1 && EndsLine(text)
    ensures Run(s, text) == Run(Step(s, text[0]), text[1..]) && EndsLine(text[1..])
  {
  }

  lemma StepTidy(s: Scan, c: char)
    requires Tidy(s)
    ensures Tidy(Step(s, c))
  {
  }

  /** Text that ends a line yields no larger map than the text itself, line breaks included. */
  lemma {:induction false} EndBound(s: Scan, text: string)
    requires Tidy(s) && EndsLine(text)
    ensures Full(Finish(Run(s, text))) <= Potential(s) + |text|
    decreases |text|
  {
    hide Run, Step, Finish, Full, Potential, Tidy;
    if |text| == 1 {
      RunLast(s, text);
      LastBreak(s);
    } else {
      RunNext(s, text);
      StepTidy(s, text[0]);
      StepPotential(s, text[0]);
      EndBound(Step(s, text[0]), text[1..]);
    }
  }

  /** A character that is lost cannot be made up for. */
  lemma Lost(s: Scan, text: string)
    requires Tidy(s) && EndsLine(text) && |text| > 1 && Potential(Step(s, text[0])) <= Potential(s)
    ensures Full(Finish(Run(s, text))) < Potential(s) + |text|
  {
    hide Run, Step, Finish, Full, Potential, Tidy;
    RunNext(s, text);
    StepTidy(s, text[0]);
    EndBound(Step(s, text[0]), text[1..]);
  }

  // ---------------------------------------------------------------------------------------------
  // An entry is not overridden without a loss

  lemma StepKeepsOrLoses(s: Scan, c: char, k: string)
    requires Tidy(s) && k in s.entries
    ensures k in Step(s, c).entries
    ensures Step(s, c).entries[k] == s.entries[k] || Potential(Step(s, c)) <= Potential(s)
  {
    hide Full, TrimEnd, IsBlank, NeedsShellEscape;
    FullUpdate(s.entries, TrimEnd(s.key), s.value);
    FullUpdate(s.entries, TrimEnd(s.key), TrimEnd(s.value));
  }

  lemma LastKeepsOrLoses(s: Scan, k: string)
    requires Tidy(s) && k in s.entries
    ensures var m := Finish(Step(s, '\n'));
      k in m && (m[k] == s.entries[k] || Full(m) < Potential(s) + 1)
  {
    hide Full, TrimEnd;
    var t := Step(s, '\n');
    FullUpdate(s.entries, TrimEnd(s.key), s.value);
    FullUpdate(s.entries, TrimEnd(s.key), TrimEnd(s.value));
    FullUpdate(t.entries, TrimEnd(t.key), t.value);
    FullUpdate(t.entries, TrimEnd(t.key), TrimEnd(t.value));
  }

  lemma {:induction false} KeptOrLost(s: Scan, text: string, k: string)
    requires Tidy(s) && EndsLine(text) && k in s.entries
    ensures var m := Finish(Run(s, text));
      k in m && (m[k] == s.entries[k] || Full(m) < Potential(s) + |text|)
    decreases |text|
  {
    hide Run, Step, Finish, Full, Potential, Tidy;
    if |text| == 1 {
      RunLast(s, text);
      LastKeepsOrLoses(s, k);
    } else {
      var t := Step(s, text[0]);
      RunNext(s, text);
      StepTidy(s, text[0]);
      StepKeepsOrLoses(s, text[0], k);
      StepPotential(s, text[0]);
      KeptOrLost(t, text[1..], k);
      if Potential(t) <= Potential(s) {
        Lost(s, text);
      }
    }
  }

  // ---------------------------------------------------------------------------------------------
  // A quote swallows the rest, or something is lost

  predicate InQuotes(s: Scan) {
    s.state in {SingleQuoteValue, DoubleQuoteValue, DoubleQuoteValueEscape}
  }

  /** The value so far, with a backslash that waits for the next character. */
  function Held(s: Scan): string {
    s.value + (if s.state == DoubleQuoteValueEscape then "\\" else "")
  }

  lemma StepInQuotes(s: Scan, c: char)
    requires InQuotes(s)
    ensures var t := Step(s, c);
      || Potential(t) <= Potential(s)
      || (InQuotes(t) && Held(t) == Held(s) + [c] && t.key == s.key && t.entries == s.entries)
  {
    hide Full;
    assert s.value + ['\\', c] == s.value + "\\" + [c];
  }

  lemma LastInQuotes(s: Scan)
    requires InQuotes(s)
    ensures var m := Finish(Step(s, '\n'));
      m == s.Insert(Held(s) + "\n") || Full(m) < Potential(s) + 1
  {
    hide Full, TrimEnd;
    FullUpdate(s.entries, TrimEnd(s.key), s.value);
    assert s.value + "" == s.value;
  }

  lemma {:induction false} QuotedOrLost(s: Scan, text: string)
    requires Tidy(s) && InQuotes(s) && EndsLine(text)
    ensures var m := Finish(Run(s, text));
      m == s.Insert(Held(s) + text) || Full(m) < Potential(s) + |text|
    decreases |text|
  {
    hide Run, Step, Finish, Full, Potential, Tidy, TrimEnd, Held;
    if |text| == 1 {
      RunLast(s, text);
      LastInQuotes(s);
      assert text == "\n";
    } else {
      var t := Step(s, text[0]);
      RunNext(s, text);
      StepTidy(s, text[0]);
      StepInQuotes(s, text[0]);
      if Potential(t) <= Potential(s) {
        Lost(s, text);
      } else {
        StepPotential(s, text[0]);
        QuotedOrLost(t, text[1..]);
        assert Held(s) + [text[0]] + text[1..] == Held(s) + text;
      }
    }
  }

  // ---------------------------------------------------------------------------------------------
  // One value

  /** The scan right behind the '=' of an entry. */
  function AtValue(m: Entries, k: string): Scan {
    Scan(PreValue, k, "", m)
  }

  lemma CleanKeyTrimmed(k: string)
    requires CleanKey(k)
    ensures TrimEnd(k) == k
  {
  }

  predicate Ordinary(c: char) {
    !IsNewline(c) && c != '\\'
  }

  lemma {:induction false} FirstOdd(v: string) returns (i: nat)
    requires exists n :: 0 <= n < |v| && !Ordinary(v[n])
    ensures i < |v| && !Ordinary(v[i]) && forall n :: 0 <= n < i ==> Ordinary(v[n])
    decreases |v|
  {
    hide Ordinary;
    if !Ordinary(v[0]) {
      i := 0;
    } else {
      var n :| 0 <= n < |v| && !Ordinary(v[n]);
      assert !Ordinary(v[1..][n - 1]);
      i := FirstOdd(v[1..]);
      i := i + 1;
    }
  }

  /** Where a value can no longer come out as `v`, whatever follows. */
  ghost predicate Fails(s: Scan, text: string, k: string, v: string) {
    var m := Finish(Run(s, text));
    Full(m) < Potential(s) + |text| || (k in m && m[k] != v)
  }

  /** A failure after a part of the text is a failure of the whole. */
  lemma FailsLater(s: Scan, a: string, b: string, k: string, v: string)
    requires Potential(Run(s, a)) <= Potential(s) + |a| && Fails(Run(s, a), b, k, v)
    ensures Fails(s, a + b, k, v)
  {
    hide Run, Finish, Full, Potential;
    RunConcat(s, a, b);
  }

  /** The rest of the line after an ordinary beginning. */
  lemma OrdinaryStart(m: Entries, k: string, w: string)
    requires w != "" && !IsBlank(w[0]) && w[0] != '\'' && w[0] != '"' && forall n :: 0 <= n < |w| ==> Ordinary(w[n])
    ensures Run(AtValue(m, k), w) == Scan(Value, k, w, m)
    ensures Potential(Scan(Value, k, w, m)) == Potential(AtValue(m, k)) + |w|
  {
    hide Full, Run;
    var s := AtValue(m, k);
    assert w == [w[0]] + w[1..];
    RunConcat(s, [w[0]], w[1..]);
    RunChar(s, w[0]);
    assert Step(s, w[0]) == s.(state := Value, value := [w[0]]);
    RunValueChars(s.(state := Value, value := [w[0]]), w[1..]);
  }

  /** A backslash in the middle of a value is lost. */
  lemma BackslashFails(m: Entries, k: string, w: string, rest: string, v: string)
    requires EndsLine(rest)
    ensures Fails(Scan(Value, k, w, m), "\\" + rest, k, v)
  {
    hide Run, Finish, Full;
    var s := Scan(Value, k, w, m);
    assert ("\\" + rest)[0] == '\\';
    Lost(s, "\\" + rest);
  }

  /** A line break in the middle of a value ends it there. */
  lemma BreakFails(m: Entries, k: string, w: string, c: char, rest: string, v: string)
    requires CleanKey(k) && IsNewline(c) && EndsLine(rest) && |w| < |v|
    ensures Fails(Scan(Value, k, w, m), [c] + rest, k, v)
    ensures w == "" ==> Fails(AtValue(m, k), [c] + rest, k, v)
  {
    hide Run, Finish, Full, CleanKey, TrimEnd;
    CleanKeyTrimmed(k);
    RunBreak(Scan(Value, k, w, m), c, rest, k, v);
    if w == "" {
      RunBreak(AtValue(m, k), c, rest, k, v);
    }
  }

  lemma RunBreak(s: Scan, c: char, rest: string, k: string, v: string)
    requires s.state in {PreValue, Value} && TrimEnd(s.key) == k && IsNewline(c) && EndsLine(rest) && |s.value| < |v|
    ensures Fails(s, [c] + rest, k, v)
  {
    hide Run, Finish, Full, TrimEnd;
    var t := Step(s, c);
    assert k in t.entries && |t.entries[k]| < |v|;
    RunConcat(s, [c], rest);
    RunChar(s, c);
    KeptOrLost(t, rest, k);
    StepPotential(s, c);
  }

  /** Trailing white space of a value is lost. */
  lemma TrimFails(m: Entries, k: string, v: string, more: string)
    requires CleanKey(k) && v != "" && IsWhitespace(v[|v| - 1]) && (more == "" || EndsLine(more))
    ensures Fails(Scan(Value, k, v, m), "\n" + more, k, v)
  {
    hide Run, Finish, Full, CleanKey, IsWhitespace, Potential;
    CleanKeyTrimmed(k);
    assert |TrimEnd(v)| < |v| by {
      TrimShortens(v);
    }
    if more == "" {
      assert "\n" + more == ['\n'];
      RunChar(Scan(Value, k, v, m), '\n');
      TrimmedLast(m, k, v);
    } else {
      TrimmedStep(m, k, v);
      assert ("\n" + more)[0] == '\n';
      Lost(Scan(Value, k, v, m), "\n" + more);
    }
  }

  lemma TrimShortens(v: string)
    requires v != "" && IsWhitespace(v[|v| - 1])
    ensures |TrimEnd(v)| < |v|
  {
  }

  lemma TrimmedStep(m: Entries, k: string, v: string)
    requires TrimEnd(k) == k && |TrimEnd(v)| < |v|
    ensures Potential(Step(Scan(Value, k, v, m), '\n')) <= Potential(Scan(Value, k, v, m))
  {
    hide Full, TrimEnd;
    FullUpdate(m, k, TrimEnd(v));
  }

  lemma TrimmedLast(m: Entries, k: string, v: string)
    requires TrimEnd(k) == k && |TrimEnd(v)| < |v|
    ensures var r := Finish(Step(Scan(Value, k, v, m), '\n')); k in r && r[k] != v
  {
    hide Full, TrimEnd;
  }

  lemma ShiftedEnd(x: string, a: char, b: char)
    requires x + [a] == [b] + x
    ensures a == b
  {
    assert multiset(x + [a]) == multiset(x) + multiset{a};
    assert multiset([b] + x) == multiset{b} + multiset(x);
    assert multiset{a} == multiset(x + [a]) - multiset(x) == multiset{b};
    assert a in multiset{b};
  }

  /** An opening quote fails too, or swallows everything that follows. */
  lemma QuoteFails(m: Entries, k: string, v: string, more: string)
    requires CleanKey(k) && v != "" && v[0] in {'\'', '"'} && (more == "" || EndsLine(more))
    ensures var text := v + "\n" + more;
      || Fails(AtValue(m, k), text, k, v)
      || (more != "" && Finish(Run(AtValue(m, k), text)).Keys == m.Keys + {k})
  {
    hide Run, Finish, Full, CleanKey, TrimEnd;
    var s := AtValue(m, k);
    var t := Step(s, v[0]);
    var rest := v[1..] + "\n" + more;
    assert v + "\n" + more == [v[0]] + rest;
    RunConcat(s, [v[0]], rest);
    RunChar(s, v[0]);
    QuotedOrLost(t, rest);
    CleanKeyTrimmed(k);
    assert Held(t) + rest == rest;
    if more == "" {
      assert rest == v[1..] + ['\n'];
      assert [v[0]] + v[1..] == v;
      if v[1..] + ['\n'] == [v[0]] + v[1..] {
        ShiftedEnd(v[1..], '\n', v[0]);
      }
    }
  }

  /** A value that is not clean does not come out, unless it swallows the lines that follow. */
  lemma UncleanFails(m: Entries, k: string, v: string, more: string)
    requires CleanKey(k) && !CleanValue(v) && (more == "" || EndsLine(more))
    ensures var text := v + "\n" + more;
      || Fails(AtValue(m, k), text, k, v)
      || (more != "" && Finish(Run(AtValue(m, k), text)).Keys == m.Keys + {k})
  {
    hide Run, Finish, Full, CleanKey, Fails, IsWhitespace;
    var s, text := AtValue(m, k), v + "\n" + more;
    if v[0] in {'\'', '"'} {
      QuoteFails(m, k, v, more);
    } else if v[0] == '\\' || v[0] == ' ' || v[0] == '\t' {
      BlankFails(m, k, v, more);
    } else if IsNewline(v[0]) {
      assert text == [v[0]] + (v[1..] + "\n" + more);
      BreakFails(m, k, "", v[0], v[1..] + "\n" + more, v);
    } else {
      OrdinaryFails(m, k, v, more);
    }
  }

  lemma BlankFails(m: Entries, k: string, v: string, more: string)
    requires v != "" && (v[0] == '\\' || v[0] == ' ' || v[0] == '\t') && (more == "" || EndsLine(more))
    ensures Fails(AtValue(m, k), v + "\n" + more, k, v)
  {
    hide Run, Finish, Full;
    assert (v + "\n" + more)[0] == v[0];
    Lost(AtValue(m, k), v + "\n" + more);
  }

  lemma OrdinaryFails(m: Entries, k: string, v: string, more: string)
    requires CleanKey(k) && !CleanValue(v) && (more == "" || EndsLine(more))
    requires v != "" && !IsBlank(v[0]) && v[0] != '\\' && v[0] != '\'' && v[0] != '"'
    ensures Fails(AtValue(m, k), v + "\n" + more, k, v)
  {
    hide Run, Finish, Full, CleanKey, Fails, IsWhitespace, Potential;
    var s, text := AtValue(m, k), v + "\n" + more;
    if exists n :: 0 <= n < |v| && !Ordinary(v[n]) {
      var i := FirstOdd(v);
      var w, rest := v[..i], v[i + 1..] + "\n" + more;
      assert text == w + ([v[i]] + rest);
      OrdinaryStart(m, k, w);
      if v[i] == '\\' {
        BackslashFails(m, k, w, rest, v);
        assert "\\" + rest == [v[i]] + rest;
      } else {
        BreakFails(m, k, w, v[i], rest, v);
      }
      FailsLater(s, w, [v[i]] + rest, k, v);
    } else {
      OrdinaryStart(m, k, v);
      TrimFails(m, k, v, more);
      FailsLater(s, v, "\n" + more, k, v);
      assert text == v + ("\n" + more);
    }
  }

  // ---------------------------------------------------------------------------------------------
  // A whole map

  ghost predicate Once(keys: seq<string>) {
    forall i, n :: 0 <= i < n < |keys| ==> keys[i] != keys[n]
  }

  lemma PrintEndsLine(entries: Entries, keys: seq<string>)
    requires forall i :: 0 <= i < |keys| ==> keys[i] in entries
    ensures keys != [] ==> EndsLine(Print(entries, keys))
    ensures keys == [] ==> Print(entries, keys) == ""
    decreases |keys|
  {
    if keys != [] {
      PrintEndsLine(entries, keys[1..]);
    }
  }

  lemma {:induction false} PrintLength(m: Entries, entries: Entries, keys: seq<string>)
    requires Once(keys) && forall i :: 0 <= i < |keys| ==> keys[i] in entries && keys[i] !in m
    ensures Full(m + Restrict(entries, keys)) == Full(m) + |Print(entries, keys)|
    decreases |keys|
  {
    hide Full;
    if keys == [] {
      assert m + Restrict(entries, keys) == m;
    } else {
      var k := keys[0];
      var n := m[k := entries[k]];
      FullUpdate(m, k, entries[k]);
      PrintLength(n, entries, keys[1..]);
      RestrictFirst(m, entries, keys);
    }
  }

  /** Line by line: if the whole map comes out, each value that is still to come is clean. */
  lemma {:induction false} LinesClean(m: Entries, entries: Entries, keys: seq<string>)
    requires Once(keys) && forall i :: 0 <= i < |keys| ==> keys[i] in entries && keys[i] !in m && CleanKey(keys[i])
    requires Full(entries) == Full(m) + |Print(entries, keys)|
    requires Finish(Run(START.(entries := m), Print(entries, keys))) == entries
    ensures forall i :: 0 <= i < |keys| ==> CleanValue(entries[keys[i]])
    decreases |keys|
  {
    hide Run, Finish, Full, CleanKey, CleanValue;
    if keys != [] {
      var k, more := keys[0], Print(entries, keys[1..]);
      var v := entries[k];
      PrintEndsLine(entries, keys[1..]);
      RunKey(m, k);
      RunConcat(START.(entries := m), k + "=", v + "\n" + more);
      assert Print(entries, keys) == k + "=" + (v + "\n" + more);
      FirstClean(m, k, v, more, entries, keys);
      RunLine(m, k, v);
      RunConcat(START.(entries := m), k + "=" + v + "\n", more);
      FullUpdate(m, k, v);
      LinesClean(m[k := v], entries, keys[1..]);
    }
  }

  lemma FirstClean(m: Entries, k: string, v: string, more: string, entries: Entries, keys: seq<string>)
    requires CleanKey(k) && keys != [] && keys[0] == k && Once(keys) && k in entries && entries[k] == v
    requires forall i :: 0 <= i < |keys| ==> keys[i] in entries && keys[i] !in m
    requires |keys| == 1 ==> more == ""
    requires |keys| > 1 ==> EndsLine(more)
    requires Full(entries) == Full(m) + |k| + |v| + 2 + |more|
    requires Finish(Run(AtValue(m, k), v + "\n" + more)) == entries
    ensures CleanValue(v)
  {
    hide Run, Finish, Full, CleanKey, CleanValue;
    assert |keys| > 1 ==> keys[1] in entries.Keys && keys[1] !in m.Keys + {k};
    if !CleanValue(v) {
      UncleanFails(m, k, v, more);
    }
  }

  /** With clean keys, printing and parsing gives the map back if and only if all its values are clean. */
  lemma PrintThenParseExactly(entries: Entries, keys: seq<string>)
    requires Once(keys) && (forall k :: k in keys <==> k in entries) && forall k :: k in entries ==> CleanKey(k)
    ensures Parse(Print(entries, keys)) == entries <==> forall k :: k in entries ==> CleanValue(entries[k])
  {
    hide Run, Finish, Full, CleanKey, CleanValue;
    if Parse(Print(entries, keys)) == entries {
      assert Full(map[]) == 0 by {
        EmptyFull();
      }
      PrintLength(map[], entries, keys);
      assert map[] + Restrict(entries, keys) == entries;
      assert START == START.(entries := map[]);
      LinesClean(map[], entries, keys);
    }
    if forall k :: k in entries ==> CleanValue(entries[k]) {
      PrintThenParse(entries, keys);
    }
  }

  lemma EmptyFull()
    ensures Full(map[]) == 0
  {
  }

  /** The os-release of a generation reads back as it was built if and only if the sort key is clean, the label is
      clean and not empty, and the specialisation name has no line break and no backslash. */
  lemma GenerationReadBackExactly(g: Generation)
    requires PlainDate(g)
    ensures Parse(GenerationText(g)) == FromGeneration(g) <==>
            CleanValue(g.sortKey) && CleanLabel(g.label_) && NoBreaks(g.DescribeSpecialisation())
  {
    hide Parse, Print, CleanValue, CleanLabel, NoBreaks;
    GenerationKeysClean();
    assert FromGeneration(g).Keys == {"ID", "PRETTY_NAME", "VERSION_ID"};
    GenerationEntriesClean(g);
    PrintThenParseExactly(FromGeneration(g), GENERATION_KEYS);
  }

  lemma GenerationKeysClean()
    ensures CleanKey("ID") && CleanKey("PRETTY_NAME") && CleanKey("VERSION_ID") && Once(GENERATION_KEYS)
    ensures forall k :: k in GENERATION_KEYS <==> k in {"ID", "PRETTY_NAME", "VERSION_ID"}
  {
  }
}
