/** Stub file names, the pattern that finds them again, and boot counters. */
module StubNames {
  import opened FileSystem
  import opened EfiPaths

  const DIGITS := "0123456789"

  predicate IsDigit(c: char) {
    '0' <= c <= '9'
  }

  predicate AllDigits(s: string) {
    forall i :: 0 <= i < |s| ==> IsDigit(s[i])
  }

  function Decimal(n: nat): (s: string)
    ensures s != "" && AllDigits(s)
  {
    if n < 10 then [DIGITS[n]] else Decimal(n / 10) + [DIGITS[n % 10]]
  }

  function DecimalValue(s: string): int {
    if s == "" then 0 else 10 * DecimalValue(s[..|s| - 1]) + (s[|s| - 1] as int - '0' as int)
  }

  lemma {:induction false} DecimalRoundTrip(n: nat)
    ensures DecimalValue(Decimal(n)) == n
  {
    if n >= 10 {
      DecimalRoundTrip(n / 10);
      assert Decimal(n)[..|Decimal(n)| - 1] == Decimal(n / 10);
    }
  }

  const HASH_LENGTH := 52

  predicate IsBase32Char(c: char) {
    'a' <= c <= 'z' || '2' <= c <= '7'
  }

  /** Unpadded base32 of a 32-byte digest: section 6 of RFC 4648, in the lower-case alphabet. */
  predicate IsHashString(h: string) {
    |h| == HASH_LENGTH && forall i :: 0 <= i < |h| ==> IsBase32Char(h[i])
  }

  /** What a stub name is made from; `hash` addresses the toplevel and the public key. */
  datatype StubId = StubId(version: nat, specialisation: Option<string>, hash: string)

  const PREFIX := "nixos-generation-"

  function Infix(specialisation: Option<string>): string {
    match specialisation
    case None => "-"
    case Some(name) => "-specialisation-" + name + "-"
  }

  function StubPrefix(id: StubId): (r: string)
    ensures StartsWith(r, "nixos-")
  {
    PREFIX + Decimal(id.version) + Infix(id.specialisation) + id.hash
  }

  function StubName(id: StubId, tries: nat): string {
    StubPrefix(id) + (if tries > 0 then "+" + Decimal(tries) else "") + ".efi"
  }

  /** "Boot counting" section of the Boot Loader Specification: `+left`, or `+left-done`. */
  datatype Counter = NoCounter | Left(left: string) | LeftDone(left: string, done: string) {
    function Text(): string {
      match this
      case NoCounter => ""
      case Left(l) => "+" + l
      case LeftDone(l, d) => "+" + l + "-" + d
    }

    predicate Valid() {
      match this
      case NoCounter => true
      case Left(l) => l != "" && AllDigits(l)
      case LeftDone(l, d) => l != "" && AllDigits(l) && d != "" && AllDigits(d)
    }
  }

  /** `name` is the prefix, then `counter`, then the extension. */
  predicate MatchesWith(id: StubId, counter: Counter, name: string) {
    counter.Valid() && name == StubPrefix(id) + counter.Text() + ".efi"
  }

  predicate IsNumber(s: string) {
    s != "" && AllDigits(s)
  }

  predicate IsCounterText(m: string) {
    || m == ""
    || (m[0] == '+' && IsNumber(m[1..]))
    || (m[0] == '+' && exists k :: 1 <= k < |m| && m[k] == '-' && IsNumber(m[1..k]) && IsNumber(m[k + 1..]))
  }

  /** The search pattern `^<prefix>(\+\d+(-\d+)?)?\.efi$` matches `name`. */
  predicate Matches(id: StubId, name: string) {
    && |StubPrefix(id)| + |".efi"| <= |name|
    && StartsWith(name, StubPrefix(id)) && EndsWith(name, ".efi")
    && IsCounterText(name[|StubPrefix(id)|..|name| - |".efi"|])
  }

  lemma CounterTextIsCounter(m: string) returns (counter: Counter)
    requires IsCounterText(m)
    ensures counter.Valid() && counter.Text() == m
  {
    hide AllDigits;
    if m == "" {
      counter := NoCounter;
    } else if IsNumber(m[1..]) {
      counter := Left(m[1..]);
    } else {
      var k :| 1 <= k < |m| && m[k] == '-' && IsNumber(m[1..k]) && IsNumber(m[k + 1..]);
      counter := LeftDone(m[1..k], m[k + 1..]);
      assert m == [m[0]] + m[1..k] + [m[k]] + m[k + 1..];
    }
  }

  lemma CounterIsCounterText(counter: Counter)
    requires counter.Valid()
    ensures IsCounterText(counter.Text())
  {
    var m := counter.Text();
    match counter {
      case NoCounter =>
      case Left(l) =>
        assert m[1..] == l;
      case LeftDone(l, d) =>
        var k := 1 + |l|;
        assert m[k] == '-' && m[1..k] == l && m[k + 1..] == d;
    }
  }

  lemma MatchHasCounter(id: StubId, name: string) returns (counter: Counter)
    requires Matches(id, name)
    ensures MatchesWith(id, counter, name)
  {
    hide StubPrefix, IsCounterText;
    var n := |StubPrefix(id)|;
    var m := name[n..|name| - 4];
    counter := CounterTextIsCounter(m);
    assert name == name[..n] + m + name[|name| - 4..];
  }

  lemma CounterMatches(id: StubId, counter: Counter, name: string)
    requires MatchesWith(id, counter, name)
    ensures Matches(id, name)
  {
    hide StubPrefix, IsCounterText;
    CounterIsCounterText(counter);
    assert name[|StubPrefix(id)|..|name| - 4] == counter.Text();
  }

  /** The pattern matches exactly the prefix with a well-formed counter and the extension. */
  lemma MatchesExactly(id: StubId, name: string)
    ensures Matches(id, name) <==> exists counter :: MatchesWith(id, counter, name)
  {
    hide Matches, MatchesWith;
    if Matches(id, name) {
      var counter := MatchHasCounter(id, name);
    }
    if counter :| MatchesWith(id, counter, name) {
      CounterMatches(id, counter, name);
    }
  }

  /** Whatever the tool writes for a generation, it recognises again. */
  lemma StubNameMatches(id: StubId, tries: nat)
    ensures Matches(id, StubName(id, tries))
  {
    var counter := if tries > 0 then Left(Decimal(tries)) else NoCounter;
    assert MatchesWith(id, counter, StubName(id, tries));
    MatchesExactly(id, StubName(id, tries));
  }

  function TrailingDigits(s: string): (n: nat)
    ensures n <= |s|
  {
    if s == "" || !IsDigit(s[|s| - 1]) then 0 else 1 + TrailingDigits(s[..|s| - 1])
  }

  lemma {:induction false} TrailingDigitsOf(a: string, d: string)
    requires a != "" && !IsDigit(a[|a| - 1]) && AllDigits(d)
    ensures TrailingDigits(a + d) == |d|
  {
    if d == "" {
      assert a + d == a;
    } else {
      TrailingDigitsOf(a, d[..|d| - 1]);
      assert (a + d)[..|a + d| - 1] == a + d[..|d| - 1];
    }
  }

  /** The character before the trailing digits, and how many of those there are. */
  function Stop(s: string): (nat, char) {
    var n := TrailingDigits(s);
    (n, if n < |s| then s[|s| - n - 1] else '0')
  }

  lemma StopOf(a: string, c: char, d: string)
    requires !IsDigit(c) && AllDigits(d)
    ensures Stop(a + [c] + d) == (|d|, c)
  {
    TrailingDigitsOf(a + [c], d);
  }

  lemma {:induction false} StopOfHash(a: string, h: string)
    requires a != "" && a[|a| - 1] == '-' && forall i :: 0 <= i < |h| ==> IsBase32Char(h[i])
    ensures var (n, c) := Stop(a + h); IsBase32Char(c) || (n == |h| && c == '-' && AllDigits(h))
  {
    var s := a + h;
    if h == "" {
      assert s == a;
    } else if IsDigit(h[|h| - 1]) {
      assert s[..|s| - 1] == a + h[..|h| - 1];
      StopOfHash(a, h[..|h| - 1]);
    }
  }

  lemma SplitAtDash(a: string, x: string, b: string, y: string)
    requires a + "-" + x == b + "-" + y && '-' !in a && '-' !in b
    ensures a == b && x == y
  {
    var s := a + "-" + x;
    assert s[|a|] == '-' && s[|b|] == '-';
    assert |a| == |b|;
    assert a == s[..|a|] && b == s[..|b|];
    assert x == s[|a| + 1..];
  }

  lemma CutSuffix(a: string, x: string, b: string, y: string)
    requires a + x == b + y && |x| == |y|
    ensures a == b && x == y
  {
    assert a == (a + x)[..|a|];
    assert x == (a + x)[|a|..];
  }

  /** The pathological pair: a "done" counter that is, digit for digit, the hash of the other name. */
  predicate Ambiguous(c1: Counter, id2: StubId) {
    c1.LeftDone? && |c1.done| == HASH_LENGTH && AllDigits(id2.hash)
  }

  /** The counter of a stub name can be read off the name alone. */
  lemma CounterUnique(id1: StubId, c1: Counter, id2: StubId, c2: Counter)
    requires IsHashString(id1.hash) && IsHashString(id2.hash) && c1.Valid() && c2.Valid()
    requires StubPrefix(id1) + c1.Text() == StubPrefix(id2) + c2.Text()
    requires !Ambiguous(c1, id2) && !Ambiguous(c2, id1)
    ensures c1 == c2
  {
    CounterStop(id1, c1);
    CounterStop(id2, c2);
    SameStops(StubPrefix(id1), c1, StubPrefix(id2), c2);
  }

  /** A boot loader that looks only at the end of the name finds the same counter as the tool. */
  lemma CounterFound(id: StubId, c: Counter, base: string, counted: Counter)
    requires IsHashString(id.hash) && c.Valid() && counted.Valid() && !counted.NoCounter?
    requires StubPrefix(id) + c.Text() == base + counted.Text()
    requires !Ambiguous(counted, id)
    ensures c == counted && base == StubPrefix(id)
  {
    CounterStop(id, c);
    StopOfCounter(base, counted);
    SameStops(StubPrefix(id), c, base, counted);
    CutSuffix(StubPrefix(id), c.Text(), base, counted.Text());
  }

  lemma SameStops(p1: string, c1: Counter, p2: string, c2: Counter)
    requires p1 + c1.Text() == p2 + c2.Text() && c1.Valid() && c2.Valid()
    requires c1.NoCounter? <==> c2.NoCounter?
    requires c1.Left? <==> c2.Left?
    requires c1.Left? ==> |c1.left| == |c2.left|
    requires c1.LeftDone? ==> |c1.done| == |c2.done|
    ensures c1 == c2
  {
    match c1 {
      case NoCounter =>
      case Left(l) =>
        CutSuffixAt(p1, '+', l, p2, c2.left);
      case LeftDone(l, d) =>
        DoneText(p1, c1);
        DoneText(p2, c2);
        SameDone(p1, l, d, p2, c2.left, c2.done);
    }
  }

  lemma SameDone(p1: string, l1: string, d1: string, p2: string, l2: string, d2: string)
    requires p1 + "+" + l1 + ("-" + d1) == p2 + "+" + l2 + ("-" + d2) && |d1| == |d2|
    requires AllDigits(l1) && AllDigits(l2)
    ensures l1 == l2 && d1 == d2
  {
    CutSuffixAt(p1 + "+" + l1, '-', d1, p2 + "+" + l2, d2);
    StopOf(p1, '+', l1);
    StopOf(p2, '+', l2);
    CutSuffix(p1 + "+", l1, p2 + "+", l2);
  }

  lemma CutSuffixAt(a: string, c: char, x: string, b: string, y: string)
    requires a + ([c] + x) == b + ([c] + y) && |x| == |y|
    ensures a == b && x == y
  {
    CutSuffix(a, [c] + x, b, [c] + y);
    assert x == ([c] + x)[1..];
  }

  lemma DoneText(p: string, c: Counter)
    requires c.LeftDone?
    ensures p + c.Text() == p + "+" + c.left + ("-" + c.done)
  {
  }

  lemma StopOfCounter(p: string, counter: Counter)
    requires counter.Valid() && !counter.NoCounter?
    ensures Stop(p + counter.Text()) == if counter.Left? then (|counter.left|, '+') else (|counter.done|, '-')
  {
    match counter {
      case Left(l) =>
        StopOf(p, '+', l);
        assert p + ("+" + l) == p + "+" + l;
      case LeftDone(l, d) =>
        StopOf(p + "+" + l, '-', d);
        assert p + ("+" + l + "-" + d) == p + "+" + l + "-" + d;
    }
  }

  lemma CounterStop(id: StubId, counter: Counter)
    requires IsHashString(id.hash) && counter.Valid()
    ensures var (n, c) := Stop(StubPrefix(id) + counter.Text());
      match counter
      case NoCounter => IsBase32Char(c) || (n == HASH_LENGTH && c == '-' && AllDigits(id.hash))
      case Left(l) => n == |l| && c == '+'
      case LeftDone(_, d) => n == |d| && c == '-'
  {
    var p := StubPrefix(id);
    if counter.NoCounter? {
      StopOfHash(PREFIX + Decimal(id.version) + Infix(id.specialisation), id.hash);
      assert p + "" == p;
    } else {
      StopOfCounter(p, counter);
    }
  }

  lemma DashFirst(specialisation: Option<string>)
    ensures Infix(specialisation) == "-" + Infix(specialisation)[1..]
  {
  }

  lemma DecimalNoDash(n: nat)
    ensures '-' !in Decimal(n)
  {
  }

  lemma VersionedInfixUnique(v1: nat, s1: Option<string>, v2: nat, s2: Option<string>)
    requires Decimal(v1) + Infix(s1) == Decimal(v2) + Infix(s2)
    ensures v1 == v2 && s1 == s2
  {
    hide Decimal, Infix, DecimalValue;
    var d1, d2, i1, i2 := Decimal(v1), Decimal(v2), Infix(s1), Infix(s2);
    DashFirst(s1);
    DashFirst(s2);
    DecimalNoDash(v1);
    DecimalNoDash(v2);
    assert d1 + i1 == d1 + "-" + i1[1..] && d2 + i2 == d2 + "-" + i2[1..];
    SplitAtDash(d1, i1[1..], d2, i2[1..]);
    DecimalRoundTrip(v1);
    DecimalRoundTrip(v2);
    InfixUnique(s1, s2);
  }

  lemma PrefixUnique(id1: StubId, id2: StubId)
    requires IsHashString(id1.hash) && IsHashString(id2.hash)
    requires StubPrefix(id1) == StubPrefix(id2)
    ensures id1 == id2
  {
    hide Decimal, Infix;
    var d1, d2 := Decimal(id1.version), Decimal(id2.version);
    var i1, i2 := Infix(id1.specialisation), Infix(id2.specialisation);
    CutSuffix(PREFIX + d1 + i1, id1.hash, PREFIX + d2 + i2, id2.hash);
    assert d1 + i1 == (PREFIX + d1 + i1)[|PREFIX|..] == d2 + i2;
    VersionedInfixUnique(id1.version, id1.specialisation, id2.version, id2.specialisation);
  }

  lemma InfixUnique(s1: Option<string>, s2: Option<string>)
    requires Infix(s1) == Infix(s2)
    ensures s1 == s2
  {
    if s1.Some? && s2.Some? {
      var n := |"-specialisation-"|;
      assert s1.value == Infix(s1)[n..|Infix(s1)| - 1] == s2.value;
    }
  }

  /** Search patterns of different generations never match the same file, unless a "done" counter has
      exactly as many digits as a hash that consists of digits only. */
  lemma PatternsExclusive(id1: StubId, c1: Counter, id2: StubId, c2: Counter, name: string)
    requires IsHashString(id1.hash) && IsHashString(id2.hash)
    requires MatchesWith(id1, c1, name) && MatchesWith(id2, c2, name)
    requires !Ambiguous(c1, id2) && !Ambiguous(c2, id1)
    ensures id1 == id2 && c1 == c2
  {
    var s1, s2 := StubPrefix(id1) + c1.Text(), StubPrefix(id2) + c2.Text();
    assert s1 == name[..|name| - 4] == s2;
    CounterUnique(id1, c1, id2, c2);
    assert StubPrefix(id1) == s1[..|s1| - |c1.Text()|] == StubPrefix(id2);
    PrefixUnique(id1, id2);
  }

  /** Without all-digit hashes there is no exception. */
  predicate IsProper(id: StubId) {
    IsHashString(id.hash) && !AllDigits(id.hash)
  }

  lemma ProperPatternsExclusive(id1: StubId, id2: StubId, name: string)
    requires IsProper(id1) && IsProper(id2) && Matches(id1, name) && Matches(id2, name)
    ensures id1 == id2
  {
    MatchesExactly(id1, name);
    MatchesExactly(id2, name);
    var c1 :| MatchesWith(id1, c1, name);
    var c2 :| MatchesWith(id2, c2, name);
    PatternsExclusive(id1, c1, id2, c2, name);
  }

  lemma SpecialisedPrefix(id: StubId)
    requires id.specialisation.Some?
    ensures StubPrefix(id) ==
      PREFIX + Decimal(id.version) + "-specialisation-" + id.specialisation.value + "-" + id.hash
  {
    hide Decimal;
    var d := PREFIX + Decimal(id.version);
    assert d + ("-specialisation-" + id.specialisation.value + "-") ==
      d + "-specialisation-" + id.specialisation.value + "-";
  }

  lemma DoneThree(digits: string)
    requires digits != "" && AllDigits(digits)
    ensures LeftDone("3", digits).Valid() && LeftDone("3", digits).Text() == "+3-" + digits
    ensures NoCounter.Valid() && NoCounter.Text() == ""
  {
  }

  lemma Regroup(head: string, name: string, h: string, digits: string)
    ensures head + (name + "-" + h + "+3") + "-" + digits == head + name + "-" + h + ("+3-" + digits)
  {
  }

  /** The exception is real: a crafted specialisation name and an all-digit hash. */
  lemma PatternsCollide(version: nat, name: string, h: string, digits: string)
    requires IsHashString(h) && IsHashString(digits) && AllDigits(digits)
    ensures var id1 := StubId(version, Some(name + "-" + h + "+3"), digits);
      var id2 := StubId(version, Some(name), h);
      var file := StubName(id1, 0);
      id1 != id2 && MatchesWith(id1, NoCounter, file) && MatchesWith(id2, LeftDone("3", digits), file)
  {
    hide Decimal, StubPrefix, Counter.Text, Counter.Valid;
    var id1 := StubId(version, Some(name + "-" + h + "+3"), digits);
    var id2 := StubId(version, Some(name), h);
    assert |name + "-" + h + "+3"| != |name|;
    var head := PREFIX + Decimal(version) + "-specialisation-";
    SpecialisedPrefix(id1);
    SpecialisedPrefix(id2);
    var done := LeftDone("3", digits);
    DoneThree(digits);
    Regroup(head, name, h, digits);
    assert StubPrefix(id1) == StubPrefix(id2) + done.Text();
    assert StubName(id1, 0) == StubPrefix(id1) + "" + ".efi";
  }

  /** The plain name of `a` reads as the name of `b` with a counter whose "done" part is the hash of `a`. */
  ghost predicate Shadows(a: StubId, b: StubId) {
    AllDigits(a.hash) && exists left :: IsNumber(left) && StubPrefix(a) == StubPrefix(b) + LeftDone(left, a.hash).Text()
  }

  lemma ShadowedMatches(a: StubId, b: StubId)
    requires IsHashString(a.hash) && Shadows(a, b)
    ensures Matches(a, StubName(a, 0)) && Matches(b, StubName(a, 0))
  {
    hide StubPrefix, Counter.Text, Matches;
    StubNameMatches(a, 0);
    var left :| IsNumber(left) && StubPrefix(a) == StubPrefix(b) + LeftDone(left, a.hash).Text();
    assert StubName(a, 0) == StubPrefix(a) + "" + ".efi" == StubPrefix(a) + ".efi";
    CounterMatches(b, LeftDone(left, a.hash), StubName(a, 0));
  }

  lemma SharedStems(id1: StubId, c1: Counter, id2: StubId, c2: Counter, name: string)
    requires MatchesWith(id1, c1, name) && MatchesWith(id2, c2, name)
    ensures StubPrefix(id1) + c1.Text() == StubPrefix(id2) + c2.Text()
  {
    hide StubPrefix, Counter.Text;
    CutSuffix(StubPrefix(id1) + c1.Text(), ".efi", StubPrefix(id2) + c2.Text(), ".efi");
  }

  /** An ambiguous counter of one identity is the end of the plain name of the other. */
  lemma AmbiguousShadows(id1: StubId, c1: Counter, id2: StubId, c2: Counter)
    requires IsHashString(id1.hash) && IsHashString(id2.hash) && c1.Valid() && c2.Valid() && id1 != id2
    requires StubPrefix(id1) + c1.Text() == StubPrefix(id2) + c2.Text()
    requires Ambiguous(c1, id2)
    ensures Shadows(id2, id1)
  {
    hide StubPrefix, Stop, IsHashString;
    CounterStop(id1, c1);
    CounterStop(id2, c2);
    if c2.LeftDone? {
      SameStops(StubPrefix(id1), c1, StubPrefix(id2), c2);
      CutSuffix(StubPrefix(id1), c1.Text(), StubPrefix(id2), c2.Text());
      PrefixUnique(id1, id2);
    }
    assert StubPrefix(id2) + "" == StubPrefix(id2);
    PlainEnd(id2);
    HashIsDone(id1, c1, id2);
  }

  lemma PlainEnd(id: StubId)
    ensures |StubPrefix(id)| >= |id.hash| && StubPrefix(id) == StubPrefix(id)[..|StubPrefix(id)| - |id.hash|] + id.hash
  {
    var p := StubPrefix(id);
    assert p[|p| - |id.hash|..] == id.hash;
  }

  lemma HashIsDone(id1: StubId, c1: Counter, id2: StubId)
    requires IsHashString(id2.hash) && c1.Valid() && Ambiguous(c1, id2)
    requires StubPrefix(id2) == StubPrefix(id1) + c1.Text()
    ensures Shadows(id2, id1)
  {
    hide StubPrefix;
    PlainEnd(id2);
    DoneText(StubPrefix(id1), c1);
    var head, rest := StubPrefix(id1) + "+" + c1.left + "-", StubPrefix(id2)[..|StubPrefix(id2)| - HASH_LENGTH];
    assert StubPrefix(id1) + "+" + c1.left + ("-" + c1.done) == head + c1.done;
    CutSuffix(head, c1.done, rest, id2.hash);
    assert c1 == LeftDone(c1.left, id2.hash);
  }

  /** Exactly when the search patterns of two identities have a file name in common. */
  lemma PatternsShareExactly(id1: StubId, id2: StubId)
    requires IsHashString(id1.hash) && IsHashString(id2.hash) && id1 != id2
    ensures (exists name :: Matches(id1, name) && Matches(id2, name)) <==> Shadows(id1, id2) || Shadows(id2, id1)
  {
    hide Matches, MatchesWith, Shadows, StubPrefix, IsHashString, Ambiguous, Counter.Text;
    if name :| Matches(id1, name) && Matches(id2, name) {
      var c1 := MatchHasCounter(id1, name);
      var c2 := MatchHasCounter(id2, name);
      SharedStems(id1, c1, id2, c2, name);
      CountersValid(id1, c1, id2, c2, name);
      if Ambiguous(c1, id2) {
        AmbiguousShadows(id1, c1, id2, c2);
      } else if Ambiguous(c2, id1) {
        AmbiguousShadows(id2, c2, id1, c1);
      } else {
        PatternsExclusive(id1, c1, id2, c2, name);
      }
    }
    if Shadows(id1, id2) {
      ShadowedMatches(id1, id2);
    }
    if Shadows(id2, id1) {
      ShadowedMatches(id2, id1);
    }
  }

  lemma CountersValid(id1: StubId, c1: Counter, id2: StubId, c2: Counter, name: string)
    requires MatchesWith(id1, c1, name) && MatchesWith(id2, c2, name)
    ensures c1.Valid() && c2.Valid()
  {
  }

  // ---------------------------------------------------------------------------------------------
  // Reading a name back

  function FirstDash(s: string): (i: nat)
    ensures i <= |s| && '-' !in s[..i] && (i < |s| ==> s[i] == '-')
  {
    if s == "" || s[0] == '-' then 0 else 1 + FirstDash(s[1..])
  }

  /** The middle of a name: the version, and "-" or "-specialisation-", the name and "-". */
  function ReadMiddle(middle: string, hash: string): Option<StubId> {
    var i := FirstDash(middle);
    var rest := middle[i..];
    var version := DecimalValue(middle[..i]);
    if version < 0 then None
    else if rest == "-" then Some(StubId(version, None, hash))
    else if StartsWith(rest, "-specialisation-") && |rest| > 16 then
      Some(StubId(version, Some(rest[16..|rest| - 1]), hash))
    else None
  }

  /** What a stub's file name says: from its end the counter and the hash, from its beginning the version. */
  function ReadStubName(name: string): Option<(StubId, nat)> {
    if !EndsWith(name, ".efi") then None
    else
      var stem := name[..|name| - 4];
      var (n, c) := Stop(stem);
      var counted := c == '+' && 0 < n < |stem|;
      var tries := if counted then DecimalValue(stem[|stem| - n..]) else 0;
      var base := if counted then stem[..|stem| - n - 1] else stem;
      if tries < 0 || !StartsWith(base, "nixos-generation-") || |base| < 17 + HASH_LENGTH then None
      else
        match ReadMiddle(base[17..|base| - HASH_LENGTH], base[|base| - HASH_LENGTH..])
        case None => None
        case Some(id) => Some((id, tries))
  }

  lemma {:induction false} FirstDashAt(s: string, t: string)
    requires '-' !in s && t != "" && t[0] == '-'
    ensures FirstDash(s + t) == |s|
    decreases |s|
  {
    if s == "" {
      assert s + t == t;
    } else {
      assert (s + t)[1..] == s[1..] + t;
      FirstDashAt(s[1..], t);
    }
  }

  lemma MiddleReadBack(id: StubId)
    ensures ReadMiddle(Decimal(id.version) + Infix(id.specialisation), id.hash) == Some(id)
  {
    hide Decimal, DecimalValue, FirstDash;
    var d, t := Decimal(id.version), Infix(id.specialisation);
    var middle := d + t;
    DecimalNoDash(id.version);
    DecimalRoundTrip(id.version);
    FirstDashAt(d, t);
    assert middle[..|d|] == d && middle[|d|..] == t;
    if id.specialisation.Some? {
      assert t[16..|t| - 1] == id.specialisation.value;
    }
  }

  lemma StemReadBack(id: StubId, tries: nat)
    requires IsHashString(id.hash)
    ensures var stem := StubPrefix(id) + (if tries > 0 then "+" + Decimal(tries) else "");
      var (n, c) := Stop(stem);
      && (tries == 0 ==> stem == StubPrefix(id) && c != '+')
      && (tries > 0 ==>
          && c == '+' && 0 < n < |stem|
          && stem[|stem| - n..] == Decimal(tries) && stem[..|stem| - n - 1] == StubPrefix(id))
  {
    hide StubPrefix, Decimal, Stop;
    var p := StubPrefix(id);
    if tries == 0 {
      CounterStop(id, NoCounter);
      assert p + "" == p;
    } else {
      var counter := Left(Decimal(tries));
      CounterStop(id, counter);
      var stem, n := p + ("+" + Decimal(tries)), |Decimal(tries)|;
      assert stem[|stem| - n..] == Decimal(tries);
      assert stem[..|stem| - n - 1] == p;
    }
  }

  lemma PrefixReadBack(id: StubId)
    requires IsHashString(id.hash)
    ensures var base := StubPrefix(id);
      && StartsWith(base, "nixos-generation-") && |base| >= 17 + HASH_LENGTH
      && base[17..|base| - HASH_LENGTH] == Decimal(id.version) + Infix(id.specialisation)
      && base[|base| - HASH_LENGTH..] == id.hash
  {
    hide Decimal, Infix;
    var d, t := Decimal(id.version), Infix(id.specialisation);
    assert StubPrefix(id) == "nixos-generation-" + (d + t) + id.hash;
    assert |"nixos-generation-"| == 17;
  }

  /** A stub's name can be read back: version, specialisation and hash, and as its counter exactly the number of
      tries, or none if that is zero. */
  lemma StubNameReadBack(id: StubId, tries: nat)
    requires IsHashString(id.hash)
    ensures ReadStubName(StubName(id, tries)) == Some((id, tries))
  {
    hide StubPrefix, Decimal, Stop, ReadMiddle, DecimalValue, Infix, IsHashString;
    var stem := StubPrefix(id) + (if tries > 0 then "+" + Decimal(tries) else "");
    assert StubName(id, tries) == stem + ".efi" && (stem + ".efi")[..|stem|] == stem;
    StemReadBack(id, tries);
    PrefixReadBack(id);
    MiddleReadBack(id);
    DecimalRoundTrip(tries);
  }

  /** File names in `EFI/Linux` that the tool regards as its own stubs. */
  predicate IsStubName(name: string) {
    StartsWith(name, "nixos-") && EndsWith(name, ".efi")
  }

  lemma MatchingIsStubName(id: StubId, name: string)
    requires Matches(id, name)
    ensures IsStubName(name)
  {
    assert "nixos-" <= StubPrefix(id) <= name;
  }
}
