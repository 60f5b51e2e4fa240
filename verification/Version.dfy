/** Semantic versions, per sections 2, 9 and 10 of Semantic Versioning 2.0.0, and
    the long output of git describe. */
module Version {
  import opened Wrappers

  predicate Digit(c: char) {
    '0' <= c <= '9'
  }

  predicate Alpha(c: char) {
    'a' <= c <= 'z' || 'A' <= c <= 'Z'
  }

  predicate Hex(c: char) {
    Digit(c) || 'a' <= c <= 'f' || 'A' <= c <= 'F'
  }

  /** The character classes by their ASCII codes. */
  lemma ClassesAreAscii(c: char)
    ensures Digit(c) <==> 48 <= c as int <= 57
    ensures Alpha(c) <==> 97 <= c as int <= 122 || 65 <= c as int <= 90
    ensures Hex(c) <==> 48 <= c as int <= 57 || 97 <= c as int <= 102 || 65 <= c as int <= 70
  {
  }

  predicate IdentifierChar(c: char) {
    Digit(c) || Alpha(c) || c == '-'
  }

  predicate Decimal(s: string) {
    s != "" && forall c | c in s :: Digit(c)
  }

  /** Digits without a leading zero. */
  predicate CoreNumber(s: string) {
    Decimal(s) && (|s| == 1 || s[0] != '0')
  }

  predicate BuildIdentifier(s: string) {
    s != "" && forall c | c in s :: IdentifierChar(c)
  }

  predicate PrereleaseIdentifier(s: string) {
    BuildIdentifier(s) && (Decimal(s) ==> CoreNumber(s))
  }

  function Join(parts: seq<string>, c: char): string {
    if parts == [] then ""
    else if |parts| == 1 then parts[0]
    else parts[0] + [c] + Join(parts[1..], c)
  }

  /** strings.Split: always at least one part. */
  function Split(s: string, c: char): (parts: seq<string>)
    ensures parts != []
  {
    if s == "" then [""]
    else if s[0] == c then [""] + Split(s[1..], c)
    else
      var rest := Split(s[1..], c);
      [[s[0]] + rest[0]] + rest[1..]
  }

  lemma SplitThenJoin(s: string, c: char)
    ensures Join(Split(s, c), c) == s
    ensures forall p | p in Split(s, c) :: c !in p
  {
    JoinOfSplit(s, c);
    PartsOfSplit(s, c);
  }

  lemma {:induction false} JoinOfSplit(s: string, c: char)
    ensures Join(Split(s, c), c) == s
  {
    if s != "" {
      JoinOfSplit(s[1..], c);
      var rest := Split(s[1..], c);
      if s[0] == c {
        assert ([""] + rest)[1..] == rest;
      } else {
        JoinPrepended(s[0], rest, c);
      }
    }
  }

  lemma {:induction false} PartsOfSplit(s: string, c: char)
    ensures forall p | p in Split(s, c) :: c !in p
  {
    if s != "" {
      PartsOfSplit(s[1..], c);
      var rest := Split(s[1..], c);
      assert rest[0] in rest;
    }
  }

  lemma JoinPrepended(x: char, parts: seq<string>, c: char)
    requires parts != []
    ensures Join([[x] + parts[0]] + parts[1..], c) == [x] + Join(parts, c)
  {
    var more := [[x] + parts[0]] + parts[1..];
    assert more[0] == [x] + parts[0] && more[1..] == parts[1..];
  }

  lemma {:induction false} SplitOfOne(p: string, c: char)
    requires c !in p
    ensures Split(p, c) == [p]
  {
    if p != "" {
      assert p[0] in p && forall x | x in p[1..] :: x in p;
      SplitOfOne(p[1..], c);
      assert [p[0]] + p[1..] == p;
    }
  }

  lemma {:induction false} SplitOfCons(p: string, rest: string, c: char)
    requires c !in p
    ensures Split(p + [c] + rest, c) == [p] + Split(rest, c)
  {
    var s := p + [c] + rest;
    if p == "" {
      assert s[1..] == rest;
    } else {
      assert p[0] in p && forall x | x in p[1..] :: x in p;
      SplitOfCons(p[1..], rest, c);
      assert s[0] == p[0] && s[1..] == p[1..] + [c] + rest;
      assert [p[0]] + p[1..] == p;
    }
  }

  lemma {:induction false} JoinThenSplit(parts: seq<string>, c: char)
    requires parts != [] && forall p | p in parts :: c !in p
    ensures Split(Join(parts, c), c) == parts
  {
    if |parts| == 1 {
      SplitOfOne(parts[0], c);
    } else {
      JoinThenSplit(parts[1..], c);
      SplitOfCons(parts[0], Join(parts[1..], c), c);
    }
  }

  lemma {:induction false} JoinHas(parts: seq<string>, c: char, x: char)
    requires x != c && forall p | p in parts :: x !in p
    ensures x !in Join(parts, c)
  {
    if |parts| > 1 {
      JoinHas(parts[1..], c, x);
    }
  }

  /** strings.Cut at the first c; None when there is none. */
  function Cut(s: string, c: char): Option<(string, string)> {
    if s == "" then None
    else if s[0] == c then Some(("", s[1..]))
    else
      var rest := Cut(s[1..], c);
      if rest.None? then None else Some(([s[0]] + rest.value.0, rest.value.1))
  }

  lemma {:induction false} CutSplits(s: string, c: char)
    ensures Cut(s, c).None? <==> c !in s
    ensures Cut(s, c).Some? ==> s == Cut(s, c).value.0 + [c] + Cut(s, c).value.1 && c !in Cut(s, c).value.0
  {
    if s != "" {
      CutSplits(s[1..], c);
    }
  }

  lemma {:induction false} CutOf(a: string, b: string, c: char)
    requires c !in a
    ensures Cut(a + [c] + b, c) == Some((a, b))
  {
    var s := a + [c] + b;
    if a == "" {
      assert s[1..] == b;
    } else {
      assert a[0] in a && forall x | x in a[1..] :: x in a;
      CutOf(a[1..], b, c);
      assert s[0] == a[0] && s[1..] == a[1..] + [c] + b;
      assert [a[0]] + a[1..] == a;
    }
  }

  function Count(s: string, c: char): nat {
    if s == "" then 0 else (if s[0] == c then 1 else 0) + Count(s[1..], c)
  }

  lemma {:induction false} CountOfTwo(a: string, b: string, c: char)
    ensures Count(a + b, c) == Count(a, c) + Count(b, c)
  {
    if a == "" {
      assert a + b == b;
    } else {
      CountOfTwo(a[1..], b, c);
      assert (a + b)[1..] == a[1..] + b;
    }
  }

  lemma {:induction false} CountZero(s: string, c: char)
    ensures Count(s, c) == 0 <==> c !in s
  {
    if s != "" {
      CountZero(s[1..], c);
    }
  }

  // ---- The three loops.

  method AllDecimal(value: string) returns (ok: bool)
    ensures ok <==> Decimal(value)
  {
    if value == "" {
      return false;
    }
    for i := 0 to |value|
      invariant forall j | 0 <= j < i :: Digit(value[j])
    {
      if !Digit(value[i]) {
        return false;
      }
    }
    return true;
  }

  method AllHex(value: string) returns (ok: bool)
    ensures ok <==> value != "" && forall c | c in value :: Hex(c)
  {
    if value == "" {
      return false;
    }
    for i := 0 to |value|
      invariant forall j | 0 <= j < i :: Hex(value[j])
    {
      assert value[i] in value;
      if !Digit(value[i]) && !('a' <= value[i] <= 'f') && !('A' <= value[i] <= 'F') {
        return false;
      }
    }
    return true;
  }

  predicate IdentifiersOk(ids: seq<string>, prerelease: bool) {
    forall p | p in ids :: if prerelease then PrereleaseIdentifier(p) else BuildIdentifier(p)
  }

  method ValidIdentifiers(value: string, prerelease: bool) returns (ok: bool)
    ensures ok <==> IdentifiersOk(Split(value, '.'), prerelease)
  {
    var ids := Split(value, '.');
    for i := 0 to |ids|
      invariant IdentifiersOk(ids[..i], prerelease)
    {
      var id := ids[i];
      assert id in ids;
      if id == "" {
        return false;
      }
      var numeric := true;
      for j := 0 to |id|
        invariant numeric <==> forall m | 0 <= m < j :: Digit(id[m])
        invariant forall m | 0 <= m < j :: IdentifierChar(id[m])
      {
        if !Digit(id[j]) {
          numeric := false;
        }
        assert id[j] in id;
        if !Digit(id[j]) && !Alpha(id[j]) && id[j] != '-' {
          return false;
        }
      }
      assert numeric <==> Decimal(id);
      if prerelease && numeric && |id| > 1 && id[0] == '0' {
        return false;
      }
      assert ids[..i + 1] == ids[..i] + [id];
    }
    assert ids[..|ids|] == ids;
    return true;
  }

  // ---- The grammar.

  /** An empty list stands for an absent part. */
  datatype SemVer = SemVer(core: seq<string>, prerelease: seq<string>, build: seq<string>)

  predicate WellFormed(v: SemVer) {
    && |v.core| == 3 && (forall n | n in v.core :: CoreNumber(n))
    && IdentifiersOk(v.prerelease, true)
    && IdentifiersOk(v.build, false)
  }

  function Optional(mark: char, ids: seq<string>): string {
    if ids == [] then "" else [mark] + Join(ids, '.')
  }

  function Show(v: SemVer): string {
    Join(v.core, '.') + Optional('-', v.prerelease) + Optional('+', v.build)
  }

  /** The string without its optional leading v. */
  function Unprefixed(s: string): string {
    if s != "" && s[0] == 'v' then s[1..] else s
  }

  /** The parts the checks look at, for a string with at most one plus. */
  function Parts(s: string): SemVer {
    var plus := Cut(s, '+');
    var rest := if plus.Some? then plus.value.0 else s;
    var dash := Cut(rest, '-');
    SemVer(
      Split(if dash.Some? then dash.value.0 else rest, '.'),
      if dash.Some? then Split(dash.value.1, '.') else [],
      if plus.Some? then Split(plus.value.1, '.') else [])
  }

  predicate Accepted(s: string) {
    s != "" && Count(s, '+') <= 1 && WellFormed(Parts(s))
  }

  lemma OptionalOfSplit(mark: char, s: string)
    ensures Optional(mark, Split(s, '.')) == [mark] + s
  {
    SplitThenJoin(s, '.');
  }

  lemma FrontShows(rest: string, core: seq<string>, prerelease: seq<string>)
    requires var dash := Cut(rest, '-');
      && core == Split(if dash.Some? then dash.value.0 else rest, '.')
      && prerelease == if dash.Some? then Split(dash.value.1, '.') else []
    ensures Join(core, '.') + Optional('-', prerelease) == rest
  {
    var dash := Cut(rest, '-');
    if dash.Some? {
      var front, back := dash.value.0, dash.value.1;
      assert Join(core, '.') == front by {
        SplitThenJoin(front, '.');
      }
      assert Optional('-', prerelease) == ['-'] + back by {
        OptionalOfSplit('-', back);
      }
      assert rest == front + (['-'] + back) by {
        CutSplits(rest, '-');
      }
    } else {
      SplitThenJoin(rest, '.');
      assert rest + "" == rest;
    }
  }

  lemma PartsThenShow(s: string)
    ensures Show(Parts(s)) == s
  {
    CutSplits(s, '+');
    var plus := Cut(s, '+');
    var parts := Parts(s);
    if plus.Some? {
      FrontShows(plus.value.0, parts.core, parts.prerelease);
      OptionalOfSplit('+', plus.value.1);
      assert s == plus.value.0 + (['+'] + plus.value.1);
    } else {
      FrontShows(s, parts.core, parts.prerelease);
      assert s + "" == s;
    }
  }

  /** Each separator is absent from everything it must be found behind. */
  lemma Separated(v: SemVer)
    requires WellFormed(v)
    ensures Join(v.core, '.') != ""
    ensures '-' !in Join(v.core, '.') && '+' !in Join(v.core, '.')
    ensures '+' !in Join(v.prerelease, '.') && '+' !in Join(v.build, '.')
    ensures forall p | p in v.core + v.prerelease + v.build :: '.' !in p
  {
    assert v.core[0] in v.core;
    JoinHas(v.core, '.', '-');
    JoinHas(v.core, '.', '+');
    JoinHas(v.prerelease, '.', '+');
    JoinHas(v.build, '.', '+');
  }

  lemma ShowThenParts(v: SemVer)
    requires WellFormed(v)
    ensures Parts(Show(v)) == v && Count(Show(v), '+') <= 1 && Show(v) != ""
  {
    Separated(v);
    var core, pre, build := Join(v.core, '.'), Optional('-', v.prerelease), Optional('+', v.build);
    var rest := core + pre;
    assert Show(v) == rest + build;
    assert '+' !in rest;
    CountOfTwo(rest, build, '+');
    CountZero(rest, '+');
    if v.build == [] {
      assert Show(v) == rest;
      CutSplits(rest, '+');
    } else {
      assert build[1..] == Join(v.build, '.');
      CountZero(Join(v.build, '.'), '+');
      assert Show(v) == rest + ['+'] + Join(v.build, '.');
      CutOf(rest, Join(v.build, '.'), '+');
      JoinThenSplit(v.build, '.');
    }
    if v.prerelease == [] {
      assert rest == core;
      CutSplits(core, '-');
    } else {
      assert rest == core + ['-'] + Join(v.prerelease, '.');
      CutOf(core, Join(v.prerelease, '.'), '-');
      JoinThenSplit(v.prerelease, '.');
    }
    JoinThenSplit(v.core, '.');
  }

  /** GRAMMAR. The checks accept exactly the printed versions, and no string has
      two readings. */
  lemma AcceptedExactly(s: string)
    ensures Accepted(s) <==> exists v :: WellFormed(v) && Show(v) == s
    ensures forall v, w | WellFormed(v) && WellFormed(w) && Show(v) == Show(w) :: v == w
  {
    if Accepted(s) {
      PartsThenShow(s);
    }
    if v :| WellFormed(v) && Show(v) == s {
      ShowThenParts(v);
    }
    forall v, w | WellFormed(v) && WellFormed(w) && Show(v) == Show(w) ensures v == w {
      ShowThenParts(v);
      ShowThenParts(w);
    }
  }

  method ValidCore(core: seq<string>) returns (ok: bool)
    ensures ok <==> |core| == 3 && forall n | n in core :: CoreNumber(n)
  {
    if |core| != 3 {
      return false;
    }
    for i := 0 to 3
      invariant forall j | 0 <= j < i :: CoreNumber(core[j])
    {
      assert core[i] in core;
      ok := AllDecimal(core[i]);
      if !ok || (|core[i]| != 1 && core[i][0] == '0') {
        return false;
      }
    }
    return true;
  }

  method Accepts(s: string) returns (ok: bool)
    ensures ok <==> Accepted(s)
  {
    if s == "" || Count(s, '+') > 1 {
      return false;
    }
    ghost var parts := Parts(s);
    var plus := Cut(s, '+');
    var rest := s;
    if plus.Some? {
      ok := ValidIdentifiers(plus.value.1, false);
      assert ok <==> IdentifiersOk(parts.build, false);
      if !ok {
        return;
      }
      rest := plus.value.0;
    }
    assert IdentifiersOk(parts.build, false);
    var dash := Cut(rest, '-');
    if dash.Some? {
      ok := ValidIdentifiers(dash.value.1, true);
      assert ok <==> IdentifiersOk(parts.prerelease, true);
      if !ok {
        return;
      }
      rest := dash.value.0;
    }
    assert Split(rest, '.') == parts.core;
    ok := ValidCore(Split(rest, '.'));
  }

  lemma ShowBeginsWithDigit(v: SemVer)
    requires WellFormed(v)
    ensures Show(v) != "" && Digit(Show(v)[0])
  {
    assert v.core[0] in v.core;
    assert v.core[0][0] in v.core[0];
    assert Join(v.core, '.')[0] == v.core[0][0];
  }

  lemma PrefixIsOptional(s: string)
    ensures Accepted(Unprefixed(s)) <==> exists v :: WellFormed(v) && (s == Show(v) || s == "v" + Show(v))
  {
    AcceptedExactly(Unprefixed(s));
    if Accepted(Unprefixed(s)) {
      var v :| WellFormed(v) && Show(v) == Unprefixed(s);
      assert s == Show(v) || s == "v" + Show(v);
    }
    if v :| WellFormed(v) && (s == Show(v) || s == "v" + Show(v)) {
      ShowBeginsWithDigit(v);
      assert ("v" + Show(v))[1..] == Show(v);
      assert Unprefixed(s) == Show(v);
    }
  }

  method IsSemanticVersion(value: string) returns (ok: bool)
    ensures ok <==> exists v :: WellFormed(v) && (value == Show(v) || value == "v" + Show(v))
    ensures ok <==> Accepted(Unprefixed(value))
  {
    PrefixIsOptional(value);
    ok := Accepts(Unprefixed(value));
  }

  // ---- git describe --tags --dirty --always

  /** base-count-gcommit, with -dirty for a changed tree. */
  datatype Description = Description(base: string, count: string, commit: string, dirty: bool)

  ghost predicate Describes(d: Description) {
    && d.base != "" && d.base[0] == 'v' && Accepted(Unprefixed(d.base))
    && CoreNumber(d.count) && d.count[0] != '0'
    && |d.commit| >= 4 && (forall c | c in d.commit :: Hex(c))
  }

  /** The base of a description is a version behind a v. */
  lemma DescribedBase(d: Description)
    requires Describes(d)
    ensures exists v :: WellFormed(v) && d.base == "v" + Show(v)
  {
    AcceptedExactly(Unprefixed(d.base));
    var v :| WellFormed(v) && Show(v) == Unprefixed(d.base);
    assert d.base == "v" + Show(v);
  }

  function ShowDescription(d: Description): string {
    d.base + "-" + d.count + "-g" + d.commit + if d.dirty then "-dirty" else ""
  }

  function TrimDirty(s: string): string {
    if |s| >= 6 && s[|s| - 6..] == "-dirty" then s[..|s| - 6] else s
  }

  /** The text before and after the last occurrence of a nonempty word. */
  function CutLast(s: string, word: string): Option<(string, string)>
    requires word != ""
    decreases |s|
  {
    if |s| < |word| then None
    else if s[|s| - |word|..] == word then Some((s[..|s| - |word|], ""))
    else
      var before := CutLast(s[..|s| - 1], word);
      if before.None? then None else Some((before.value.0, before.value.1 + [s[|s| - 1]]))
  }

  lemma {:induction false} CutLastSplits(s: string, word: string)
    requires word != ""
    ensures CutLast(s, word).Some? ==> s == CutLast(s, word).value.0 + word + CutLast(s, word).value.1
  {
    if |s| >= |word| && s[|s| - |word|..] != word {
      CutLastSplits(s[..|s| - 1], word);
    }
  }

  lemma NotAtEnd(a: string, word: string, b: string)
    requires word != "" && b != "" && word[0] !in b && word[0] !in word[1..]
    ensures var s := a + word + b; s[|s| - |word|..] != word
  {
    var s, tail := a + word + b, word[1..] + b;
    assert s == a + [word[0]] + tail;
    assert tail[|b| - 1] in tail && s[|s| - |word|] == tail[|b| - 1];
    assert s[|s| - |word|..][0] == s[|s| - |word|];
  }

  /** The last occurrence is found when what follows cannot hold the word's first
      character. */
  lemma {:induction false} CutLastOf(a: string, word: string, b: string)
    requires word != "" && word[0] !in b && word[0] !in word[1..]
    ensures CutLast(a + word + b, word) == Some((a, b))
  {
    var s := a + word + b;
    if b == "" {
      assert s == a + word;
      assert s[|s| - |word|..] == word && s[..|s| - |word|] == a;
    } else {
      var rest, last := b[..|b| - 1], b[|b| - 1];
      assert b == rest + [last];
      CutLastOf(a, word, rest);
      NotAtEnd(a, word, b);
      assert s[..|s| - 1] == a + word + rest && s[|s| - 1] == last;
    }
  }

  method ParseGitDescribe(value: string) returns (r: Option<(string, string)>)
    ensures r.Some? <==> exists d :: Describes(d) && ShowDescription(d) == value
    ensures forall d | Describes(d) && ShowDescription(d) == value :: r == Some((d.base, d.commit))
  {
    var described := TrimDirty(value);
    ParseFinds(value);
    var atCommit := CutLast(described, "-g");
    if atCommit.None? {
      return None;
    }
    var commit := atCommit.value.1;
    var atCount := CutLast(atCommit.value.0, "-");
    if atCount.None? {
      return None;
    }
    var base, count := atCount.value.0, atCount.value.1;
    if base == "" || base[0] != 'v' {
      return None;
    }
    var semantic := IsSemanticVersion(base);
    AcceptedExactly(Unprefixed(base));
    if !semantic {
      return None;
    }
    var decimal := AllDecimal(count);
    if !decimal || count[0] == '0' || |commit| < 4 {
      return None;
    }
    var hex := AllHex(commit);
    if !hex {
      return None;
    }
    CutLastSplits(described, "-g");
    CutLastSplits(atCommit.value.0, "-");
    ParsedIsDescribed(value, base, count, commit);
    return Some((base, commit));
  }

  /** Any description is found at the very cuts the parser makes. */
  lemma ParseFinds(value: string)
    ensures forall d | Describes(d) && ShowDescription(d) == value ::
      CutLast(TrimDirty(value), "-g") == Some((d.base + "-" + d.count, d.commit))
      && CutLast(d.base + "-" + d.count, "-") == Some((d.base, d.count))
  {
    forall d | Describes(d) && ShowDescription(d) == value
      ensures CutLast(TrimDirty(value), "-g") == Some((d.base + "-" + d.count, d.commit))
        && CutLast(d.base + "-" + d.count, "-") == Some((d.base, d.count))
    {
      TrimsOnlyDirty(d);
      assert '-' !in d.commit && '-' !in d.count;
      assert TrimDirty(value) == (d.base + "-" + d.count) + "-g" + d.commit;
      CutLastOf(d.base + "-" + d.count, "-g", d.commit);
      CutLastOf(d.base, "-", d.count);
    }
  }

  lemma TrimsOnlyDirty(d: Description)
    requires Describes(d)
    ensures TrimDirty(ShowDescription(d)) == d.base + "-" + d.count + "-g" + d.commit
  {
    var clean, s := d.base + "-" + d.count + "-g" + d.commit, ShowDescription(d);
    if d.dirty {
      assert s == clean + "-dirty" && s[|s| - 6..] == "-dirty" && s[..|s| - 6] == clean;
    } else {
      assert s == clean;
      assert s[|s| - 1] == d.commit[|d.commit| - 1];
      assert Hex(d.commit[|d.commit| - 1]) && !Hex('y');
      assert |s| >= 6 ==> s[|s| - 6..][5] == s[|s| - 1];
    }
  }

  lemma ParsedIsDescribed(value: string, base: string, count: string, commit: string)
    requires TrimDirty(value) == base + "-" + count + "-g" + commit
    requires Describes(Description(base, count, commit, false))
    ensures exists d :: Describes(d) && ShowDescription(d) == value && d.base == base && d.commit == commit
  {
    var described := TrimDirty(value);
    var d := Description(base, count, commit, described != value);
    assert Describes(d);
    if described != value {
      assert value == described + "-dirty";
    }
    assert ShowDescription(d) == value;
  }

  /** ROUND TRIP. A description determines its text and the text the description,
      so printing what was parsed restores the input. */
  lemma DescriptionsAreUnique(a: Description, b: Description)
    requires Describes(a) && Describes(b) && ShowDescription(a) == ShowDescription(b)
    ensures a == b
  {
    ParseFinds(ShowDescription(a));
    TrimsOnlyDirty(a);
    TrimsOnlyDirty(b);
    assert a.commit == b.commit && a.base + "-" + a.count == b.base + "-" + b.count;
    assert a.base == b.base && a.count == b.count;
  }
}
