/** Formatting entities over UTF-16 offsets: what the local check accepts, and
    that the reader's check draws the same boundaries. */
module Entities {
  import opened Wrappers
  import opened Unicode

  const MAX_INPUT_BYTES := 64 * 1024

  const MAX_ENTITIES := 100

  datatype Entity = Entity(kind: string, offset: int, length: int, url: string, language: string)

  function End(e: Entity): int {
    e.offset + e.length
  }

  const KINDS: set<string> :=
    {"bold", "italic", "underline", "strike", "spoiler", "code", "pre", "blockquote", "text_url"}

  predicate StyleEntity(kind: string) {
    kind == "bold" || kind == "italic" || kind == "underline" || kind == "strike" || kind == "spoiler"
  }

  /** Of the known kinds all are styles but code, pre, quotes and links. */
  lemma StylesExactly(kind: string)
    requires kind in KINDS
    ensures StyleEntity(kind) <==> kind !in {"code", "pre", "blockquote", "text_url"}
  {
  }

  predicate Monospace(e: Entity) {
    e.kind == "code" || e.kind == "pre"
  }

  /** The UTF-16 offsets between two characters. */
  function Boundaries(body: seq<Scalar>): set<int> {
    set k | 0 <= k <= |body| :: Width16(body[..k])
  }

  predicate InRange(body: seq<Scalar>, e: Entity) {
    && 0 <= e.offset && 0 < e.length && End(e) <= Width16(body)
    && e.offset in Boundaries(body) && End(e) in Boundaries(body)
  }

  /** acceptsUrl is the URL parser: http or https, a host, no credentials. */
  predicate EntityOk(body: seq<Scalar>, e: Entity, acceptsUrl: string -> bool) {
    InRange(body, e) && WellTyped(e, acceptsUrl)
  }

  predicate WellTyped(e: Entity, acceptsUrl: string -> bool) {
    && e.kind in KINDS
    && (if e.kind == "text_url" then acceptsUrl(e.url) else e.url == "")
    && (e.kind != "pre" ==> e.language == "")
  }

  predicate Disjoint(a: Entity, b: Entity) {
    End(a) <= b.offset || End(b) <= a.offset
  }

  predicate Within(a: Entity, b: Entity) {
    b.offset <= a.offset && End(a) <= End(b)
  }

  /** Apart, or one inside the other with a style involved and no code or pre. */
  predicate Compatible(a: Entity, b: Entity) {
    Disjoint(a, b)
    || (!Monospace(a) && !Monospace(b) && (Within(a, b) || Within(b, a)) && (StyleEntity(a.kind) || StyleEntity(b.kind)))
  }

  ghost predicate Laminar(entities: seq<Entity>) {
    forall i, j | 0 <= j < i < |entities| :: Compatible(entities[i], entities[j])
  }

  ghost predicate ListOk(body: seq<Scalar>, entities: seq<Entity>, acceptsUrl: string -> bool) {
    (forall e | e in entities :: EntityOk(body, e, acceptsUrl)) && Laminar(entities)
  }

  /** A body, or None for bytes that are not valid UTF-8. */
  ghost predicate Accepts(body: Option<seq<Scalar>>, entities: seq<Entity>, maxUnits: int, acceptsUrl: string -> bool) {
    && body.Some? && Length(body.value) <= MAX_INPUT_BYTES
    && Width16(body.value) <= maxUnits
    && |entities| <= MAX_ENTITIES
    && ListOk(body.value, entities, acceptsUrl)
  }

  datatype Verdict = Accepted | BadText | TextTooLong | TooManyEntities | BadEntity(index: nat)

  lemma MoreBoundaries(body: seq<Scalar>, n: nat)
    requires n < |body|
    ensures Width16(body[..n + 1]) == Width16(body[..n]) + Width(body[n])
    ensures Boundaries(body[..n + 1]) == Boundaries(body[..n]) + {Width16(body[..n + 1])}
  {
    var less, more := body[..n], body[..n + 1];
    assert more[..n] == less;
    forall x ensures x in Boundaries(more) <==> x in Boundaries(less) || x == Width16(more) {
      if k :| 0 <= k <= n + 1 && x == Width16(more[..k]) {
        if k <= n {
          assert more[..k] == less[..k];
        } else {
          assert more[..k] == more;
        }
      }
      if k :| 0 <= k <= n && x == Width16(less[..k]) {
        assert more[..k] == less[..k];
      }
      assert more[..n + 1] == more;
    }
  }

  lemma NoTextOneBoundary(empty: seq<Scalar>)
    requires empty == []
    ensures Boundaries(empty) == {0}
  {
    assert Width16(empty[..0]) == 0;
    assert forall k | 0 <= k <= 0 :: empty[..k] == [];
  }

  method CollectBoundaries(body: seq<Scalar>) returns (boundaries: set<int>, units: nat)
    ensures boundaries == Boundaries(body) && units == Width16(body)
  {
    boundaries, units := {0}, 0;
    NoTextOneBoundary(body[..0]);
    for i := 0 to |body|
      invariant boundaries == Boundaries(body[..i]) && units == Width16(body[..i])
    {
      MoreBoundaries(body, i);
      units := units + 1;
      if body[i] > 0xFFFF {
        units := units + 1;
      }
      boundaries := boundaries + {units};
    }
    assert body[..|body|] == body;
  }

  /** One entity against those before it. */
  method CheckEntity(body: seq<Scalar>, boundaries: set<int>, units: nat, entities: seq<Entity>, i: nat,
      acceptsUrl: string -> bool)
    returns (ok: bool)
    requires boundaries == Boundaries(body) && units == Width16(body) && i < |entities|
    ensures ok <==>
      && EntityOk(body, entities[i], acceptsUrl)
      && forall j | 0 <= j < i :: Compatible(entities[i], entities[j])
  {
    var e := entities[i];
    if e.offset < 0 || e.length <= 0 || e.offset > units || e.length > units - e.offset
       || e.offset !in boundaries || e.offset + e.length !in boundaries {
      return false;
    }
    if e.kind !in KINDS {
      return false;
    }
    if e.kind == "text_url" {
      if !acceptsUrl(e.url) {
        return false;
      }
    } else if e.url != "" {
      return false;
    }
    if e.kind != "pre" && e.language != "" {
      return false;
    }
    for j := 0 to i
      invariant forall m | 0 <= m < j :: Compatible(e, entities[m])
    {
      var p := entities[j];
      if e.offset >= p.offset + p.length || p.offset >= e.offset + e.length {
        continue;
      }
      if e.kind == "code" || e.kind == "pre" || p.kind == "code" || p.kind == "pre" {
        return false;
      }
      if !((e.offset >= p.offset && e.offset + e.length <= p.offset + p.length)
           || (p.offset >= e.offset && p.offset + p.length <= e.offset + e.length)) {
        return false;
      }
      if !StyleEntity(e.kind) && !StyleEntity(p.kind) {
        return false;
      }
    }
    return true;
  }

  /** Accepts exactly the laminar lists, and otherwise names the first entity
      that spoils the list before it. */
  method ValidateEntities(body: Option<seq<Scalar>>, entities: seq<Entity>, maxUnits: int, acceptsUrl: string -> bool)
    returns (v: Verdict)
    ensures v.Accepted? <==> Accepts(body, entities, maxUnits, acceptsUrl)
    ensures v.BadText? <==> body.None? || Length(body.value) > MAX_INPUT_BYTES
    ensures v.TextTooLong? ==> body.Some? && Width16(body.value) > maxUnits
    ensures v.TooManyEntities? ==> |entities| > MAX_ENTITIES
    ensures v.BadEntity? ==>
      && body.Some? && v.index < |entities|
      && ListOk(body.value, entities[..v.index], acceptsUrl)
      && !ListOk(body.value, entities[..v.index + 1], acceptsUrl)
  {
    if body.None? || Length(body.value) > MAX_INPUT_BYTES {
      return BadText;
    }
    var boundaries, units := CollectBoundaries(body.value);
    if units > maxUnits {
      return TextTooLong;
    }
    if |entities| > MAX_ENTITIES {
      return TooManyEntities;
    }
    for i := 0 to |entities|
      invariant ListOk(body.value, entities[..i], acceptsUrl)
    {
      var ok := CheckEntity(body.value, boundaries, units, entities, i, acceptsUrl);
      OneMore(body.value, entities, i, acceptsUrl);
      if !ok {
        PrefixOk(body.value, entities, i + 1, acceptsUrl);
        return BadEntity(i);
      }
    }
    assert entities[..|entities|] == entities;
    return Accepted;
  }

  lemma OneMore(body: seq<Scalar>, entities: seq<Entity>, i: nat, acceptsUrl: string -> bool)
    requires i < |entities| && ListOk(body, entities[..i], acceptsUrl)
    ensures ListOk(body, entities[..i + 1], acceptsUrl) <==>
      && EntityOk(body, entities[i], acceptsUrl)
      && forall j | 0 <= j < i :: Compatible(entities[i], entities[j])
  {
    var less, more := entities[..i], entities[..i + 1];
    assert more == less + [entities[i]];
    if ListOk(body, more, acceptsUrl) {
      assert more[i] in more;
      forall j | 0 <= j < i ensures Compatible(entities[i], entities[j]) {
        assert Compatible(more[i], more[j]);
      }
    }
    if EntityOk(body, entities[i], acceptsUrl) && (forall j | 0 <= j < i :: Compatible(entities[i], entities[j])) {
      forall m, n | 0 <= n < m < |more| ensures Compatible(more[m], more[n]) {
        if m < i {
          assert Compatible(less[m], less[n]);
        }
      }
    }
  }

  lemma PrefixOk(body: seq<Scalar>, entities: seq<Entity>, n: nat, acceptsUrl: string -> bool)
    requires n <= |entities|
    ensures ListOk(body, entities, acceptsUrl) ==> ListOk(body, entities[..n], acceptsUrl)
  {
    if ListOk(body, entities, acceptsUrl) {
      forall i, j | 0 <= j < i < n ensures Compatible(entities[..n][i], entities[..n][j]) {
        assert Compatible(entities[i], entities[j]);
      }
    }
  }

  /** The same condition on a bag: two equal entities count as a pair. */
  ghost predicate LaminarBag(bag: multiset<Entity>) {
    forall a, b | a in bag && b in bag && (a != b || bag[a] >= 2) :: Compatible(a, b)
  }

  lemma {:induction false} TwoPlaces(s: seq<Entity>, a: Entity) returns (i: nat, j: nat)
    requires multiset(s)[a] >= 2
    ensures j < i < |s| && s[i] == a && s[j] == a
  {
    var before, last := s[..|s| - 1], s[|s| - 1];
    assert s == before + [last];
    assert multiset(s) == multiset(before) + multiset{last};
    if last == a {
      i := |s| - 1;
      assert a in multiset(before);
      assert a in before;
      j :| 0 <= j < |before| && before[j] == a;
    } else {
      i, j := TwoPlaces(before, a);
    }
  }

  lemma LaminarIsABagProperty(s: seq<Entity>)
    ensures Laminar(s) <==> LaminarBag(multiset(s))
  {
    var bag := multiset(s);
    if Laminar(s) {
      forall a, b | a in bag && b in bag && (a != b || bag[a] >= 2) ensures Compatible(a, b) {
        if a == b {
          var i, j := TwoPlaces(s, a);
          assert Compatible(s[i], s[j]);
        } else {
          assert a in s && b in s;
          var i :| 0 <= i < |s| && s[i] == a;
          var j :| 0 <= j < |s| && s[j] == b;
          if j < i {
            assert Compatible(s[i], s[j]);
          } else {
            assert Compatible(s[j], s[i]);
          }
        }
      }
    }
    if LaminarBag(bag) {
      forall i, j | 0 <= j < i < |s| ensures Compatible(s[i], s[j]) {
        assert s[i] in bag && s[j] in bag;
        if s[i] == s[j] {
          assert s == s[..i] + [s[i]] + s[i + 1..] && s[..i][j] == s[j];
          assert s[j] in multiset(s[..i]);
          assert bag == multiset(s[..i]) + multiset{s[i]} + multiset(s[i + 1..]);
        }
      }
    }
  }

  /** ORDER DOES NOT MATTER. A list is accepted together with every permutation
      of it. */
  lemma PermutationsAccepted(body: Option<seq<Scalar>>, one: seq<Entity>, two: seq<Entity>, maxUnits: int,
      acceptsUrl: string -> bool)
    requires multiset(one) == multiset(two)
    ensures Accepts(body, one, maxUnits, acceptsUrl) <==> Accepts(body, two, maxUnits, acceptsUrl)
  {
    LaminarIsABagProperty(one);
    LaminarIsABagProperty(two);
    assert |one| == |multiset(one)| == |multiset(two)| == |two|;
    forall e ensures e in one <==> e in two {
      assert e in one <==> e in multiset(one);
      assert e in two <==> e in multiset(two);
    }
  }

  /** In an accepted list, the entities around one code unit are nested in each
      other, and a code or pre entity is alone there. */
  lemma ChainAtEveryUnit(body: Option<seq<Scalar>>, entities: seq<Entity>, maxUnits: int, acceptsUrl: string -> bool,
      u: int, i: nat, j: nat)
    requires Accepts(body, entities, maxUnits, acceptsUrl)
    requires i < |entities| && j < |entities| && i != j
    requires entities[i].offset <= u < End(entities[i]) && entities[j].offset <= u < End(entities[j])
    ensures Within(entities[i], entities[j]) || Within(entities[j], entities[i])
    ensures !Monospace(entities[i]) && !Monospace(entities[j])
    ensures StyleEntity(entities[i].kind) || StyleEntity(entities[j].kind)
  {
    if j < i {
      assert Compatible(entities[i], entities[j]);
    } else {
      assert Compatible(entities[j], entities[i]);
    }
  }

  predicate HighSurrogate(u: int) {
    0xD800 <= u <= 0xDBFF
  }

  predicate LowSurrogate(u: int) {
    0xDC00 <= u <= 0xDFFF
  }

  /** The reader's test on the encoded units. */
  predicate PairBoundary(units: seq<int>, n: int)
    requires 0 <= n <= |units|
  {
    n == 0 || n == |units| || !(HighSurrogate(units[n - 1]) && LowSurrogate(units[n]))
  }

  lemma {:induction false} BoundariesInside(body: seq<Scalar>, n: int)
    requires n in Boundaries(body)
    ensures 0 <= n <= Width16(body)
  {
    if body != [] && n != Width16(body) {
      MoreBoundaries(body, |body| - 1);
      assert body[..|body|] == body;
      BoundariesInside(body[..|body| - 1], n);
    } else if body == [] {
      assert forall k | 0 <= k <= 0 :: body[..k] == body;
    }
  }

  /** Both checks agree on every valid text: an offset is a sum of character
      widths exactly when it does not split a surrogate pair. */
  lemma {:induction false} BoundaryTestsAgree(body: seq<Scalar>, n: int)
    requires 0 <= n <= Width16(body)
    ensures n in Boundaries(body) <==> PairBoundary(Encode16(body), n)
  {
    if body == [] {
      assert Width16(body[..0]) == 0;
    } else {
      var before, r := body[..|body| - 1], body[|body| - 1];
      var units := Encode16(body);
      MoreBoundaries(body, |body| - 1);
      assert body[..|body|] == body;
      assert units == Encode16(before) + EncodeOne16(r);
      if n <= Width16(before) {
        BoundaryTestsAgree(before, n);
        if n == Width16(before) {
          assert units[n] == EncodeOne16(r)[0];
        }
      } else {
        assert n !in Boundaries(before) by {
          if n in Boundaries(before) {
            BoundariesInside(before, n);
          }
        }
        if n < Width16(body) {
          assert units[n - 1] == EncodeOne16(r)[0] && units[n] == EncodeOne16(r)[1];
        }
      }
    }
  }

  /** The range condition of the reader, on the encoded text. */
  predicate ReaderInRange(units: seq<int>, e: Entity) {
    && e.offset >= 0 && e.length > 0 && e.offset <= |units| && e.length <= |units| - e.offset
    && PairBoundary(units, e.offset) && PairBoundary(units, e.offset + e.length)
  }

  lemma RangesAgree(body: seq<Scalar>, e: Entity)
    ensures ReaderInRange(Encode16(body), e) <==> InRange(body, e)
  {
    if 0 <= e.offset && 0 < e.length && End(e) <= Width16(body) {
      BoundaryTestsAgree(body, e.offset);
      BoundaryTestsAgree(body, End(e));
    }
  }

  /** Telegram's entity classes. */
  datatype TelegramEntity =
    | Bold(offset: int, length: int)
    | Italic(offset: int, length: int)
    | Underline(offset: int, length: int)
    | Strike(offset: int, length: int)
    | Spoiler(offset: int, length: int)
    | Code(offset: int, length: int)
    | Pre(offset: int, length: int, language: string)
    | Blockquote(offset: int, length: int)
    | TextURL(offset: int, length: int, url: string)

  function ToTelegram(e: Entity): Option<TelegramEntity> {
    match e.kind
    case "bold" => Some(Bold(e.offset, e.length))
    case "italic" => Some(Italic(e.offset, e.length))
    case "underline" => Some(Underline(e.offset, e.length))
    case "strike" => Some(Strike(e.offset, e.length))
    case "spoiler" => Some(Spoiler(e.offset, e.length))
    case "code" => Some(Code(e.offset, e.length))
    case "pre" => Some(Pre(e.offset, e.length, e.language))
    case "blockquote" => Some(Blockquote(e.offset, e.length))
    case "text_url" => Some(TextURL(e.offset, e.length, e.url))
    case _ => None
  }

  /** The type name after its messageEntity prefix. */
  function TypeName(t: TelegramEntity): string {
    match t
    case Bold(_, _) => "Bold"
    case Italic(_, _) => "Italic"
    case Underline(_, _) => "Underline"
    case Strike(_, _) => "Strike"
    case Spoiler(_, _) => "Spoiler"
    case Code(_, _) => "Code"
    case Pre(_, _, _) => "Pre"
    case Blockquote(_, _) => "Blockquote"
    case TextURL(_, _, _) => "TextUrl"
  }

  function Lower(s: string): string {
    seq(|s|, i requires 0 <= i < |s| => if 'A' <= s[i] <= 'Z' then ((s[i] as int) + 32) as char else s[i])
  }

  function OneFromTelegram(t: TelegramEntity): Entity {
    var kind := if t.TextURL? then "text_url" else Lower(TypeName(t));
    Entity(kind, t.offset, t.length, if t.TextURL? then t.url else "", if t.Pre? then t.language else "")
  }

  function TelegramEntities(entities: seq<Entity>): seq<TelegramEntity> {
    if entities == [] then []
    else
      var v := ToTelegram(entities[|entities| - 1]);
      TelegramEntities(entities[..|entities| - 1]) + if v.Some? then [v.value] else []
  }

  function FromTelegram(entities: seq<TelegramEntity>): seq<Entity> {
    seq(|entities|, i requires 0 <= i < |entities| => OneFromTelegram(entities[i]))
  }

  lemma LowerNames()
    ensures Lower("Bold") == "bold" && Lower("Italic") == "italic" && Lower("Underline") == "underline"
    ensures Lower("Strike") == "strike" && Lower("Spoiler") == "spoiler" && Lower("Code") == "code"
    ensures Lower("Pre") == "pre" && Lower("Blockquote") == "blockquote"
  {
  }

  lemma OneRoundTrip(e: Entity, acceptsUrl: string -> bool)
    requires WellTyped(e, acceptsUrl)
    ensures ToTelegram(e).Some? && OneFromTelegram(ToTelegram(e).value) == e
  {
    LowerNames();
  }

  lemma {:induction false} NoneIsDropped(entities: seq<Entity>)
    requires forall e | e in entities :: ToTelegram(e).Some?
    ensures |TelegramEntities(entities)| == |entities|
    ensures forall i | 0 <= i < |entities| :: ToTelegram(entities[i]) == Some(TelegramEntities(entities)[i])
  {
    if entities != [] {
      NoneIsDropped(entities[..|entities| - 1]);
    }
  }

  /** Nothing of a validated list is lost on the way to Telegram and back. */
  lemma TelegramRoundTrip(entities: seq<Entity>, acceptsUrl: string -> bool)
    requires forall e | e in entities :: WellTyped(e, acceptsUrl)
    ensures FromTelegram(TelegramEntities(entities)) == entities
  {
    forall e | e in entities ensures ToTelegram(e).Some? && OneFromTelegram(ToTelegram(e).value) == e {
      OneRoundTrip(e, acceptsUrl);
    }
    NoneIsDropped(entities);
    var ts := TelegramEntities(entities);
    forall i | 0 <= i < |entities| ensures FromTelegram(ts)[i] == entities[i] {
      assert entities[i] in entities;
    }
  }
}
