/** Reading the cached messages page by page, with a cursor made from the last
    row of a page. */
module Keyset {
  import opened Wrappers
  import opened Lexical
  import opened MessageCache

  /** ASCII only, as LIKE compares. */
  function Fold(c: char): char {
    if 'A' <= c <= 'Z' then ((c as int) - ('A' as int) + ('a' as int)) as char else c
  }

  lemma FoldIsAscii(c: char)
    ensures Fold(c) as int == (c as int) + if 65 <= c as int <= 90 then 32 else 0
  {
  }

  /** text LIKE pattern ESCAPE '\'. */
  predicate Like(pattern: string, text: string)
    decreases |pattern| + |text|
  {
    if pattern == "" then text == ""
    else if pattern[0] == '%' then Like(pattern[1..], text) || (text != "" && Like(pattern, text[1..]))
    else if text == "" then false
    else if pattern[0] == '_' then Like(pattern[1..], text[1..])
    else if pattern[0] == '\\' then
      |pattern| >= 2 && Fold(pattern[1]) == Fold(text[0]) && Like(pattern[2..], text[1..])
    else Fold(pattern[0]) == Fold(text[0]) && Like(pattern[1..], text[1..])
  }

  function Escape(query: string): string {
    if query == "" then ""
    else (if query[0] in "\\%_" then ['\\', query[0]] else [query[0]]) + Escape(query[1..])
  }

  function LikePattern(query: string): string {
    "%" + Escape(query) + "%"
  }

  predicate StartsWithFolded(text: string, query: string) {
    |query| <= |text| && forall i | 0 <= i < |query| :: Fold(text[i]) == Fold(query[i])
  }

  predicate OccursAt(text: string, query: string, i: nat) {
    i <= |text| && StartsWithFolded(text[i..], query)
  }

  lemma {:induction false} PercentMatchesAll(text: string)
    ensures Like("%", text)
  {
    if text != "" {
      PercentMatchesAll(text[1..]);
    }
  }

  lemma {:induction false} EscapedMatchesPrefix(query: string, text: string)
    ensures Like(Escape(query) + "%", text) <==> StartsWithFolded(text, query)
  {
    if query == "" {
      assert Escape(query) + "%" == "%";
      PercentMatchesAll(text);
    } else if text != "" {
      var rest := Escape(query[1..]) + "%";
      EscapedMatchesPrefix(query[1..], text[1..]);
      var pattern := Escape(query) + "%";
      if query[0] in "\\%_" {
        assert pattern == ['\\', query[0]] + rest && pattern[2..] == rest;
      } else {
        assert pattern == [query[0]] + rest && pattern[1..] == rest;
      }
      assert Like(pattern, text) <==> Fold(query[0]) == Fold(text[0]) && Like(rest, text[1..]);
      PrefixCons(query, text);
    } else {
      assert Escape(query) != "";
    }
  }

  lemma PrefixCons(query: string, text: string)
    requires query != "" && text != ""
    ensures StartsWithFolded(text, query) <==>
            Fold(query[0]) == Fold(text[0]) && StartsWithFolded(text[1..], query[1..])
  {
    if Fold(query[0]) == Fold(text[0]) && StartsWithFolded(text[1..], query[1..]) {
      forall i | 0 <= i < |query| ensures Fold(text[i]) == Fold(query[i]) {
        if i > 0 {
          assert text[1..][i - 1] == text[i] && query[1..][i - 1] == query[i];
        }
      }
    }
  }

  lemma {:induction false} PercentSkips(rest: string, text: string)
    ensures Like("%" + rest, text) <==> exists i :: 0 <= i <= |text| && Like(rest, text[i..])
  {
    var pattern := "%" + rest;
    assert pattern[1..] == rest && text[0..] == text;
    if text != "" {
      PercentSkips(rest, text[1..]);
      forall i | 0 <= i < |text| ensures text[1..][i..] == text[i + 1..] {
      }
      if Like(rest, text) {
        assert Like(rest, text[0..]);
      }
      if i :| 0 <= i <= |text| && Like(rest, text[i..]) {
        if i > 0 {
          assert Like(rest, text[1..][i - 1..]);
        }
      }
      if i :| 0 <= i <= |text[1..]| && Like(rest, text[1..][i..]) {
        assert Like(rest, text[i + 1..]);
      }
    } else if i :| 0 <= i <= |text| && Like(rest, text[i..]) {
      assert text[i..] == text;
    }
  }

  /** Escaping makes every query a literal: a search finds exactly the texts that
      contain it, whatever wildcards it is written with. */
  lemma SearchIsContainment(query: string, text: string)
    ensures Like(LikePattern(query), text) <==> exists i: nat :: OccursAt(text, query, i)
  {
    var rest := Escape(query) + "%";
    assert LikePattern(query) == "%" + rest;
    PercentSkips(rest, text);
    forall i: nat | i <= |text| ensures Like(rest, text[i..]) <==> OccursAt(text, query, i) {
      EscapedMatchesPrefix(query, text[i..]);
    }
  }

  predicate Contains(text: string, query: string) {
    exists i :: 0 <= i <= |text| && query <= text[i..]
  }

  lemma ContainsExactly(text: string, query: string)
    ensures Contains(text, query) <==> exists before: string, after: string :: text == before + query + after
  {
    if i :| 0 <= i <= |text| && query <= text[i..] {
      var after := text[i..][|query|..];
      assert text == text[..i] + query + after;
    }
    if before: string, after: string :| text == before + query + after {
      assert text[|before|..] == query + after;
    }
  }

  datatype Filter =
    | Show(ascending: bool)
    | List(since: string, until: string, ascending: bool)
    | Search(query: string, caseSensitive: bool)

  datatype Query = Query(chat: int, filter: Filter, includeDeleted: bool)

  /** Searches are always newest first. */
  predicate Reverse(q: Query) {
    !q.filter.Search? && q.filter.ascending
  }

  predicate Selects(q: Query, k: MessageKey, row: Row) {
    && k.chat == q.chat
    && (q.includeDeleted || !row.deleted)
    && match q.filter
       case Show(_) => true
       case List(since, until, _) =>
         (since == "" || AtMost(since, row.content.date)) && (until == "" || AtMost(row.content.date, until))
       case Search(query, caseSensitive) =>
         && row.content.text.Some?
         && Like(LikePattern(query), row.content.text.value)
         && (caseSensitive ==> Contains(row.content.text.value, query))
  }

  /** What a row is sorted by, which also identifies it within its chat. */
  datatype Position = Position(date: string, id: int)

  predicate Earlier(a: Position, b: Position) {
    Below(a.date, b.date) || (a.date == b.date && a.id < b.id)
  }

  /** ORDER BY date, message_id, both ascending or both descending. */
  predicate Precedes(reverse: bool, a: Position, b: Position) {
    if reverse then Earlier(a, b) else Earlier(b, a)
  }

  lemma OrderIsTotal(reverse: bool, a: Position, b: Position)
    ensures a == b || Precedes(reverse, a, b) || Precedes(reverse, b, a)
    ensures !(Precedes(reverse, a, b) && Precedes(reverse, b, a))
    ensures !Precedes(reverse, a, a)
  {
    Total(a.date, b.date);
    if AtMost(a.date, b.date) && AtMost(b.date, a.date) {
      Antisymmetric(a.date, b.date);
    }
  }

  lemma EarlierIsTransitive(a: Position, b: Position, c: Position)
    requires Earlier(a, b) && Earlier(b, c)
    ensures Earlier(a, c)
  {
    if Below(a.date, b.date) && Below(b.date, c.date) {
      Transitive(a.date, b.date, c.date);
      if a.date == c.date {
        Antisymmetric(a.date, b.date);
      }
    }
  }

  lemma OrderIsTransitive(reverse: bool, a: Position, b: Position, c: Position)
    requires Precedes(reverse, a, b) && Precedes(reverse, b, c)
    ensures Precedes(reverse, a, c)
  {
    if reverse {
      EarlierIsTransitive(a, b, c);
    } else {
      EarlierIsTransitive(c, b, a);
    }
  }

  function PositionOf(k: MessageKey, row: Row): Position {
    Position(row.content.date, k.id)
  }

  function Selected(c: Cache, q: Query): set<Position> {
    set k | k in c.messages && Selects(q, k, c.messages[k]) :: PositionOf(k, c.messages[k])
  }

  /** The cursor's content; None is the empty cursor. */
  datatype Cursor = Cursor(chat: int, date: string, id: int, reverse: bool)

  /** The text of a cursor is an injective encoding of its content; all that
      matters of it is its length. Junk is any text that does not decode. */
  datatype Token = NoToken | Junk | Sealed(cursor: Cursor)

  const MAX_TOKEN := 512

  datatype Clause = NoClause | Rejected | Beyond(position: Position)

  function CursorClause(length: Cursor -> nat, token: Token, chat: int, reverse: bool): Clause {
    match token
    case NoToken => NoClause
    case Junk => Rejected
    case Sealed(c) =>
      if length(c) > MAX_TOKEN || c.chat != chat || c.reverse != reverse || c.id <= 0 then Rejected
      else Beyond(Position(c.date, c.id))
  }

  function MessageCursor(chat: int, reverse: bool, rows: seq<Position>, limit: int): Token {
    if rows == [] || |rows| < limit then NoToken
    else Sealed(Cursor(chat, rows[|rows| - 1].date, rows[|rows| - 1].id, reverse))
  }

  /** The rows the WHERE clause leaves. */
  function Remaining(c: Cache, q: Query, clause: Clause): set<Position>
    requires !clause.Rejected?
  {
    set p | p in Selected(c, q) && (clause.NoClause? || Precedes(Reverse(q), clause.position, p))
  }

  lemma {:induction false} FirstExists(s: set<Position>, reverse: bool) returns (m: Position)
    requires s != {}
    ensures m in s && forall x | x in s :: x == m || Precedes(reverse, m, x)
  {
    m :| m in s;
    var rest := s - {m};
    if rest == {} {
      assert s == {m};
    } else {
      var n := FirstExists(rest, reverse);
      OrderIsTotal(reverse, m, n);
      if Precedes(reverse, n, m) {
        m := n;
      } else {
        forall x | x in s ensures x == m || Precedes(reverse, m, x) {
          if x in rest && x != n {
            OrderIsTransitive(reverse, m, n, x);
          }
        }
      }
    }
  }

  ghost function Sorted(s: set<Position>, reverse: bool): seq<Position> {
    if s == {} then []
    else
      assert exists m :: m in s && forall x | x in s :: x == m || Precedes(reverse, m, x) by {
        var m := FirstExists(s, reverse);
      }
      var m :| m in s && forall x | x in s :: x == m || Precedes(reverse, m, x);
      [m] + Sorted(s - {m}, reverse)
  }

  ghost predicate Ordered(rows: seq<Position>, reverse: bool) {
    forall i, j | 0 <= i < j < |rows| :: Precedes(reverse, rows[i], rows[j])
  }

  /** ORDER BY is what it should be: every row once, each pair in order. */
  lemma {:induction false} SortedIsOrdered(s: set<Position>, reverse: bool)
    ensures Ordered(Sorted(s, reverse), reverse)
    ensures forall x :: x in Sorted(s, reverse) <==> x in s
  {
    if s != {} {
      var m := Sorted(s, reverse)[0];
      SortedIsOrdered(s - {m}, reverse);
    }
  }

  lemma {:induction false} OrderedIsUnique(a: seq<Position>, b: seq<Position>, reverse: bool)
    requires Ordered(a, reverse) && Ordered(b, reverse)
    requires forall x :: x in a <==> x in b
    ensures a == b
  {
    if a != [] {
      assert a[0] in b;
    }
    if b != [] {
      assert b[0] in a;
    }
    if a != [] && b != [] {
      assert a[0] in b && b[0] in a;
      OrderIsTotal(reverse, a[0], b[0]);
      assert a[0] == b[0];
      forall x ensures x in a[1..] <==> x in b[1..] {
        OrderIsTotal(reverse, x, x);
        assert x in a <==> x == a[0] || x in a[1..];
        assert x in b <==> x == b[0] || x in b[1..];
      }
      OrderedIsUnique(a[1..], b[1..], reverse);
      assert a == [a[0]] + a[1..] && b == [b[0]] + b[1..];
    }
  }

  /** One query: the first rows in order of those left by the cursor, or an
      error for a cursor of another chat or order. */
  ghost function Read(length: Cursor -> nat, c: Cache, q: Query, token: Token, limit: nat): Option<seq<Position>> {
    var clause := CursorClause(length, token, q.chat, Reverse(q));
    if clause.Rejected? then None
    else
      var rows := Sorted(Remaining(c, q, clause), Reverse(q));
      Some(if |rows| <= limit then rows else rows[..limit])
  }

  datatype Reading = Reading(rows: seq<Position>, finished: bool, refused: bool)

  /** A reader that follows the cursors while the table may be another one at
      every page. */
  ghost function Walk(length: Cursor -> nat, tables: seq<Cache>, q: Query, token: Token, limit: nat): Reading {
    if tables == [] then Reading([], false, false)
    else
      var page := Read(length, tables[0], q, token, limit);
      if page.None? then Reading([], false, true)
      else
        var next := MessageCursor(q.chat, Reverse(q), page.value, limit);
        if next.NoToken? then Reading(page.value, true, false)
        else
          var rest := Walk(length, tables[1..], q, next, limit);
          rest.(rows := page.value + rest.rows)
  }

  /** The cursor made from a row is accepted back by the query it came from
      exactly when the row's id is positive and the token is not too long. */
  predicate Resumable(length: Cursor -> nat, q: Query, p: Position) {
    p.id > 0 && length(Cursor(q.chat, p.date, p.id, Reverse(q))) <= MAX_TOKEN
  }

  lemma CursorAcceptedExactly(length: Cursor -> nat, q: Query, rows: seq<Position>, limit: nat)
    requires rows != [] && |rows| >= limit
    ensures var last := rows[|rows| - 1];
      CursorClause(length, MessageCursor(q.chat, Reverse(q), rows, limit), q.chat, Reverse(q))
        == if Resumable(length, q, last) then Beyond(last) else Rejected
  {
  }

  /** A cursor serves its own chat and order only. */
  lemma ForeignCursorRefused(length: Cursor -> nat, q: Query, rows: seq<Position>, limit: nat, chat: int, reverse: bool)
    requires chat != q.chat || reverse != Reverse(q)
    ensures var token := MessageCursor(q.chat, Reverse(q), rows, limit);
      token.NoToken? || CursorClause(length, token, chat, reverse).Rejected?
  {
  }

  lemma PageIsOrdered(length: Cursor -> nat, c: Cache, q: Query, token: Token, limit: nat)
    requires Read(length, c, q, token, limit).Some?
    ensures
      var clause := CursorClause(length, token, q.chat, Reverse(q));
      var rows := Read(length, c, q, token, limit).value;
      && Ordered(rows, Reverse(q)) && |rows| <= limit
      && (forall p | p in rows :: p in Remaining(c, q, clause))
      && (|rows| < limit ==> forall p | p in Remaining(c, q, clause) :: p in rows)
      && (forall p, r | r in rows && p in Remaining(c, q, clause) && p !in rows :: Precedes(Reverse(q), r, p))
  {
    var clause := CursorClause(length, token, q.chat, Reverse(q));
    var all := Sorted(Remaining(c, q, clause), Reverse(q));
    var rows := Read(length, c, q, token, limit).value;
    SortedIsOrdered(Remaining(c, q, clause), Reverse(q));
    assert forall m | 0 <= m < |rows| :: all[m] == rows[m] && all[m] in rows;
    forall p, r | r in rows && p in Remaining(c, q, clause) && p !in rows ensures Precedes(Reverse(q), r, p) {
      assert p in all;
      var i :| 0 <= i < |all| && all[i] == p;
      var j :| 0 <= j < |rows| && rows[j] == r;
      assert all[j] == r;
    }
  }

  /** NEVER TWICE. However the table changes between pages, positions only move
      forward, so none is returned a second time. */
  lemma {:induction false} NeverTwice(length: Cursor -> nat, tables: seq<Cache>, q: Query, token: Token, limit: nat)
    ensures Ordered(Walk(length, tables, q, token, limit).rows, Reverse(q))
    ensures CursorClause(length, token, q.chat, Reverse(q)).Beyond? ==>
              forall p | p in Walk(length, tables, q, token, limit).rows ::
                Precedes(Reverse(q), CursorClause(length, token, q.chat, Reverse(q)).position, p)
  {
    if tables != [] && Read(length, tables[0], q, token, limit).Some? {
      PageIsOrdered(length, tables[0], q, token, limit);
      var rows := Read(length, tables[0], q, token, limit).value;
      var next := MessageCursor(q.chat, Reverse(q), rows, limit);
      if next.Sealed? {
        NeverTwice(length, tables[1..], q, next, limit);
        var rest := Walk(length, tables[1..], q, next, limit).rows;
        NextIsBeyondLast(length, tables[1..], q, rows, limit);
        OrderedJoin(Reverse(q), rows, rest);
        var clause := CursorClause(length, token, q.chat, Reverse(q));
        if clause.Beyond? {
          AllBeyond(Reverse(q), clause.position, rows, rest);
        }
      }
    }
  }

  lemma OrderedJoin(reverse: bool, rows: seq<Position>, rest: seq<Position>)
    requires Ordered(rows, reverse) && Ordered(rest, reverse) && rows != []
    requires forall p | p in rest :: Precedes(reverse, rows[|rows| - 1], p)
    ensures Ordered(rows + rest, reverse)
  {
    forall i, j | 0 <= i < j < |rows + rest| ensures Precedes(reverse, (rows + rest)[i], (rows + rest)[j]) {
      if i < |rows| <= j {
        assert rest[j - |rows|] in rest;
        OrderAcross(reverse, rows, i, rest[j - |rows|]);
      }
    }
  }

  lemma AllBeyond(reverse: bool, start: Position, rows: seq<Position>, rest: seq<Position>)
    requires rows != [] && (forall p | p in rows :: Precedes(reverse, start, p))
    requires forall p | p in rest :: Precedes(reverse, rows[|rows| - 1], p)
    ensures forall p | p in rows + rest :: Precedes(reverse, start, p)
  {
    assert rows[|rows| - 1] in rows;
    forall p | p in rest ensures Precedes(reverse, start, p) {
      OrderIsTransitive(reverse, start, rows[|rows| - 1], p);
    }
  }

  lemma NextIsBeyondLast(length: Cursor -> nat, tables: seq<Cache>, q: Query, rows: seq<Position>, limit: nat)
    requires rows != [] && |rows| >= limit
    requires var next := MessageCursor(q.chat, Reverse(q), rows, limit);
      CursorClause(length, next, q.chat, Reverse(q)).Beyond? ==>
        forall p | p in Walk(length, tables, q, next, limit).rows ::
          Precedes(Reverse(q), CursorClause(length, next, q.chat, Reverse(q)).position, p)
    ensures forall p | p in Walk(length, tables, q, MessageCursor(q.chat, Reverse(q), rows, limit), limit).rows ::
              Precedes(Reverse(q), rows[|rows| - 1], p)
  {
    CursorAcceptedExactly(length, q, rows, limit);
  }

  lemma OrderAcross(reverse: bool, rows: seq<Position>, i: nat, p: Position)
    requires Ordered(rows, reverse) && i < |rows| && Precedes(reverse, rows[|rows| - 1], p)
    ensures Precedes(reverse, rows[i], p)
  {
    if i < |rows| - 1 {
      OrderIsTransitive(reverse, rows[i], rows[|rows| - 1], p);
    }
  }

  /** NOTHING MISSED. Once the reader reaches the end, every row that was
      selected at the same position throughout has been returned; and nothing is
      returned that its own table did not select. */
  lemma {:induction false} NothingMissed(length: Cursor -> nat, tables: seq<Cache>, q: Query, token: Token, limit: nat, p: Position)
    requires limit >= 1
    ensures
      var clause := CursorClause(length, token, q.chat, Reverse(q));
      var reading := Walk(length, tables, q, token, limit);
      && (reading.finished && !clause.Rejected? && (forall c | c in tables :: p in Remaining(c, q, clause)) ==> p in reading.rows)
      && (p in reading.rows ==> exists c :: c in tables && p in Selected(c, q))
  {
    var clause := CursorClause(length, token, q.chat, Reverse(q));
    if tables != [] && !clause.Rejected? {
      PageIsOrdered(length, tables[0], q, token, limit);
      assert tables[0] in tables;
      var rows := Read(length, tables[0], q, token, limit).value;
      var next := MessageCursor(q.chat, Reverse(q), rows, limit);
      if next.Sealed? {
        NothingMissed(length, tables[1..], q, next, limit, p);
        CursorAcceptedExactly(length, q, rows, limit);
        var last := rows[|rows| - 1];
        assert last in rows;
        assert !Resumable(length, q, last) ==> !Walk(length, tables[1..], q, next, limit).finished;
        if (forall c | c in tables :: p in Remaining(c, q, clause)) && p !in rows && Resumable(length, q, last) {
          forall c | c in tables[1..] ensures p in Remaining(c, q, Beyond(last)) {
            assert c in tables;
          }
        }
      }
    }
  }

  /** Following the cursors over an unchanged table ends after at most one page
      more than there are rows. */
  lemma {:induction false} StaticWalkEnds(length: Cursor -> nat, tables: seq<Cache>, c: Cache, q: Query, token: Token, limit: nat)
    requires limit >= 1 && forall t | t in tables :: t == c
    requires forall p | p in Selected(c, q) :: Resumable(length, q, p)
    requires !CursorClause(length, token, q.chat, Reverse(q)).Rejected?
    requires |tables| > |Remaining(c, q, CursorClause(length, token, q.chat, Reverse(q)))|
    ensures Walk(length, tables, q, token, limit).finished && !Walk(length, tables, q, token, limit).refused
  {
    var clause := CursorClause(length, token, q.chat, Reverse(q));
    assert tables[0] in tables && forall t | t in tables[1..] :: t in tables;
    PageIsOrdered(length, c, q, token, limit);
    var rows := Read(length, c, q, token, limit).value;
    var next := MessageCursor(q.chat, Reverse(q), rows, limit);
    if next.Sealed? {
      CursorAcceptedExactly(length, q, rows, limit);
      var last := rows[|rows| - 1];
      assert last in rows;
      RemainingShrinks(c, q, clause, last);
      StaticWalkEnds(length, tables[1..], c, q, next, limit);
    }
  }

  lemma RemainingShrinks(c: Cache, q: Query, clause: Clause, last: Position)
    requires !clause.Rejected? && last in Remaining(c, q, clause)
    ensures |Remaining(c, q, Beyond(last))| < |Remaining(c, q, clause)|
  {
    var less, more := Remaining(c, q, Beyond(last)), Remaining(c, q, clause);
    forall p | p in less ensures p in more - {last} {
      OrderIsTotal(Reverse(q), last, last);
      if clause.Beyond? {
        OrderIsTransitive(Reverse(q), clause.position, last, p);
      }
    }
    CardinalityOfSubset(less, more - {last});
  }

  lemma {:induction false} CardinalityOfSubset(a: set<Position>, b: set<Position>)
    requires a <= b
    ensures |a| <= |b|
  {
    if a != {} {
      var x :| x in a;
      CardinalityOfSubset(a - {x}, b - {x});
    }
  }

  /** EXACTNESS. Over an unchanged table the pages concatenate to exactly the one
      sorted and filtered query, for every page size. */
  lemma PagesConcatenate(length: Cursor -> nat, c: Cache, q: Query, limit: nat)
    requires limit >= 1
    requires forall p | p in Selected(c, q) :: Resumable(length, q, p)
    ensures Walk(length, seq(|Selected(c, q)| + 1, _ => c), q, NoToken, limit)
         == Reading(Sorted(Selected(c, q), Reverse(q)), true, false)
  {
    var tables := seq(|Selected(c, q)| + 1, _ => c);
    var reading := Walk(length, tables, q, NoToken, limit);
    assert Remaining(c, q, NoClause) == Selected(c, q);
    StaticWalkEnds(length, tables, c, q, NoToken, limit);
    NeverTwice(length, tables, q, NoToken, limit);
    SortedIsOrdered(Selected(c, q), Reverse(q));
    forall p ensures p in reading.rows <==> p in Sorted(Selected(c, q), Reverse(q)) {
      NothingMissed(length, tables, q, NoToken, limit, p);
    }
    OrderedIsUnique(reading.rows, Sorted(Selected(c, q), Reverse(q)), Reverse(q));
  }

  /** Newest first unless asked otherwise: the pages of an unchanged cache list
      their dates, and ids within a date, strictly falling, or strictly rising. */
  lemma PagesAreDated(length: Cursor -> nat, c: Cache, q: Query, limit: nat, i: nat, j: nat)
    requires limit >= 1 && forall x | x in Selected(c, q) :: Resumable(length, q, x)
    requires i < j < |AllPages(length, c, q, limit)|
    ensures var rows := AllPages(length, c, q, limit);
      var rising := (q.filter.Show? && q.filter.ascending) || (q.filter.List? && q.filter.ascending);
      var first, second := if rising then rows[i] else rows[j], if rising then rows[j] else rows[i];
      AtMost(first.date, second.date) && (first.date == second.date ==> first.id < second.id)
  {
    var rows := AllPages(length, c, q, limit);
    assert Ordered(rows, Reverse(q)) by {
      PagesConcatenate(length, c, q, limit);
      SortedIsOrdered(Selected(c, q), Reverse(q));
    }
    assert Precedes(Reverse(q), rows[i], rows[j]);
    Total(rows[i].date, rows[i].date);
  }

  ghost function AllPages(length: Cursor -> nat, c: Cache, q: Query, limit: nat): seq<Position> {
    Walk(length, seq(|Selected(c, q)| + 1, _ => c), q, NoToken, limit).rows
  }

  /** And they list a message of the chat exactly if it is not deleted, or deleted
      ones are wanted, and lies within the bounds, both included, or contains the
      text searched for. */
  lemma PagesListExactly(length: Cursor -> nat, c: Cache, q: Query, limit: nat, p: Position)
    requires limit >= 1 && forall x | x in Selected(c, q) :: Resumable(length, q, x)
    ensures p in AllPages(length, c, q, limit) <==>
      var k := MessageKey(q.chat, p.id);
      && k in c.messages && c.messages[k].content.date == p.date
      && (c.messages[k].deleted ==> q.includeDeleted)
      && (q.filter.List? ==>
            && (q.filter.since != "" ==> AtMost(q.filter.since, p.date))
            && (q.filter.until != "" ==> AtMost(p.date, q.filter.until)))
      && (q.filter.Search? ==>
            var text := c.messages[k].content.text;
            && text.Some? && (exists i: nat :: OccursAt(text.value, q.filter.query, i))
            && (q.filter.caseSensitive ==> Contains(text.value, q.filter.query)))
  {
    PagesConcatenate(length, c, q, limit);
    SortedIsOrdered(Selected(c, q), Reverse(q));
    var k := MessageKey(q.chat, p.id);
    if k in c.messages && q.filter.Search? && c.messages[k].content.text.Some? {
      SearchIsContainment(q.filter.query, c.messages[k].content.text.value);
    }
    assert p in Selected(c, q) <==> k in c.messages && Selects(q, k, c.messages[k]) && c.messages[k].content.date == p.date;
  }
}
