/** Reducing any bytes to one safe file name. */
module FileName {
  import opened Unicode

  type Text = seq<Scalar>

  const MAX_NAME_SIZE := 180

  const DOT: Scalar := 0x2E
  const SPACE: Scalar := 0x20
  const SLASH: Scalar := 0x2F
  const BACKSLASH: Scalar := 0x5C
  const UNDERSCORE: Scalar := 0x5F

  predicate IsAscii(s: string) {
    forall i | 0 <= i < |s| :: s[i] as int < 0x80
  }

  function Ascii(s: string): Text
    requires IsAscii(s)
  {
    seq(|s|, i requires 0 <= i < |s| => s[i] as int)
  }

  const DEFAULT_NAME: Text := Ascii("media.bin")

  /** The characters < > : " / \ | ? * */
  predicate Forbidden(r: Scalar) {
    r in {0x3C, 0x3E, 0x3A, 0x22, SLASH, BACKSLASH, 0x7C, 0x3F, 0x2A}
  }

  /** Category Cc. */
  predicate Control(r: Scalar) {
    r < 0x20 || 0x7F <= r < 0xA0
  }

  predicate Clean(t: Text) {
    forall r | r in t :: !Forbidden(r) && !Control(r)
  }

  predicate Margin(r: Scalar) {
    r == DOT || r == SPACE
  }

  predicate Trimmed(t: Text) {
    t != [] ==> !Margin(t[0]) && !Margin(t[|t| - 1])
  }

  function TrimLeft(t: Text): Text {
    if t != [] && Margin(t[0]) then TrimLeft(t[1..]) else t
  }

  function TrimRight(t: Text): Text {
    if t != [] && Margin(t[|t| - 1]) then TrimRight(t[..|t| - 1]) else t
  }

  function Trim(t: Text): Text {
    TrimRight(TrimLeft(t))
  }

  /** strings.ToValidUTF8: one underscore for every run of bad bytes. */
  function Scrub(bytes: seq<Byte>, inRun: bool): Text
    decreases |bytes|
  {
    if bytes == [] then []
    else
      var r := DecodeOne(bytes);
      if r.Some? then [r.value] + Scrub(bytes[Size(r.value)..], false)
      else (if inRun then [] else [UNDERSCORE]) + Scrub(bytes[1..], true)
  }

  function ForwardSlashes(t: Text): Text {
    seq(|t|, i requires 0 <= i < |t| => if t[i] == BACKSLASH then SLASH else t[i])
  }

  function DropTrailingSlashes(t: Text): Text {
    if t != [] && t[|t| - 1] == SLASH then DropTrailingSlashes(t[..|t| - 1]) else t
  }

  function AfterLastSlash(t: Text): Text {
    if t == [] || t[|t| - 1] == SLASH then [] else AfterLastSlash(t[..|t| - 1]) + [t[|t| - 1]]
  }

  /** path.Base. */
  function Base(t: Text): Text {
    if t == [] then [DOT]
    else
      var last := AfterLastSlash(DropTrailingSlashes(t));
      if last == [] then [SLASH] else last
  }

  /** filepath.Ext. */
  function Ext(t: Text): Text {
    if t == [] || t[|t| - 1] == SLASH then []
    else if t[|t| - 1] == DOT then [DOT]
    else
      var before := Ext(t[..|t| - 1]);
      if before == [] then [] else before + [t[|t| - 1]]
  }

  function Stem(t: Text): Text {
    ExtIsSuffix(t);
    t[..|t| - |Ext(t)|]
  }

  lemma {:induction false} ExtIsSuffix(t: Text)
    ensures |Ext(t)| <= |t| && t[|t| - |Ext(t)|..] == Ext(t)
    ensures Ext(t) != [] ==> Ext(t)[0] == DOT == t[|t| - |Ext(t)|]
  {
    if t != [] {
      ExtIsSuffix(t[..|t| - 1]);
    }
  }

  function Upper(r: Scalar): Scalar {
    if 0x61 <= r <= 0x7A then r - 0x20 else r
  }

  /** No other character's upper case is one of the letters that matter here. */
  predicate Spells(t: Text, word: string)
    requires IsAscii(word)
  {
    |t| == |word| && forall i | 0 <= i < |t| :: Upper(t[i]) == word[i] as int
  }

  predicate ReservedDevice(t: Text) {
    var stem := Stem(t);
    || Spells(stem, "CON") || Spells(stem, "PRN") || Spells(stem, "AUX") || Spells(stem, "NUL")
    || (|stem| == 4 && (Spells(stem[..3], "COM") || Spells(stem[..3], "LPT")) && 0x31 <= stem[3] <= 0x39)
  }

  predicate Unusable(t: Text) {
    t == [] || t == [DOT] || t == [DOT, DOT]
  }

  function Replace(t: Text): Text {
    if t == [] then []
    else
      var r := t[|t| - 1];
      Replace(t[..|t| - 1]) + [if Forbidden(r) || Control(r) then UNDERSCORE else r]
  }

  function Truncated(t: Text, max: int): Text {
    if Length(t) <= max then t
    else
      var ext := Ext(t);
      var stem := Trim(Fitting(Trim(Stem(t)), max - Length(ext)));
      if ext != [] && ext != [DOT] && Length(ext) <= 32 && stem != [] then stem + ext
      else Trim(Fitting(t, max))
  }

  function Finished(name: Text): Text {
    var cut := Truncated(name, MAX_NAME_SIZE);
    if Unusable(name) || Unusable(cut) then DEFAULT_NAME
    else if ReservedDevice(cut) then [UNDERSCORE] + Truncated(cut, MAX_NAME_SIZE - 1)
    else cut
  }

  function Sanitized(raw: seq<Byte>): Text {
    Finished(Trim(Replace(Base(ForwardSlashes(Scrub(raw, false))))))
  }

  /** What may be used as a file name anywhere. */
  predicate Safe(t: Text) {
    && t != [] && Length(t) <= MAX_NAME_SIZE
    && Clean(t) && Trimmed(t)
    && !ReservedDevice(t)
  }

  lemma {:induction false} TrimLeftIsSuffix(t: Text) returns (i: nat)
    ensures i <= |t| && TrimLeft(t) == t[i..]
    ensures TrimLeft(t) != [] ==> !Margin(TrimLeft(t)[0])
  {
    i := 0;
    if t != [] && Margin(t[0]) {
      var j := TrimLeftIsSuffix(t[1..]);
      i := j + 1;
      assert t[1..][j..] == t[i..];
    } else {
      assert t[0..] == t;
    }
  }

  lemma {:induction false} TrimRightIsPrefix(t: Text)
    ensures TrimRight(t) <= t
    ensures TrimRight(t) != [] ==> !Margin(TrimRight(t)[|TrimRight(t)| - 1])
  {
    if t != [] && Margin(t[|t| - 1]) {
      TrimRightIsPrefix(t[..|t| - 1]);
    }
  }

  /** Trimming keeps a middle part. */
  lemma TrimIsPart(t: Text) returns (i: nat, j: nat)
    ensures i <= j <= |t| && Trim(t) == t[i..j] && Trimmed(Trim(t))
  {
    i := TrimLeftIsSuffix(t);
    var left := TrimLeft(t);
    var both := TrimRight(left);
    TrimRightIsPrefix(left);
    j := i + |both|;
    SliceOfSuffix(t, i, |both|);
    assert both != [] ==> both[0] == left[0];
  }

  lemma SliceOfSuffix(t: Text, i: nat, n: nat)
    requires i + n <= |t|
    ensures t[i..][..n] == t[i..i + n]
  {
  }

  lemma PartIsShorter(t: Text, i: nat, j: nat)
    requires i <= j <= |t|
    ensures Length(t[i..j]) <= Length(t)
  {
    var before, part := t[..i], t[i..j];
    PrefixIsShorter(t, j);
    assert t[..j] == before + part;
    LengthOfTwo(before, part);
  }

  /** And all of it if nothing is to be trimmed. */
  lemma TrimKeepsPart(t: Text)
    ensures Trimmed(Trim(t)) && Length(Trim(t)) <= Length(t)
    ensures Clean(t) ==> Clean(Trim(t))
    ensures Trimmed(t) ==> Trim(t) == t
    ensures t != [] && !Margin(t[0]) ==> Trim(t) != [] && Trim(t)[0] == t[0]
  {
    var i, j := TrimIsPart(t);
    PartIsShorter(t, i, j);
    if t != [] && !Margin(t[0]) {
      KeepsFirst(t);
    }
  }

  lemma {:induction false} KeepsFirst(t: Text)
    requires t != [] && !Margin(t[0])
    ensures TrimRight(t) != [] && TrimRight(t)[0] == t[0]
  {
    if Margin(t[|t| - 1]) {
      KeepsFirst(t[..|t| - 1]);
    }
  }

  lemma {:induction false} ReplaceCleans(t: Text)
    ensures |Replace(t)| == |t| && Clean(Replace(t))
    ensures Clean(t) ==> Replace(t) == t
  {
    if t != [] {
      ReplaceCleans(t[..|t| - 1]);
    }
  }

  lemma CutKeepsFirst(t: Text, max: nat)
    requires t != [] && Trimmed(t) && max >= 4
    ensures var cut := Trim(Fitting(t, max));
      cut != [] && cut[0] == t[0] && Trimmed(cut) && Length(cut) <= max && (Clean(t) ==> Clean(cut))
  {
    var part := Fitting(t, max);
    FittingIsLongest(t, max, 1);
    assert t[..1][..0] == [] && Length(t[..1]) == Size(t[0]);
    TrimKeepsPart(part);
  }

  /** A shortened stem in front of an extension that is kept. */
  lemma StemPlusExt(t: Text, room: nat)
    requires Clean(t) && Trimmed(t) && Ext(t) != []
    ensures var stem := Trim(Fitting(Trim(Stem(t)), room));
      stem != [] ==> Clean(stem + Ext(t)) && Trimmed(stem + Ext(t)) && Length(stem + Ext(t)) <= room + Length(Ext(t))
  {
    var ext := Ext(t);
    ExtIsSuffix(t);
    TrimKeepsPart(Stem(t));
    var part := Fitting(Trim(Stem(t)), room);
    FittingIsLongest(Trim(Stem(t)), room, 0);
    assert Clean(part);
    TrimKeepsPart(part);
    LengthOfTwo(Trim(part), ext);
    assert ext[|ext| - 1] == t[|t| - 1];
    assert Clean(ext);
  }

  lemma TruncatedIsSafe(t: Text, max: nat)
    requires t != [] && Clean(t) && Trimmed(t) && max >= 40
    ensures var cut := Truncated(t, max);
      cut != [] && Length(cut) <= max && Clean(cut) && Trimmed(cut)
  {
    CutKeepsFirst(t, max);
    if Ext(t) != [] && Length(Ext(t)) <= 32 {
      StemPlusExt(t, max - Length(Ext(t)));
    }
  }

  lemma UnderscoreIsNotReserved(t: Text)
    ensures !ReservedDevice([UNDERSCORE] + t)
  {
    var name := [UNDERSCORE] + t;
    ExtIsSuffix(name);
    assert Stem(name)[0] == UNDERSCORE;
  }

  lemma DefaultSpelled()
    ensures DEFAULT_NAME == [0x6D, 0x65, 0x64, 0x69, 0x61, 0x2E, 0x62, 0x69, 0x6E]
  {
    var s := "media.bin";
    assert |DEFAULT_NAME| == |s| && forall i | 0 <= i < |s| :: DEFAULT_NAME[i] == s[i] as int;
  }

  lemma DefaultExtension()
    ensures Ext(DEFAULT_NAME) == [DOT, 0x62, 0x69, 0x6E]
  {
    var t := DEFAULT_NAME;
    DefaultSpelled();
    assert Ext(t[..6]) == [DOT];
    assert t[..7][..6] == t[..6] && t[..8][..7] == t[..7] && t[..8] == t[..|t| - 1];
    assert Ext(t[..7]) == [DOT, 0x62];
    assert Ext(t[..8]) == [DOT, 0x62, 0x69];
  }

  lemma DefaultIsSafe()
    ensures Safe(DEFAULT_NAME)
  {
    var t := DEFAULT_NAME;
    DefaultSpelled();
    assert Clean(t);
    SmallLength(t);
    assert !ReservedDevice(t) by {
      DefaultExtension();
      assert |Stem(t)| == 5;
    }
  }

  lemma {:induction false} SmallLength(t: Text)
    ensures Length(t) <= 4 * |t|
  {
    if t != [] {
      SmallLength(t[..|t| - 1]);
    }
  }

  lemma PrefixedIsSafe(t: Text)
    requires Clean(t) && Trimmed(t) && Length(t) <= MAX_NAME_SIZE - 1
    ensures Safe([UNDERSCORE] + t)
  {
    UnderscoreIsNotReserved(t);
    LengthOfTwo([UNDERSCORE], t);
    assert [UNDERSCORE][..0] == [];
    assert Length([UNDERSCORE]) == 1;
    assert !Forbidden(UNDERSCORE) && !Control(UNDERSCORE) && !Margin(UNDERSCORE);
  }

  /** All of the sanitiser after the characters have been replaced. */
  lemma FinishedIsSafe(name: Text)
    requires Clean(name) && Trimmed(name)
    ensures Safe(Finished(name))
  {
    DefaultIsSafe();
    if name != [] {
      TruncatedIsSafe(name, MAX_NAME_SIZE);
      var cut := Truncated(name, MAX_NAME_SIZE);
      TruncatedIsSafe(cut, MAX_NAME_SIZE - 1);
      PrefixedIsSafe(Truncated(cut, MAX_NAME_SIZE - 1));
    }
  }

  /** CON, PRN, AUX, NUL, COM1 to COM9 and LPT1 to LPT9. */
  predicate IsDevice(name: string) {
    || name in {"CON", "PRN", "AUX", "NUL"}
    || (|name| == 4 && name[..3] in {"COM", "LPT"} && name[3] in "123456789")
  }

  /** The text is the word in whatever case. */
  predicate IsWord(t: Text, word: string) {
    |t| == |word| && forall i | 0 <= i < |t| ::
      t[i] == word[i] as int || ('A' <= word[i] <= 'Z' && t[i] == (word[i] as int) + 32)
  }

  lemma SpelledIsWord(t: Text, word: string)
    requires IsAscii(word) && forall i | 0 <= i < |word| :: !('a' <= word[i] <= 'z')
    ensures Spells(t, word) <==> IsWord(t, word)
  {
  }

  lemma NumberedDevice(t: Text, name: string)
    requires IsDevice(name) && |name| == 4
    ensures IsWord(t, name) <==> |t| == 4 && Spells(t[..3], name[..3]) && t[3] == name[3] as int
  {
    assert name[..3] in {"COM", "LPT"};
    if |t| == 4 {
      SpelledIsWord(t[..3], name[..3]);
      assert forall i | 0 <= i < 3 :: t[..3][i] == t[i] && name[..3][i] == name[i];
    }
  }

  /** Reserved is exactly what has a device's name in front of its extension. */
  lemma DevicesExactly(t: Text)
    ensures ReservedDevice(t) <==> exists name :: IsDevice(name) && IsWord(Stem(t), name)
  {
    var stem := Stem(t);
    SpelledIsWord(stem, "CON");
    SpelledIsWord(stem, "PRN");
    SpelledIsWord(stem, "AUX");
    SpelledIsWord(stem, "NUL");
    assert IsDevice("CON") && IsDevice("PRN") && IsDevice("AUX") && IsDevice("NUL");
    if |stem| == 4 && 0x31 <= stem[3] <= 0x39 {
      NumberIsDevice(stem, "COM");
      NumberIsDevice(stem, "LPT");
    }
    if name :| IsDevice(name) && |name| == 4 && IsWord(stem, name) {
      NumberedDevice(stem, name);
    }
  }

  lemma NumberIsDevice(t: Text, word: string)
    requires |t| == 4 && 0x31 <= t[3] <= 0x39 && word in {"COM", "LPT"}
    ensures Spells(t[..3], word) ==> exists name :: IsDevice(name) && IsWord(t, name)
  {
    var name := word + [t[3] as char];
    assert name[..3] == word && name[3] in "123456789";
    NumberedDevice(t, name);
  }

  lemma KeptStem(t: Text, room: nat)
    requires Trimmed(t) && t != [] && Ext(t) != [] && room >= 4
    ensures var stem := Trim(Fitting(Trim(Stem(t)), room));
      && stem != [] && stem[0] == t[0] && Trimmed(stem + Ext(t))
      && Length(stem + Ext(t)) <= room + Length(Ext(t))
  {
    var ext, front := Ext(t), Stem(t);
    ExtIsSuffix(t);
    assert front != [] && front[0] == t[0] && ext[|ext| - 1] == t[|t| - 1];
    TrimKeepsPart(front);
    CutKeepsFirst(Trim(front), room);
    LengthOfTwo(Trim(Fitting(Trim(front), room)), ext);
  }

  lemma CutIsPrefix(t: Text, max: nat)
    requires Trimmed(t) && t != []
    ensures Trim(Fitting(t, max)) <= t
  {
    var part := Fitting(t, max);
    FittingIsLongest(t, max, 0);
    if part != [] {
      assert part[0] == t[0];
    }
    assert TrimLeft(part) == part;
    TrimRightIsPrefix(part);
  }

  /** A name that is too long keeps its extension, if it has one of at most 32 bytes, */
  lemma LongNameKeepsExtension(t: Text, max: nat)
    requires Trimmed(t) && t != [] && Length(t) > max >= 40 && |Ext(t)| >= 2 && Length(Ext(t)) <= 32
    ensures var cut, ext := Truncated(t, max), Ext(t);
      && Trimmed(cut) && Length(cut) <= max
      && |cut| > |ext| && cut[0] == t[0] && cut[|cut| - |ext|..] == ext
  {
    var ext, room := Ext(t), max - Length(Ext(t));
    var stem := Trim(Fitting(Trim(Stem(t)), room));
    assert stem != [] && stem[0] == t[0] && Trimmed(stem + ext) && Length(stem + ext) <= max by {
      KeptStem(t, room);
    }
    assert Truncated(t, max) == stem + ext;
    assert (stem + ext)[|stem|..] == ext;
  }

  /** and is just cut otherwise. */
  lemma LongNameIsCut(t: Text, max: nat)
    requires Trimmed(t) && t != [] && Length(t) > max >= 40 && (|Ext(t)| < 2 || Length(Ext(t)) > 32)
    ensures var cut := Truncated(t, max);
      Trimmed(cut) && Length(cut) <= max && cut != [] && cut <= t
  {
    ExtIsSuffix(t);
    assert Ext(t) != [DOT];
    assert Truncated(t, max) == Trim(Fitting(t, max));
    CutKeepsFirst(t, max);
    CutIsPrefix(t, max);
  }

  /** SAFETY. Whatever bytes a sender supplies, the result is a safe name. */
  lemma SanitizedIsSafe(raw: seq<Byte>)
    ensures Safe(Sanitized(raw))
  {
    var base := Base(ForwardSlashes(Scrub(raw, false)));
    ReplaceCleans(base);
    TrimKeepsPart(Replace(base));
    FinishedIsSafe(Trim(Replace(base)));
  }

  lemma {:induction false} ScrubKeepsValid(t: Text)
    ensures Scrub(Encode(t), false) == t
  {
    if t != [] {
      ScrubKeepsValid(t[1..]);
      DecodeInvertsEncode(t[0], Encode(t[1..]));
      assert (EncodeOne(t[0]) + Encode(t[1..]))[Size(t[0])..] == Encode(t[1..]);
    }
  }

  /** A well-formed character is taken over, and what follows it is read afresh. */
  lemma ScrubOne(r: Scalar, tail: seq<Byte>, inRun: bool)
    ensures Scrub(EncodeOne(r) + tail, inRun) == [r] + Scrub(tail, false)
  {
    var bytes := EncodeOne(r) + tail;
    DecodeInvertsEncode(r, tail);
    assert bytes != [] && bytes[Size(r)..] == tail;
  }

  /** A run of bytes where no character begins becomes one underscore, or none
      behind another such run. */
  lemma {:induction false} ScrubRun(bytes: seq<Byte>, n: nat, inRun: bool)
    requires 0 < n <= |bytes| && forall i | 0 <= i < n :: DecodeOne(bytes[i..]).None?
    ensures Scrub(bytes, inRun) == (if inRun then [] else [UNDERSCORE]) + Scrub(bytes[n..], true)
  {
    assert bytes[0..] == bytes;
    if n > 1 {
      forall i | 0 <= i < n - 1 ensures DecodeOne(bytes[1..][i..]).None? {
        assert bytes[1..][i..] == bytes[i + 1..];
      }
      ScrubRun(bytes[1..], n - 1, true);
      assert bytes[1..][n - 1..] == bytes[n..];
    }
  }

  predicate Separator(r: Scalar) {
    r == SLASH || r == BACKSLASH
  }

  predicate NoSeparator(t: Text) {
    forall i | 0 <= i < |t| :: !Separator(t[i])
  }

  predicate AllSeparators(t: Text) {
    forall i | 0 <= i < |t| :: Separator(t[i])
  }

  lemma {:induction false} TrailingSlashesGo(t: Text, tail: Text)
    requires t != [] && t[|t| - 1] != SLASH && forall i | 0 <= i < |tail| :: tail[i] == SLASH
    ensures DropTrailingSlashes(t + tail) == t
  {
    if tail == [] {
      assert t + tail == t;
    } else {
      TrailingSlashesGo(t, tail[..|tail| - 1]);
      assert (t + tail)[..|t + tail| - 1] == t + tail[..|tail| - 1];
    }
  }

  lemma {:induction false} BehindSlash(front: Text, name: Text)
    requires (front == [] || front[|front| - 1] == SLASH) && SLASH !in name
    ensures AfterLastSlash(front + name) == name
  {
    if name == [] {
      assert front + name == front;
    } else {
      BehindSlash(front, name[..|name| - 1]);
      assert (front + name)[..|front + name| - 1] == front + name[..|name| - 1];
    }
  }

  /** Of a path the last component remains, whichever separators it is written with. */
  lemma BaseIsLastComponent(front: Text, name: Text, tail: Text)
    requires name != [] && NoSeparator(name) && AllSeparators(tail)
    requires front != [] ==> Separator(front[|front| - 1])
    ensures Base(ForwardSlashes(front + name + tail)) == name
  {
    var a, b, c := ForwardSlashes(front), ForwardSlashes(name), ForwardSlashes(tail);
    assert ForwardSlashes(front + name + tail) == a + b + c && b == name;
    TrailingSlashesGo(a + b, c);
    BehindSlash(a, b);
  }

  /** Nothing but separators is no name at all. */
  lemma {:induction false} BaseOfSeparators(t: Text)
    requires AllSeparators(t)
    ensures Base(ForwardSlashes(t)) == if t == [] then [DOT] else [SLASH]
  {
    NothingBehindSlashes(ForwardSlashes(t));
  }

  lemma {:induction false} NothingBehindSlashes(t: Text)
    requires forall i | 0 <= i < |t| :: t[i] == SLASH
    ensures DropTrailingSlashes(t) == []
  {
    if t != [] {
      NothingBehindSlashes(t[..|t| - 1]);
    }
  }

  /** Each forbidden or control character becomes an underscore, and no other changes. */
  lemma {:induction false} ReplacedAt(t: Text, i: nat)
    requires i < |t|
    ensures |Replace(t)| == |t|
    ensures Replace(t)[i] == if Forbidden(t[i]) || Control(t[i]) then UNDERSCORE else t[i]
    decreases |t|
  {
    ReplaceCleans(t[..|t| - 1]);
    if i < |t| - 1 {
      ReplacedAt(t[..|t| - 1], i);
    }
  }

  /** Only dots and spaces are trimmed, and only at the ends. */
  lemma {:induction false} TrimmedOff(t: Text) returns (front: Text, back: Text)
    ensures t == front + Trim(t) + back
    ensures forall i | 0 <= i < |front| :: Margin(front[i])
    ensures forall i | 0 <= i < |back| :: Margin(back[i])
  {
    front := LeftOff(t);
    back := RightOff(TrimLeft(t));
  }

  lemma {:induction false} LeftOff(t: Text) returns (front: Text)
    ensures t == front + TrimLeft(t) && forall i | 0 <= i < |front| :: Margin(front[i])
  {
    front := [];
    if t != [] && Margin(t[0]) {
      var more := LeftOff(t[1..]);
      front := [t[0]] + more;
    }
  }

  lemma {:induction false} RightOff(t: Text) returns (back: Text)
    ensures t == TrimRight(t) + back && forall i | 0 <= i < |back| :: Margin(back[i])
  {
    back := [];
    if t != [] && Margin(t[|t| - 1]) {
      var more := RightOff(t[..|t| - 1]);
      back := more + [t[|t| - 1]];
    }
  }

  lemma {:induction false} NoSlashNoChange(t: Text)
    requires SLASH !in t
    ensures AfterLastSlash(t) == t && DropTrailingSlashes(t) == t
  {
    if t != [] {
      NoSlashNoChange(t[..|t| - 1]);
    }
  }

  lemma CleanIsItsBase(t: Text)
    requires t != [] && Clean(t)
    ensures Base(ForwardSlashes(t)) == t
  {
    assert Forbidden(SLASH) && Forbidden(BACKSLASH);
    assert ForwardSlashes(t) == t;
    NoSlashNoChange(t);
  }

  lemma SafeIsFinished(t: Text)
    requires Safe(t)
    ensures Finished(t) == t
  {
    assert Truncated(t, MAX_NAME_SIZE) == t;
    assert !Unusable(t);
  }

  /** The same in plain numbers: no control character, none of < > : " / \ | ? *, and
      no dot or space at either end. */
  lemma SanitizedPlainly(raw: seq<Byte>)
    ensures var t := Sanitized(raw);
      && t != [] && Length(t) <= 180
      && (forall r | r in t :: r >= 32 && !(127 <= r <= 159) && r !in {60, 62, 58, 34, 47, 92, 124, 63, 42})
      && t[0] !in {46, 32} && t[|t| - 1] !in {46, 32}
      && (forall name | IsDevice(name) :: !IsWord(Stem(t), name))
  {
    SanitizedIsSafe(raw);
    DevicesExactly(Sanitized(raw));
  }

  /** The safe names are exactly those the sanitiser leaves alone. */
  lemma SafeExactlyUnchanged(t: Text)
    ensures Safe(t) <==> Sanitized(Encode(t)) == t
  {
    SanitizedIsSafe(Encode(t));
    if Safe(t) {
      ScrubKeepsValid(t);
      CleanIsItsBase(t);
      ReplaceCleans(t);
      TrimKeepsPart(t);
      SafeIsFinished(t);
    }
  }

  lemma Idempotent(raw: seq<Byte>)
    ensures Sanitized(Encode(Sanitized(raw))) == Sanitized(raw)
  {
    SanitizedIsSafe(raw);
    SafeExactlyUnchanged(Sanitized(raw));
  }

  /** Cutting valid text at a byte and then dropping bytes until it is valid
      again gives the longest prefix of whole characters. */
  method TruncateUtf8(value: seq<Byte>, max: nat, ghost text: Text) returns (cut: seq<Byte>)
    requires value == Encode(text)
    ensures cut == Encode(Fitting(text, max))
  {
    EncodeLength(text);
    if |value| <= max {
      return value;
    }
    cut := value[..max];
    while !Valid(cut)
      invariant |cut| <= max && cut == Encode(text)[..|cut|]
      invariant forall n | |cut| < n <= max :: !Valid(Encode(text)[..n])
      decreases |cut|
    {
      cut := cut[..|cut| - 1];
    }
    CutIsFitting(text, max, cut);
  }

  lemma CutIsFitting(text: Text, max: nat, cut: seq<Byte>)
    requires |cut| <= max < |Encode(text)| && cut == Encode(text)[..|cut|] && Valid(cut)
    requires forall n | |cut| < n <= max :: !Valid(Encode(text)[..n])
    ensures cut == Encode(Fitting(text, max))
  {
    ValidPrefixes(text, |cut|);
    var k :| 0 <= k <= |text| && |cut| == |Encode(text[..k])|;
    EncodeOfTwo(text[..k], text[k..]);
    assert text[..k] + text[k..] == text;
    assert cut == Encode(text[..k]);
    LongestWhole(text, max, k);
  }

  lemma LongestWhole(text: Text, max: nat, k: nat)
    requires k <= |text| && |Encode(text[..k])| <= max < |Encode(text)|
    requires forall n | |Encode(text[..k])| < n <= max :: !Valid(Encode(text)[..n])
    ensures Fitting(text, max) == text[..k]
  {
    var fit := Fitting(text, max);
    EncodeLength(text[..k]);
    FittingIsLongest(text, max, k);
    assert fit == text[..|fit|];
    EncodeLength(fit);
    EncodeLength(text);
    PrefixIsShorter(text, |fit|);
    ValidPrefixes(text, |Encode(fit)|);
    PrefixIsShorter(fit, k);
    assert fit[..k] == text[..k];
  }

  /** Forbidden and control characters become underscores. */
  method ReplaceAll(name: Text) returns (clean: Text)
    ensures clean == Replace(name)
  {
    clean := [];
    for i := 0 to |name|
      invariant clean == Replace(name[..i])
    {
      assert name[..i + 1][..i] == name[..i];
      if Forbidden(name[i]) || Control(name[i]) {
        clean := clean + [UNDERSCORE];
        continue;
      }
      clean := clean + [name[i]];
    }
    assert name[..|name|] == name;
  }

  method SanitizeDownloadName(raw: seq<Byte>) returns (name: Text)
    ensures name == Sanitized(raw)
    ensures Safe(name)
  {
    SanitizedIsSafe(raw);
    name := ReplaceAll(Base(ForwardSlashes(Scrub(raw, false))));
    name := Trim(name);
    if Unusable(name) {
      return DEFAULT_NAME;
    }
    name := Truncated(name, MAX_NAME_SIZE);
    if Unusable(name) {
      return DEFAULT_NAME;
    }
    if ReservedDevice(name) {
      name := [UNDERSCORE] + Truncated(name, MAX_NAME_SIZE - 1);
    }
  }
}
