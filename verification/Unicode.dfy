/** UTF-8, per section 3 of RFC 3629, and UTF-16, per section 2.1 of RFC 2781. */
module Unicode {
  import opened Wrappers

  type Byte = b: int | 0 <= b < 0x100

  /** A character number that UTF-8 can carry. */
  type Scalar = r: int | 0 <= r < 0x11_0000 && !(0xD800 <= r < 0xE000)

  function Size(r: Scalar): (n: nat)
    ensures 1 <= n <= 4
  {
    if r < 0x80 then 1 else if r < 0x800 then 2 else if r < 0x1_0000 then 3 else 4
  }

  function Tail(v: int): Byte {
    0x80 + v % 64
  }

  function EncodeOne(r: Scalar): (bytes: seq<Byte>)
    ensures |bytes| == Size(r)
  {
    if r < 0x80 then [r]
    else if r < 0x800 then [0xC0 + r / 64, Tail(r)]
    else if r < 0x1_0000 then [0xE0 + r / 64 / 64, Tail(r / 64), Tail(r)]
    else [0xF0 + r / 64 / 64 / 64, Tail(r / 64 / 64), Tail(r / 64), Tail(r)]
  }

  predicate IsTail(bytes: seq<Byte>, i: nat) {
    i < |bytes| && 0x80 <= bytes[i] < 0xC0
  }

  function Low(bytes: seq<Byte>, i: nat): (v: int)
    requires IsTail(bytes, i)
    ensures 0 <= v < 64
  {
    bytes[i] - 0x80
  }

  function Checked(v: int, least: nat): Option<Scalar> {
    if least <= v < 0x11_0000 && !(0xD800 <= v < 0xE000) then
      var r: Scalar := v;
      Some(r)
    else None
  }

  /** The character at the front, or None where the bytes are not well formed. */
  function DecodeOne(bytes: seq<Byte>): (r: Option<Scalar>)
    ensures r.Some? ==> Size(r.value) <= |bytes|
  {
    if bytes == [] then None
    else
      var lead: int := bytes[0];
      if lead < 0x80 then Some(bytes[0])
      else if 0xC0 <= lead < 0xE0 && IsTail(bytes, 1) then
        Checked((lead - 0xC0) * 64 + Low(bytes, 1), 0x80)
      else if 0xE0 <= lead < 0xF0 && IsTail(bytes, 1) && IsTail(bytes, 2) then
        Checked(((lead - 0xE0) * 64 + Low(bytes, 1)) * 64 + Low(bytes, 2), 0x800)
      else if 0xF0 <= lead < 0xF8 && IsTail(bytes, 1) && IsTail(bytes, 2) && IsTail(bytes, 3) then
        Checked((((lead - 0xF0) * 64 + Low(bytes, 1)) * 64 + Low(bytes, 2)) * 64 + Low(bytes, 3), 0x1_0000)
      else None
  }

  predicate Valid(bytes: seq<Byte>) {
    bytes == [] || (DecodeOne(bytes).Some? && Valid(bytes[Size(DecodeOne(bytes).value)..]))
  }

  function Encode(text: seq<Scalar>): seq<Byte> {
    if text == [] then [] else EncodeOne(text[0]) + Encode(text[1..])
  }

  function Length(text: seq<Scalar>): nat {
    if text == [] then 0 else Length(text[..|text| - 1]) + Size(text[|text| - 1])
  }

  lemma DecodeInvertsEncode(r: Scalar, rest: seq<Byte>)
    ensures DecodeOne(EncodeOne(r) + rest) == Some(r)
  {
    var bytes := EncodeOne(r) + rest;
    assert forall i | 0 <= i < Size(r) :: bytes[i] == EncodeOne(r)[i];
    var a, b, c := r / 64, r / 64 / 64, r / 64 / 64 / 64;
    assert r == a * 64 + r % 64 && a == b * 64 + a % 64 && b == c * 64 + b % 64;
    if r >= 0x1_0000 {
      assert Low(bytes, 1) == b % 64 && Low(bytes, 2) == a % 64 && Low(bytes, 3) == r % 64;
    } else if r >= 0x800 {
      assert Low(bytes, 1) == a % 64 && Low(bytes, 2) == r % 64;
    } else if r >= 0x80 {
      assert Low(bytes, 1) == r % 64;
    }
  }

  /** No character's encoding can be cut short. */
  lemma CutIsInvalid(r: Scalar, n: nat)
    requires 0 < n < Size(r)
    ensures DecodeOne(EncodeOne(r)[..n]).None?
  {
  }

  lemma {:induction false} LengthOfTwo(a: seq<Scalar>, b: seq<Scalar>)
    ensures Length(a + b) == Length(a) + Length(b)
  {
    if b == [] {
      assert a + b == a;
    } else {
      LengthOfTwo(a, b[..|b| - 1]);
      assert (a + b)[..|a + b| - 1] == a + b[..|b| - 1];
    }
  }

  lemma EncodeCons(r: Scalar, rest: seq<Scalar>)
    ensures Encode([r] + rest) == EncodeOne(r) + Encode(rest)
  {
    assert ([r] + rest)[1..] == rest;
  }

  lemma Associate(a: seq<Byte>, b: seq<Byte>, c: seq<Byte>)
    ensures a + (b + c) == (a + b) + c
  {
  }

  lemma {:induction false} EncodeOfTwo(a: seq<Scalar>, b: seq<Scalar>)
    ensures Encode(a + b) == Encode(a) + Encode(b)
  {
    if a == [] {
      assert a + b == b;
    } else {
      var r, rest := a[0], a[1..];
      EncodeOfTwo(rest, b);
      EncodeCons(r, rest + b);
      EncodeCons(r, rest);
      assert [r] + rest == a && [r] + (rest + b) == a + b;
      Associate(EncodeOne(r), Encode(rest), Encode(b));
    }
  }

  lemma {:induction false} EncodeLength(text: seq<Scalar>)
    ensures |Encode(text)| == Length(text)
  {
    if text != [] {
      EncodeLength(text[1..]);
      LengthOfTwo([text[0]], text[1..]);
      assert [text[0]] + text[1..] == text;
      assert Length([text[0]]) == Size(text[0]) by {
        assert [text[0]][..0] == [];
      }
    }
  }

  ghost predicate Boundary(text: seq<Scalar>, n: int) {
    exists k :: 0 <= k <= |text| && n == |Encode(text[..k])|
  }

  lemma BoundaryCons(r: Scalar, rest: seq<Scalar>, n: int)
    ensures Boundary([r] + rest, n) <==> n == 0 || Boundary(rest, n - Size(r))
  {
    var text := [r] + rest;
    assert text[..0] == [] && Encode(text[..0]) == [];
    forall k | 0 <= k <= |rest| ensures |Encode(text[..k + 1])| == Size(r) + |Encode(rest[..k])| {
      assert text[..k + 1] == [r] + rest[..k];
      EncodeCons(r, rest[..k]);
    }
    if k :| 0 <= k <= |text| && n == |Encode(text[..k])| {
      if k > 0 {
        assert n - Size(r) == |Encode(rest[..k - 1])|;
      }
    }
    if k :| 0 <= k <= |rest| && n - Size(r) == |Encode(rest[..k])| {
      assert n == |Encode(text[..k + 1])|;
    }
    if n == 0 {
      assert n == |Encode(text[..0])|;
    }
  }

  lemma BoundaryNotInside(text: seq<Scalar>, n: int)
    ensures n < 0 ==> !Boundary(text, n)
    ensures text == [] ==> (Boundary(text, n) <==> n == 0)
  {
    if text == [] {
      assert text[..0] == [] && |Encode(text[..0])| == 0;
    }
  }

  /** A prefix of well-formed text is well formed exactly at a character
      boundary. */
  lemma {:induction false} ValidPrefixes(text: seq<Scalar>, n: nat)
    requires n <= |Encode(text)|
    ensures Valid(Encode(text)[..n]) <==> Boundary(text, n)
  {
    if text == [] {
      BoundaryNotInside(text, n);
    } else {
      var r, rest := text[0], text[1..];
      assert text == [r] + rest;
      BoundaryCons(r, rest, n);
      var one := EncodeOne(r);
      if n == 0 {
      } else if n < |one| {
        assert Encode(text)[..n] == one[..n];
        CutIsInvalid(r, n);
        BoundaryNotInside(rest, n - |one|);
      } else {
        ValidPrefixes(rest, n - |one|);
        var cut := Encode(rest)[..n - |one|];
        assert Encode(text)[..n] == one + cut;
        ValidAfterOne(r, cut);
      }
    }
  }

  lemma ValidAfterOne(r: Scalar, cut: seq<Byte>)
    ensures Valid(EncodeOne(r) + cut) <==> Valid(cut)
  {
    DecodeInvertsEncode(r, cut);
    assert (EncodeOne(r) + cut)[Size(r)..] == cut;
  }

  /** The longest prefix of whole characters within a number of bytes. */
  function Fitting(text: seq<Scalar>, max: int): seq<Scalar> {
    if Length(text) <= max || text == [] then text else Fitting(text[..|text| - 1], max)
  }

  lemma {:induction false} FittingIsLongest(text: seq<Scalar>, max: nat, k: nat)
    requires k <= |text|
    ensures Fitting(text, max) <= text && Length(Fitting(text, max)) <= max
    ensures Length(text[..k]) <= max ==> k <= |Fitting(text, max)|
  {
    if Length(text) > max && text != [] {
      if k < |text| {
        FittingIsLongest(text[..|text| - 1], max, k);
        assert text[..|text| - 1][..k] == text[..k];
      } else {
        FittingIsLongest(text[..|text| - 1], max, 0);
        assert text[..k] == text;
      }
    }
  }

  lemma {:induction false} PrefixIsShorter(text: seq<Scalar>, k: nat)
    requires k <= |text|
    ensures Length(text[..k]) + (|text| - k) <= Length(text)
  {
    if k < |text| {
      PrefixIsShorter(text[..|text| - 1], k);
      assert text[..|text| - 1][..k] == text[..k];
    } else {
      assert text[..k] == text;
    }
  }

  function Width(r: Scalar): (n: nat)
    ensures 1 <= n <= 2
  {
    if r > 0xFFFF then 2 else 1
  }

  function Width16(text: seq<Scalar>): nat {
    if text == [] then 0 else Width16(text[..|text| - 1]) + Width(text[|text| - 1])
  }

  function EncodeOne16(r: Scalar): (units: seq<int>)
    ensures |units| == Width(r)
  {
    if r < 0x1_0000 then [r] else [0xD800 + (r - 0x1_0000) / 0x400, 0xDC00 + (r - 0x1_0000) % 0x400]
  }

  function Encode16(text: seq<Scalar>): (units: seq<int>)
    ensures |units| == Width16(text)
  {
    if text == [] then [] else Encode16(text[..|text| - 1]) + EncodeOne16(text[|text| - 1])
  }
}
