/** The text encodings a measured command line passes through: UTF-8 in, UTF-16LE out. */
module Unicode {
  import opened ByteLayout
  import opened Wrappers

  type Scalar = c: int | 0 <= c < 0xD800 || 0xE000 <= c < 0x11_0000

  /** The continuation byte that carries the low six bits of `n`. */
  function Low(n: nat): byte {
    0x80 + n % 64
  }

  function Utf8One(c: Scalar): (bs: Bytes)
    ensures 1 <= |bs| <= 4
  {
    if c < 0x80 then [c]
    else if c < 0x800 then [0xC0 + c / 64, Low(c)]
    else if c < 0x1_0000 then [0xE0 + c / 64 / 64, Low(c / 64), Low(c)]
    else [0xF0 + c / 64 / 64 / 64, Low(c / 64 / 64), Low(c / 64), Low(c)]
  }

  function Utf8(s: seq<Scalar>): Bytes {
    if s == [] then [] else Utf8One(s[0]) + Utf8(s[1..])
  }

  predicate Continuation(b: byte) {
    0x80 <= b < 0xC0
  }

  /** Six more bits, from a continuation byte. */
  function Join(high: nat, b: byte): (n: nat)
    requires Continuation(b)
    ensures n / 64 == high && Low(n) == b
  {
    high * 64 + b - 0x80
  }

  predicate Continues(bs: Bytes, n: nat) {
    |bs| > n && forall i :: 1 <= i <= n ==> Continuation(bs[i])
  }

  /** The first scalar of `bs`: no overlong forms, no surrogates, nothing above U+10FFFF. */
  function FirstScalar(bs: Bytes): Option<Scalar> {
    if bs == [] then None
    else if bs[0] < 0x80 then Some(bs[0])
    else if 0xC2 <= bs[0] < 0xE0 && Continues(bs, 1) then Some(Join(bs[0] - 0xC0, bs[1]))
    else if 0xE0 <= bs[0] < 0xF0 && Continues(bs, 2) then
      var c := Join(Join(bs[0] - 0xE0, bs[1]), bs[2]);
      if c < 0x800 || 0xD800 <= c < 0xE000 then None else Some(c)
    else if 0xF0 <= bs[0] < 0xF5 && Continues(bs, 3) then
      var c := Join(Join(Join(bs[0] - 0xF0, bs[1]), bs[2]), bs[3]);
      if c < 0x1_0000 || c >= 0x11_0000 then None else Some(c)
    else None
  }

  /** `str::from_utf8`. */
  function DecodeUtf8(bs: Bytes): Option<seq<Scalar>>
    decreases |bs|
  {
    if bs == [] then Some([])
    else
      match FirstScalar(bs)
      case None => None
      case Some(c) =>
        if |Utf8One(c)| > |bs| then None
        else
          match DecodeUtf8(bs[|Utf8One(c)|..])
          case None => None
          case Some(s) => Some([c] + s)
  }

  lemma FirstScalarIsEncoded(bs: Bytes)
    requires FirstScalar(bs).Some?
    ensures var one := Utf8One(FirstScalar(bs).value);
            |one| <= |bs| && one == bs[..|one|]
  {
    hide Join, Low;
    var c := FirstScalar(bs).value;
    if bs[0] < 0x80 {
    } else if bs[0] < 0xE0 {
      assert 0x80 <= c < 0x800;
    } else if bs[0] < 0xF0 {
      assert 0x800 <= c < 0x1_0000;
    } else {
      assert 0x1_0000 <= c;
    }
  }

  lemma LowJoins(n: nat)
    ensures Continuation(Low(n)) && Join(n / 64, Low(n)) == n
  {
  }

  lemma EncodedIsFirstScalar(c: Scalar, tail: Bytes)
    ensures FirstScalar(Utf8One(c) + tail) == Some(c)
  {
    hide Join, Low;
    var bs := Utf8One(c) + tail;
    LowJoins(c);
    LowJoins(c / 64);
    LowJoins(c / 64 / 64);
    if c < 0x80 {
    } else if c < 0x800 {
      assert bs[0] == 0xC0 + c / 64 && bs[1] == Low(c);
    } else if c < 0x1_0000 {
      assert bs[0] == 0xE0 + c / 64 / 64 && bs[1] == Low(c / 64) && bs[2] == Low(c);
    } else {
      assert bs[0] == 0xF0 + c / 64 / 64 / 64 && bs[1] == Low(c / 64 / 64) && bs[2] == Low(c / 64) && bs[3] == Low(c);
    }
  }

  /** The decoder accepts exactly the encodings, and returns what was encoded. */
  lemma {:induction false} Utf8Exact(bs: Bytes, s: seq<Scalar>)
    ensures DecodeUtf8(bs) == Some(s) <==> bs == Utf8(s)
    decreases |bs|, |s|
  {
    hide Utf8One, FirstScalar;
    if bs == Utf8(s) && s != [] {
      EncodedIsFirstScalar(s[0], Utf8(s[1..]));
      assert bs[|Utf8One(s[0])|..] == Utf8(s[1..]);
      Utf8Exact(Utf8(s[1..]), s[1..]);
      assert [s[0]] + s[1..] == s;
    }
    if DecodeUtf8(bs) == Some(s) && bs != [] {
      FirstScalarIsEncoded(bs);
      var n := |Utf8One(FirstScalar(bs).value)|;
      Utf8Exact(bs[n..], s[1..]);
      assert bs == bs[..n] + bs[n..];
    }
  }

  function Utf16One(c: Scalar): (bs: Bytes)
    ensures |bs| == 2 || |bs| == 4
  {
    if c < 0x1_0000 then ToLe(c, 2)
    else ToLe(0xD800 + (c - 0x1_0000) / 1024, 2) + ToLe(0xDC00 + (c - 0x1_0000) % 1024, 2)
  }

  function Utf16(s: seq<Scalar>): Bytes {
    if s == [] then [] else Utf16One(s[0]) + Utf16(s[1..])
  }

  lemma Utf16OneIsPrefixFree(c: Scalar, d: Scalar, x: Bytes, y: Bytes)
    requires Utf16One(c) + x == Utf16One(d) + y
    ensures c == d && x == y
  {
    hide ToLe, FromLe;
    PowValues();
    var bs := Utf16One(c) + x;
    var u := if c < 0x1_0000 then c else 0xD800 + (c - 0x1_0000) / 1024;
    var v := if d < 0x1_0000 then d else 0xD800 + (d - 0x1_0000) / 1024;
    assert bs[..2] == ToLe(u, 2) && (Utf16One(d) + y)[..2] == ToLe(v, 2);
    LeInjective(u, v, 2);
    if c >= 0x1_0000 {
      var u', v' := 0xDC00 + (c - 0x1_0000) % 1024, 0xDC00 + (d - 0x1_0000) % 1024;
      assert bs[2..4] == ToLe(u', 2) && (Utf16One(d) + y)[2..4] == ToLe(v', 2);
      LeInjective(u', v', 2);
    }
    assert bs[|Utf16One(c)|..] == x && (Utf16One(d) + y)[|Utf16One(d)|..] == y;
  }

  /** Different texts have different UTF-16LE forms. */
  lemma {:induction false} Utf16Injective(s: seq<Scalar>, t: seq<Scalar>)
    requires Utf16(s) == Utf16(t)
    ensures s == t
  {
    hide Utf16One;
    if s != [] && t != [] {
      Utf16OneIsPrefixFree(s[0], t[0], Utf16(s[1..]), Utf16(t[1..]));
      Utf16Injective(s[1..], t[1..]);
      assert s == [s[0]] + s[1..] && t == [t[0]] + t[1..];
    }
  }
}
