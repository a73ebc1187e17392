/** Percent-encoding as done by Go's `net/url`: `QueryUnescape` (used on
    collocation links) and `PathEscape` (used to name cache files). */
module Escaping {
  import opened Bytes
  import opened Wrappers

  const Percent: byte := 0x25
  const Plus: byte := 0x2B
  const Space: byte := 0x20

  predicate IsHex(b: byte) {
    (0x30 <= b <= 0x39) || (0x61 <= b <= 0x66) || (0x41 <= b <= 0x46)
  }

  function Unhex(b: byte): (v: nat)
    requires IsHex(b)
    ensures v < 16
  {
    if b <= 0x39 then (b - 0x30) as nat
    else if b >= 0x61 then (b - 0x61) as nat + 10
    else (b - 0x41) as nat + 10
  }

  /** The upper-case hexadecimal digit Go writes for a nibble. */
  function UpperHex(v: nat): (b: byte)
    requires v < 16
    ensures IsHex(b) && Unhex(b) == v
  {
    if v < 10 then (0x30 + v) as byte else (0x41 + v - 10) as byte
  }

  /** The byte an escape `%XY` stands for. */
  function HexByte(hi: byte, lo: byte): (d: byte)
    requires IsHex(hi) && IsHex(lo)
    ensures d as int == Unhex(hi) * 16 + Unhex(lo)
  {
    (Unhex(hi) * 16 + Unhex(lo)) as byte
  }

  /** Go's `unescape`: every `%XY` with two hex digits becomes the byte XY;
      a `%` not followed by two hex digits is an error (None); `+` becomes
      a space when decoding a query component and stays `+` otherwise. */
  function Unescape(s: Str, plusIsSpace: bool): (r: Option<Str>)
    ensures r.Some? ==> |r.value| <= |s|
  {
    if s == [] then Some([])
    else if s[0] == Percent then
      if |s| < 3 || !IsHex(s[1]) || !IsHex(s[2]) then None
      else match Unescape(s[3..], plusIsSpace)
        case None => None
        case Some(t) => Some([HexByte(s[1], s[2])] + t)
    else
      var c := if s[0] == Plus && plusIsSpace then Space else s[0];
      match Unescape(s[1..], plusIsSpace)
      case None => None
      case Some(t) => Some([c] + t)
  }

  /** `url.QueryUnescape`. */
  function QueryUnescape(s: Str): Option<Str> {
    Unescape(s, true)
  }

  /** In a query component a `+` stands for a space; in a path it stays. */
  lemma UnescapePlus(plusIsSpace: bool)
    ensures Unescape([Plus], plusIsSpace) == Some([if plusIsSpace then Space else Plus])
  {
    assert [Plus][1..] == [];
    assert Unescape([], plusIsSpace) == Some([]);
    assert [if plusIsSpace then Space else Plus] + [] == [if plusIsSpace then Space else Plus];
  }

  /** `%XY` with two hexadecimal digits, of either case, stands for the
      byte XY. */
  lemma UnescapeHexPair(hi: byte, lo: byte, plusIsSpace: bool)
    requires IsHex(hi) && IsHex(lo)
    ensures Unescape([Percent, hi, lo], plusIsSpace) == Some([HexByte(hi, lo)])
  {
    assert [Percent, hi, lo][3..] == [];
    assert Unescape([], plusIsSpace) == Some([]);
    assert [HexByte(hi, lo)] + [] == [HexByte(hi, lo)];
  }

  /** A string that contains nothing to decode. */
  predicate IsPlain(s: Str) {
    Percent !in s && Plus !in s
  }

  /** Text without `%` and `+` decodes to itself. */
  lemma {:induction false} UnescapePlain(s: Str, plusIsSpace: bool)
    requires IsPlain(s)
    ensures Unescape(s, plusIsSpace) == Some(s)
  {
    if s != [] {
      assert IsPlain(s[1..]) by { assert forall b | b in s[1..] :: b in s; }
      UnescapePlain(s[1..], plusIsSpace);
      assert s[0] != Percent && s[0] != Plus;
      assert s == [s[0]] + s[1..];
    }
  }

  /** Decoding distributes over concatenation of two well-formed pieces:
      an escape that is complete in `a` cannot borrow bytes of `b`. */
  lemma {:induction false} UnescapeAppend(a: Str, b: Str, plusIsSpace: bool)
    requires Unescape(a, plusIsSpace).Some? && Unescape(b, plusIsSpace).Some?
    ensures Unescape(a + b, plusIsSpace)
         == Some(Unescape(a, plusIsSpace).value + Unescape(b, plusIsSpace).value)
  {
    var ab := a + b;
    var v := Unescape(b, plusIsSpace).value;
    if a == [] {
      assert ab == b;
      assert [] + v == v;
    } else if a[0] == Percent {
      assert |a| >= 3 && IsHex(a[1]) && IsHex(a[2]);
      assert ab[0] == Percent && ab[1] == a[1] && ab[2] == a[2];
      assert ab[3..] == a[3..] + b;
      UnescapeAppend(a[3..], b, plusIsSpace);
      var u := Unescape(a[3..], plusIsSpace).value;
      var d := HexByte(a[1], a[2]);
      assert Unescape(ab, plusIsSpace) == Some([d] + (u + v));
      assert Unescape(a, plusIsSpace) == Some([d] + u);
      ConcatAssoc([d], u, v);
    } else {
      assert ab[0] == a[0] && ab[1..] == a[1..] + b;
      UnescapeAppend(a[1..], b, plusIsSpace);
      var u := Unescape(a[1..], plusIsSpace).value;
      var c := if a[0] == Plus && plusIsSpace then Space else a[0];
      assert Unescape(ab, plusIsSpace) == Some([c] + (u + v));
      assert Unescape(a, plusIsSpace) == Some([c] + u);
      ConcatAssoc([c], u, v);
    }
  }

  /** A `%` that is not followed by two hex digits makes the whole string
      malformed, wherever it stands. */
  lemma {:induction false} BadEscape(s: Str, i: nat, plusIsSpace: bool)
    requires i < |s| && s[i] == Percent
    requires i + 2 >= |s| || !IsHex(s[i + 1]) || !IsHex(s[i + 2])
    ensures Unescape(s, plusIsSpace) == None
  {
    if i > 0 {
      if s[0] == Percent {
        if 3 <= |s| && IsHex(s[1]) && IsHex(s[2]) {
          BadEscape(s[3..], i - 3, plusIsSpace);
        }
      } else {
        BadEscape(s[1..], i - 1, plusIsSpace);
      }
    }
  }

  /** Go's `shouldEscape(c, encodePathSegment)`: everything but letters,
      digits, `-_.~` and the reserved characters `$&+:=@` that a path
      segment may carry literally. */
  predicate EscapedInPathSegment(c: byte) {
    !((0x61 <= c <= 0x7A) || (0x41 <= c <= 0x5A) || (0x30 <= c <= 0x39)
      || c == 0x2D || c == 0x5F || c == 0x2E || c == 0x7E
      || c == 0x24 || c == 0x26 || c == Plus || c == 0x3A || c == 0x3D || c == 0x40)
  }

  /** `url.PathEscape`. */
  function PathEscape(s: Str): (r: Str)
    ensures |r| >= |s|
  {
    if s == [] then []
    else
      var c := s[0];
      (if EscapedInPathSegment(c) then [Percent, UpperHex(c as nat / 16), UpperHex(c as nat % 16)] else [c])
      + PathEscape(s[1..])
  }

  /** Path-unescaping undoes PathEscape. */
  lemma {:induction false} PathEscapeRoundTrip(s: Str)
    ensures Unescape(PathEscape(s), false) == Some(s)
  {
    if s != [] {
      PathEscapeRoundTrip(s[1..]);
      var c := s[0];
      var e := PathEscape(s);
      if EscapedInPathSegment(c) {
        assert e[3..] == PathEscape(s[1..]);
        assert HexByte(e[1], e[2]) == c;
      } else {
        assert c != Percent;
        assert e[1..] == PathEscape(s[1..]);
      }
      assert s == [c] + s[1..];
    }
  }

  /** Two different addresses never share a cache file name. */
  lemma PathEscapeInjective(a: Str, b: Str)
    requires PathEscape(a) == PathEscape(b)
    ensures a == b
  {
    PathEscapeRoundTrip(a);
    PathEscapeRoundTrip(b);
  }
}
