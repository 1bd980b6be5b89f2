/**
 Byte texts. A text that the program handles as bytes is the sequence of its bytes, each written as
 the character with that code, so that ASCII literals read as they do in the source.
 */
module Utf8 {
  predicate IsBytes(s: string) {
    forall i :: 0 <= i < |s| ==> s[i] as int < 256
  }

  predicate In(c: char, lo: int, hi: int) {
    lo <= c as int <= hi
  }

  predicate Continues(s: string, from: nat, to: nat) {
    to <= |s| && forall i :: from <= i < to ==> In(s[i], 0x80, 0xBF)
  }

  /** Length of the well-formed sequence the text starts with, zero if there is none. */
  function FirstLength(s: string): (n: nat)
    ensures n <= |s| && n <= 4
  {
    if s == "" then 0
    else if In(s[0], 0, 0x7F) then 1
    else if In(s[0], 0xC2, 0xDF) then (if Continues(s, 1, 2) then 2 else 0)
    else if In(s[0], 0xE0, 0xEF) then
      if Continues(s, 1, 3)
         && (s[0] as int == 0xE0 ==> In(s[1], 0xA0, 0xBF)) && (s[0] as int == 0xED ==> In(s[1], 0x80, 0x9F))
      then 3 else 0
    else if In(s[0], 0xF0, 0xF4) then
      if Continues(s, 1, 4)
         && (s[0] as int == 0xF0 ==> In(s[1], 0x90, 0xBF)) && (s[0] as int == 0xF4 ==> In(s[1], 0x80, 0x8F))
      then 4 else 0
    else 0
  }

  /** Is this the UTF-8 form of some text? */
  predicate Valid(s: string) {
    s == "" || (FirstLength(s) > 0 && Valid(s[FirstLength(s)..]))
  }

  /** `str::is_char_boundary` of a valid text. */
  predicate Boundary(s: string, i: nat) {
    i >= |s| || !In(s[i], 0x80, 0xBF)
  }

  lemma {:induction false} ValidConcat(a: string, b: string)
    requires Valid(a) && Valid(b)
    ensures Valid(a + b)
  {
    if a == "" {
      assert a + b == b;
    } else {
      var n := FirstLength(a);
      FirstLengthOfPrefix(a, b);
      assert (a + b)[n..] == a[n..] + b;
      ValidConcat(a[n..], b);
    }
  }

  lemma FirstLengthOfPrefix(a: string, b: string)
    requires FirstLength(a) > 0
    ensures FirstLength(a + b) == FirstLength(a)
  {
    var n := FirstLength(a);
    assert forall i :: 0 <= i < n ==> (a + b)[i] == a[i];
  }

  lemma {:induction false} AsciiIsValid(s: string)
    requires forall i :: 0 <= i < |s| ==> In(s[i], 0, 0x7F)
    ensures Valid(s)
  {
    if s != "" { AsciiIsValid(s[1..]); }
  }

  lemma {:induction false} ValidIsBytes(s: string)
    requires Valid(s)
    ensures IsBytes(s)
  {
    if s != "" {
      var n := FirstLength(s);
      ValidIsBytes(s[n..]);
      assert forall i :: n <= i < |s| ==> s[i] == s[n..][i - n];
    }
  }

  // ---------------------------------------------------------------------------------------------
  // Section 3 of RFC 3629: a text is a sequence of code points, none of them a surrogate.

  predicate Scalar(p: nat) {
    p < 0x11_0000 && !(0xD800 <= p <= 0xDFFF)
  }

  function EncodePoint(p: nat): (s: string)
    requires Scalar(p)
    ensures 0 < |s| <= 4
  {
    if p < 0x80 then [p as char]
    else if p < 0x800 then [(0xC0 + p / 0x40) as char, (0x80 + p % 0x40) as char]
    else if p < 0x1_0000 then
      [(0xE0 + p / 0x1000) as char, (0x80 + p / 0x40 % 0x40) as char, (0x80 + p % 0x40) as char]
    else
      [(0xF0 + p / 0x4_0000) as char, (0x80 + p / 0x1000 % 0x40) as char,
       (0x80 + p / 0x40 % 0x40) as char, (0x80 + p % 0x40) as char]
  }

  function EncodePoints(points: seq<nat>): string
    requires forall i :: 0 <= i < |points| ==> Scalar(points[i])
  {
    if points == [] then "" else EncodePoint(points[0]) + EncodePoints(points[1..])
  }

  lemma ThreeBytes(p: nat)
    requires 0x800 <= p < 0x1_0000 && Scalar(p)
    ensures var (a, b) := (p / 0x1000, p / 0x40 % 0x40);
      a < 16 && (a == 0 ==> b >= 0x20) && (a == 13 ==> b < 0x20)
  {
  }

  lemma FourBytes(p: nat)
    requires 0x1_0000 <= p && Scalar(p)
    ensures var (a, b) := (p / 0x4_0000, p / 0x1000 % 0x40);
      a <= 4 && (a == 0 ==> b >= 0x10) && (a == 4 ==> b < 0x10)
  {
  }

  lemma EncodedLength(p: nat, rest: string)
    requires Scalar(p)
    ensures FirstLength(EncodePoint(p) + rest) == |EncodePoint(p)|
  {
    if 0x800 <= p < 0x1_0000 { ThreeBytes(p); }
    if 0x1_0000 <= p { FourBytes(p); }
  }

  lemma LastSix(a: nat, b: nat)
    requires b < 0x40
    ensures (a * 0x40 + b) / 0x40 == a && (a * 0x40 + b) % 0x40 == b
  {
  }

  lemma PointOfTwo(s: string) returns (p: nat)
    requires FirstLength(s) == 2
    ensures Scalar(p) && EncodePoint(p) == s[..2]
  {
    var a, b := s[0] as int - 0xC0, s[1] as int - 0x80;
    p := a * 0x40 + b;
    LastSix(a, b);
  }

  lemma PointOfThree(s: string) returns (p: nat)
    requires FirstLength(s) == 3
    ensures Scalar(p) && EncodePoint(p) == s[..3]
  {
    var a, b, c := s[0] as int - 0xE0, s[1] as int - 0x80, s[2] as int - 0x80;
    var ab := a * 0x40 + b;
    p := ab * 0x40 + c;
    LastSix(a, b);
    LastSix(ab, c);
    assert p / 0x1000 == p / 0x40 / 0x40;
  }

  lemma PointOfFour(s: string) returns (p: nat)
    requires FirstLength(s) == 4
    ensures Scalar(p) && EncodePoint(p) == s[..4]
  {
    var a, b, c, d := s[0] as int - 0xF0, s[1] as int - 0x80, s[2] as int - 0x80, s[3] as int - 0x80;
    var ab := a * 0x40 + b;
    var abc := ab * 0x40 + c;
    p := abc * 0x40 + d;
    LastSix(a, b);
    LastSix(ab, c);
    LastSix(abc, d);
    assert p / 0x1000 == p / 0x40 / 0x40 && p / 0x4_0000 == p / 0x40 / 0x40 / 0x40;
  }

  /** The code point a text starts with. */
  lemma FirstPoint(s: string) returns (p: nat)
    requires FirstLength(s) > 0
    ensures Scalar(p) && EncodePoint(p) == s[..FirstLength(s)]
  {
    if FirstLength(s) == 1 {
      p := s[0] as int;
    } else if FirstLength(s) == 2 {
      p := PointOfTwo(s);
    } else if FirstLength(s) == 3 {
      p := PointOfThree(s);
    } else {
      p := PointOfFour(s);
    }
  }

  lemma {:induction false} EncodedIsValid(points: seq<nat>)
    requires forall i :: 0 <= i < |points| ==> Scalar(points[i])
    ensures Valid(EncodePoints(points))
  {
    if points != [] {
      var rest := EncodePoints(points[1..]);
      EncodedIsValid(points[1..]);
      EncodedLength(points[0], rest);
      assert (EncodePoint(points[0]) + rest)[|EncodePoint(points[0])|..] == rest;
    }
  }

  lemma {:induction false} ValidDecodes(s: string) returns (points: seq<nat>)
    requires Valid(s)
    ensures (forall i :: 0 <= i < |points| ==> Scalar(points[i])) && EncodePoints(points) == s
  {
    if s == "" {
      points := [];
    } else {
      var p := FirstPoint(s);
      var n := FirstLength(s);
      var rest := ValidDecodes(s[n..]);
      points := [p] + rest;
      assert points[1..] == rest && s == s[..n] + s[n..];
    }
  }

  predicate Encodes(s: string, points: seq<nat>) {
    (forall i :: 0 <= i < |points| ==> Scalar(points[i])) && EncodePoints(points) == s
  }

  /** The valid byte texts are the encodings of texts. */
  lemma ValidExactly(s: string)
    ensures Valid(s) <==> exists points :: Encodes(s, points)
  {
    if Valid(s) {
      var points := ValidDecodes(s);
      assert Encodes(s, points);
    }
    forall points | Encodes(s, points) ensures Valid(s) {
      EncodedIsValid(points);
    }
  }
}
