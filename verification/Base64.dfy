/** The standard base64 alphabet with canonical padding: section 4 of RFC 4648. */
module Base64 {
  import opened Wrappers
  import opened Utf8

  function Symbol(v: nat): char
    requires v < 64
  {
    if v < 26 then (v + 'A' as int) as char
    else if v < 52 then (v - 26 + 'a' as int) as char
    else if v < 62 then (v - 52 + '0' as int) as char
    else if v == 62 then '+'
    else '/'
  }

  function SymbolValue(c: char): (v: Option<nat>)
    ensures v.Some? ==> v.value < 64
  {
    if 'A' <= c <= 'Z' then Some(c as int - 'A' as int)
    else if 'a' <= c <= 'z' then Some(c as int - 'a' as int + 26)
    else if '0' <= c <= '9' then Some(c as int - '0' as int + 52)
    else if c == '+' then Some(62)
    else if c == '/' then Some(63)
    else None
  }

  lemma SymbolInverse(v: nat, c: char)
    requires v < 64
    ensures SymbolValue(c) == Some(v) <==> c == Symbol(v)
    ensures Symbol(v) != '=' && Symbol(v) != '.'
  {
  }

  function EncodeOne(a: nat): string
    requires a < 256
  {
    [Symbol(a / 4), Symbol(a % 4 * 16), '=', '=']
  }

  function EncodeTwo(a: nat, b: nat): string
    requires a < 256 && b < 256
  {
    [Symbol(a / 4), Symbol(a % 4 * 16 + b / 16), Symbol(b % 16 * 4), '=']
  }

  function EncodeThree(a: nat, b: nat, c: nat): string
    requires a < 256 && b < 256 && c < 256
  {
    [Symbol(a / 4), Symbol(a % 4 * 16 + b / 16), Symbol(b % 16 * 4 + c / 64), Symbol(c % 64)]
  }

  function Encode(s: string): string
    requires IsBytes(s)
  {
    if s == "" then ""
    else if |s| == 1 then EncodeOne(s[0] as int)
    else if |s| == 2 then EncodeTwo(s[0] as int, s[1] as int)
    else EncodeThree(s[0] as int, s[1] as int, s[2] as int) + Encode(s[3..])
  }

  /** Four symbols that carry three bytes. */
  function DecodeFull(t: string): (s: Option<string>)
    requires |t| == 4
    ensures s.Some? ==> |s.value| == 3 && IsBytes(s.value)
  {
    var v0, v1, v2, v3 := SymbolValue(t[0]), SymbolValue(t[1]), SymbolValue(t[2]), SymbolValue(t[3]);
    if v0.None? || v1.None? || v2.None? || v3.None? then None
    else Some([(v0.value * 4 + v1.value / 16) as char,
               (v1.value % 16 * 16 + v2.value / 4) as char,
               (v2.value % 4 * 64 + v3.value) as char])
  }

  /** The last four symbols; padding must be canonical, and the bits it leaves over zero. */
  function DecodeLast(t: string): (s: Option<string>)
    requires |t| == 4
    ensures s.Some? ==> IsBytes(s.value)
  {
    if t[3] != '=' then DecodeFull(t)
    else if t[2] != '=' then
      var v0, v1, v2 := SymbolValue(t[0]), SymbolValue(t[1]), SymbolValue(t[2]);
      if v0.None? || v1.None? || v2.None? || v2.value % 4 != 0 then None
      else Some([(v0.value * 4 + v1.value / 16) as char, (v1.value % 16 * 16 + v2.value / 4) as char])
    else
      var v0, v1 := SymbolValue(t[0]), SymbolValue(t[1]);
      if v0.None? || v1.None? || v1.value % 16 != 0 then None
      else Some([(v0.value * 4 + v1.value / 16) as char])
  }

  function Decode(t: string): (s: Option<string>)
    ensures s.Some? ==> IsBytes(s.value)
  {
    if t == "" then Some("")
    else if |t| < 4 then None
    else if |t| == 4 then DecodeLast(t)
    else
      match DecodeFull(t[..4])
      case None => None
      case Some(block) =>
        match Decode(t[4..])
        case None => None
        case Some(rest) => Some(block + rest)
  }

  lemma Bytes(a: nat, b: nat, c: nat)
    requires a < 256 && b < 256 && c < 256
    ensures var v0, v1, v2, v3 := a / 4, a % 4 * 16 + b / 16, b % 16 * 4 + c / 64, c % 64;
      && v0 < 64 && v1 < 64 && v2 < 64
      && v0 * 4 + v1 / 16 == a && v1 % 16 * 16 + v2 / 4 == b && v2 % 4 * 64 + v3 == c
  {
  }

  lemma FullBlock(a: nat, b: nat, c: nat)
    requires a < 256 && b < 256 && c < 256
    ensures DecodeFull(EncodeThree(a, b, c)) == Some([a as char, b as char, c as char])
    ensures EncodeThree(a, b, c)[3] != '='
  {
    var v0, v1, v2, v3 := a / 4, a % 4 * 16 + b / 16, b % 16 * 4 + c / 64, c % 64;
    SymbolInverse(v0, Symbol(v0));
    SymbolInverse(v1, Symbol(v1));
    SymbolInverse(v2, Symbol(v2));
    SymbolInverse(v3, Symbol(v3));
    Bytes(a, b, c);
  }

  lemma OneByte(a: nat)
    requires a < 256
    ensures DecodeLast(EncodeOne(a)) == Some([a as char])
  {
    var v0, v1 := a / 4, a % 4 * 16;
    SymbolInverse(v0, Symbol(v0));
    SymbolInverse(v1, Symbol(v1));
    assert v1 % 16 == 0 && v0 * 4 + v1 / 16 == a;
  }

  lemma TwoBytes(a: nat, b: nat)
    requires a < 256 && b < 256
    ensures DecodeLast(EncodeTwo(a, b)) == Some([a as char, b as char])
  {
    var v0, v1, v2 := a / 4, a % 4 * 16 + b / 16, b % 16 * 4;
    SymbolInverse(v0, Symbol(v0));
    SymbolInverse(v1, Symbol(v1));
    SymbolInverse(v2, Symbol(v2));
    Bytes(a, b, 0);
    assert v2 % 4 == 0;
  }

  lemma BlockThenRest(block: string, rest: string)
    requires |block| == 4 && block[3] != '=' && DecodeFull(block).Some?
    requires Decode(rest).Some?
    ensures Decode(block + rest) == Some(DecodeFull(block).value + Decode(rest).value)
  {
    var t := block + rest;
    if rest == "" {
      assert t == block;
      assert DecodeFull(block).value + "" == DecodeFull(block).value;
    } else {
      assert t[..4] == block && t[4..] == rest;
    }
  }

  /** The first block of a text of three bytes or more. */
  lemma FirstBlock(s: string) returns (block: string)
    requires IsBytes(s) && |s| > 2
    ensures |block| == 4 && block[3] != '=' && DecodeFull(block) == Some(s[..3])
    ensures Encode(s) == block + Encode(s[3..])
  {
    var a, b, c := s[0] as int, s[1] as int, s[2] as int;
    FullBlock(a, b, c);
    assert s[..3] == [a as char, b as char, c as char];
    block := EncodeThree(a, b, c);
  }

  lemma {:induction false} DecodeEncode(s: string)
    requires IsBytes(s)
    ensures Decode(Encode(s)) == Some(s)
  {
    if |s| > 2 {
      var block := FirstBlock(s);
      DecodeEncode(s[3..]);
      BlockThenRest(block, Encode(s[3..]));
      assert s == s[..3] + s[3..];
    } else if |s| == 2 {
      TwoBytes(s[0] as int, s[1] as int);
      assert s == [s[0], s[1]];
    } else if |s| == 1 {
      OneByte(s[0] as int);
      assert s == [s[0]];
    }
  }

  lemma Bits(v0: nat, v1: nat, v2: nat, v3: nat)
    requires v0 < 64 && v1 < 64 && v2 < 64 && v3 < 64
    ensures var a, b, c := v0 * 4 + v1 / 16, v1 % 16 * 16 + v2 / 4, v2 % 4 * 64 + v3;
      && a < 256 && b < 256 && c < 256
      && a / 4 == v0 && a % 4 * 16 + b / 16 == v1 && b % 16 * 4 + c / 64 == v2 && c % 64 == v3
  {
  }

  lemma FullIsEncoded(t: string)
    requires |t| == 4 && DecodeFull(t).Some?
    ensures var s := DecodeFull(t).value; t == EncodeThree(s[0] as int, s[1] as int, s[2] as int)
  {
    var v0, v1 := SymbolValue(t[0]).value, SymbolValue(t[1]).value;
    var v2, v3 := SymbolValue(t[2]).value, SymbolValue(t[3]).value;
    Bits(v0, v1, v2, v3);
    SymbolInverse(v0, t[0]);
    SymbolInverse(v1, t[1]);
    SymbolInverse(v2, t[2]);
    SymbolInverse(v3, t[3]);
    var a, b, c := v0 * 4 + v1 / 16, v1 % 16 * 16 + v2 / 4, v2 % 4 * 64 + v3;
    assert DecodeFull(t) == Some([a as char, b as char, c as char]);
    assert t == [Symbol(v0), Symbol(v1), Symbol(v2), Symbol(v3)];
    assert EncodeThree(a, b, c) == [Symbol(v0), Symbol(v1), Symbol(v2), Symbol(v3)];
  }

  lemma PaddedIsEncoded(t: string)
    requires |t| == 4 && t[3] == '=' && DecodeLast(t).Some?
    ensures t == Encode(DecodeLast(t).value)
  {
    var v0, v1 := SymbolValue(t[0]).value, SymbolValue(t[1]).value;
    SymbolInverse(v0, t[0]);
    SymbolInverse(v1, t[1]);
    if t[2] != '=' {
      var v2 := SymbolValue(t[2]).value;
      SymbolInverse(v2, t[2]);
      Bits(v0, v1, v2, 0);
      assert EncodeTwo(v0 * 4 + v1 / 16, v1 % 16 * 16 + v2 / 4) == t;
    } else {
      Bits(v0, v1, 0, 0);
      assert EncodeOne(v0 * 4 + v1 / 16) == t;
    }
  }

  lemma LastIsEncoded(t: string)
    requires |t| == 4 && DecodeLast(t).Some?
    ensures t == Encode(DecodeLast(t).value)
  {
    if t[3] != '=' {
      FullIsEncoded(t);
      var s := DecodeLast(t).value;
      assert s[3..] == "" && Encode(s) == EncodeThree(s[0] as int, s[1] as int, s[2] as int) + "";
    } else {
      PaddedIsEncoded(t);
    }
  }

  lemma {:induction false} DecodedIsEncoded(t: string)
    requires Decode(t).Some?
    ensures Encode(Decode(t).value) == t
  {
    if |t| == 4 {
      LastIsEncoded(t);
    } else if |t| > 4 {
      FullIsEncoded(t[..4]);
      DecodedIsEncoded(t[4..]);
      var s := Decode(t).value;
      assert s[3..] == Decode(t[4..]).value;
      assert t == t[..4] + t[4..];
    }
  }

  /** The decoder accepts exactly what the encoder writes, and reads it back. */
  lemma DecodeExact(t: string, s: string)
    requires IsBytes(s)
    ensures Decode(t) == Some(s) <==> t == Encode(s)
  {
    DecodeEncode(s);
    if Decode(t) == Some(s) { DecodedIsEncoded(t); }
  }

  /** Encoded text holds no dot. */
  lemma {:induction false} NoDots(s: string)
    requires IsBytes(s)
    ensures '.' !in Encode(s)
  {
    if |s| > 2 { NoDots(s[3..]); }
  }
}
