/** Query strings: the links the changelist builds, and how a request parses one. Texts are bytes. */
module QueryString {
  import opened Wrappers
  import opened Text
  import Utf8

  predicate IsAlphanumeric(c: char) {
    '0' <= c <= '9' || 'A' <= c <= 'Z' || 'a' <= c <= 'z'
  }

  function HexDigit(v: nat): char
    requires v < 16
  {
    if v < 10 then (v + '0' as int) as char else (v - 10 + 'A' as int) as char
  }

  function HexValue(c: char): (v: Option<nat>)
    ensures v.Some? ==> v.value < 16
  {
    if '0' <= c <= '9' then Some(c as int - '0' as int)
    else if 'A' <= c <= 'F' then Some(c as int - 'A' as int + 10)
    else if 'a' <= c <= 'f' then Some(c as int - 'a' as int + 10)
    else None
  }

  /** `utf8_percent_encode(s, NON_ALPHANUMERIC)`. */
  function PercentEncode(s: string): string
    requires Utf8.IsBytes(s)
  {
    if s == "" then ""
    else
      var b := s[0] as int;
      (if IsAlphanumeric(s[0]) then [s[0]] else ['%', HexDigit(b / 16), HexDigit(b % 16)]) + PercentEncode(s[1..])
  }

  /** `percent_decode_str(s)`: a percent sign without two hex digits stands for itself. */
  function PercentDecode(s: string): string {
    if s == "" then ""
    else if s[0] == '%' && |s| >= 3 && HexValue(s[1]).Some? && HexValue(s[2]).Some? then
      [(HexValue(s[1]).value * 16 + HexValue(s[2]).value) as char] + PercentDecode(s[3..])
    else [s[0]] + PercentDecode(s[1..])
  }

  /** `.decode_utf8()`, falling back on the raw text. */
  function DecodeText(s: string): string {
    if Utf8.Valid(PercentDecode(s)) then PercentDecode(s) else s
  }

  type Pair = (string, Option<string>)

  /** `key=value` for each pair that has a value. */
  function Parts(pairs: seq<Pair>): seq<string>
    requires forall i :: 0 <= i < |pairs| && pairs[i].1.Some? ==> Utf8.IsBytes(pairs[i].1.value)
  {
    if pairs == [] then []
    else
      var (k, v) := pairs[0];
      (if v.Some? then [k + "=" + PercentEncode(v.value)] else []) + Parts(pairs[1..])
  }

  function BuildQueryString(pairs: seq<Pair>): string
    requires forall i :: 0 <= i < |pairs| && pairs[i].1.Some? ==> Utf8.IsBytes(pairs[i].1.value)
  {
    var parts := Parts(pairs);
    if parts == [] then "" else "?" + Join(parts, "&")
  }

  type Params = map<string, string>

  /** One `key=value` of a query string, over the parameters read before it. */
  function AddPart(params: Params, part: string): Params {
    if part == "" then params
    else
      var (keyRaw, valueRaw) := match SplitOnce(part, '=') case None => (part, "") case Some(kv) => kv;
      var key := DecodeText(keyRaw);
      if key == "" then params else params[key := DecodeText(valueRaw)]
  }

  function AddParts(params: Params, parts: seq<string>): Params
    decreases |parts|
  {
    if parts == [] then params else AddParts(AddPart(params, parts[0]), parts[1..])
  }

  /** `Request::parse_query`. */
  function ParseQuery(query: string): Params {
    AddParts(map[], Split(query, '&'))
  }

  /** What a reference says before its fragment: section 3.5 of RFC 3986. */
  function BeforeFragment(s: string): string {
    if s == "" || s[0] == '#' then "" else [s[0]] + BeforeFragment(s[1..])
  }

  /** The parameters of a request to a path that a link was appended to. */
  function ParseLink(link: string): Params {
    ParseQuery(BeforeFragment(if link == "" then "" else link[1..]))
  }

  /**
   The parameters of a request made by following a link that stands alone, on a page with parameters
   `current`: by section 5.2.2 of RFC 3986 the empty reference keeps the page's query.
   */
  function Follow(current: Params, link: string): Params {
    if link == "" then current else ParseLink(link)
  }

  // ---------------------------------------------------------------------------------------------

  /** Digits and letters of ASCII stay, and any other byte becomes a percent sign and two hex digits. */
  lemma EncodedBytes(c: char, rest: string)
    requires Utf8.IsBytes([c] + rest)
    ensures var plain := '0' <= c <= '9' || 'A' <= c <= 'Z' || 'a' <= c <= 'z';
      var code := PercentEncode([c] + rest);
      if plain then code == [c] + PercentEncode(rest)
      else
        && |code| >= 3 && code[0] == '%' && code[3..] == PercentEncode(rest)
        && ('0' <= code[1] <= '9' || 'A' <= code[1] <= 'F') && ('0' <= code[2] <= '9' || 'A' <= code[2] <= 'F')
  {
    assert ([c] + rest)[1..] == rest;
  }

  lemma HexInverse(b: nat)
    requires b < 256
    ensures HexValue(HexDigit(b / 16)) == Some(b / 16) && HexValue(HexDigit(b % 16)) == Some(b % 16)
  {
  }

  lemma {:induction false} DecodeEncode(s: string)
    requires Utf8.IsBytes(s)
    ensures PercentDecode(PercentEncode(s)) == s
  {
    if s != "" {
      DecodeEncode(s[1..]);
      HexInverse(s[0] as int);
      var rest := PercentEncode(s[1..]);
      var t := PercentEncode(s);
      if IsAlphanumeric(s[0]) {
        assert t == [s[0]] + rest && t[1..] == rest;
      } else {
        assert t[3..] == rest;
      }
      assert s == [s[0]] + s[1..];
    }
  }

  predicate IsEncodedChar(c: char) {
    IsAlphanumeric(c) || c == '%'
  }

  /** An encoded value holds no character that has a meaning in a query string. */
  lemma {:induction false} EncodedIsInert(s: string)
    requires Utf8.IsBytes(s)
    ensures forall i :: 0 <= i < |PercentEncode(s)| ==> IsEncodedChar(PercentEncode(s)[i])
  {
    if s != "" { EncodedIsInert(s[1..]); }
  }

  /** A key that a link can carry: it is not cut short, and does not decode to something else. */
  predicate IsKey(k: string) {
    k != "" && '&' !in k && '=' !in k && '#' !in k && DecodeText(k) == k
  }

  predicate IsNameChar(c: char) {
    IsAlphanumeric(c) || c == '_' || c as int >= 0x80
  }

  /** A field name: an identifier, which may hold characters beyond ASCII. */
  predicate IsName(k: string) {
    k != "" && forall i :: 0 <= i < |k| ==> IsNameChar(k[i])
  }

  lemma NamesAreKeys(k: string)
    requires IsName(k)
    ensures IsKey(k)
  {
    NameDecodes(k);
  }

  lemma {:induction false} NameDecodes(k: string)
    requires '%' !in k
    ensures PercentDecode(k) == k
  {
    if k != "" { NameDecodes(k[1..]); }
  }

  /** Every pair that has a value has a key that can be carried, and a text. */
  predicate WellFormed(pairs: seq<Pair>) {
    forall i :: 0 <= i < |pairs| && pairs[i].1.Some? ==> IsKey(pairs[i].0) && Utf8.Valid(pairs[i].1.value)
  }

  lemma WellFormedIsBytes(pairs: seq<Pair>)
    requires WellFormed(pairs)
    ensures forall i :: 0 <= i < |pairs| && pairs[i].1.Some? ==> Utf8.IsBytes(pairs[i].1.value)
  {
    forall i | 0 <= i < |pairs| && pairs[i].1.Some? ensures Utf8.IsBytes(pairs[i].1.value) {
      Utf8.ValidIsBytes(pairs[i].1.value);
    }
  }

  lemma ValueReadsBack(v: string)
    requires Utf8.Valid(v)
    ensures Utf8.IsBytes(v)
    ensures DecodeText(PercentEncode(v)) == v && '&' !in PercentEncode(v) && '#' !in PercentEncode(v)
  {
    Utf8.ValidIsBytes(v);
    EncodedIsInert(v);
    DecodeEncode(v);
  }

  lemma PartReadsBack(params: Params, k: string, v: string)
    requires IsKey(k) && Utf8.Valid(v)
    ensures Utf8.IsBytes(v)
    ensures var part := k + "=" + PercentEncode(v);
      part != "" && '&' !in part && '#' !in part && AddPart(params, part) == params[k := v]
  {
    ValueReadsBack(v);
    PartIsAdded(params, k, PercentEncode(v));
  }

  lemma PartIsAdded(params: Params, k: string, raw: string)
    requires IsKey(k)
    ensures AddPart(params, k + "=" + raw) == params[k := DecodeText(raw)]
  {
    assert k + "=" + raw == k + ['='] + raw;
    SplitOnceAtFirst(k, '=', raw);
  }

  /** The pairs that have a value, a later one for the same key winning. */
  function PairsMap(params: Params, pairs: seq<Pair>): Params
    decreases |pairs|
  {
    if pairs == [] then params
    else
      var (k, v) := pairs[0];
      PairsMap(if v.Some? then params[k := v.value] else params, pairs[1..])
  }

  lemma {:induction false} PartsReadBack(params: Params, pairs: seq<Pair>)
    requires WellFormed(pairs)
    ensures forall i :: 0 <= i < |pairs| && pairs[i].1.Some? ==> Utf8.IsBytes(pairs[i].1.value)
    ensures forall i :: 0 <= i < |Parts(pairs)| ==> '&' !in Parts(pairs)[i] && '#' !in Parts(pairs)[i]
    ensures AddParts(params, Parts(pairs)) == PairsMap(params, pairs)
    decreases |pairs|
  {
    WellFormedIsBytes(pairs);
    if pairs != [] {
      var (k, v) := pairs[0];
      if v.Some? {
        assert pairs[0].1.Some? && IsKey(pairs[0].0);
        PartReadsBack(params, k, v.value);
        var part := k + "=" + PercentEncode(v.value);
        PartsReadBack(params[k := v.value], pairs[1..]);
        assert Parts(pairs) == [part] + Parts(pairs[1..]);
        assert Parts(pairs)[1..] == Parts(pairs[1..]);
      } else {
        PartsReadBack(params, pairs[1..]);
        assert Parts(pairs) == Parts(pairs[1..]);
      }
    }
  }

  lemma {:induction false} NoFragment(s: string)
    requires '#' !in s
    ensures BeforeFragment(s) == s
  {
    if s != "" {
      NoFragment(s[1..]);
      assert [s[0]] + s[1..] == s;
    }
  }

  lemma {:induction false} JoinedWithout(pieces: seq<string>, sep: string, c: char)
    requires c !in sep && forall i :: 0 <= i < |pieces| ==> c !in pieces[i]
    ensures c !in Join(pieces, sep)
  {
    if |pieces| > 1 { JoinedWithout(pieces[1..], sep, c); }
  }

  predicate HasValue(pairs: seq<Pair>) {
    exists i :: 0 <= i < |pairs| && pairs[i].1.Some?
  }

  lemma HasValueConcat(a: seq<Pair>, b: seq<Pair>)
    ensures HasValue(a + b) <==> HasValue(a) || HasValue(b)
  {
    if HasValue(a) {
      var i :| 0 <= i < |a| && a[i].1.Some?;
      assert (a + b)[i].1.Some?;
    }
    if HasValue(b) {
      var i :| 0 <= i < |b| && b[i].1.Some?;
      assert (a + b)[|a| + i].1.Some?;
    }
  }

  /** A link is empty when no pair has a value. */
  lemma {:induction false} EmptyLink(pairs: seq<Pair>)
    requires forall i :: 0 <= i < |pairs| && pairs[i].1.Some? ==> Utf8.IsBytes(pairs[i].1.value)
    ensures Parts(pairs) == [] <==> !HasValue(pairs)
    ensures BuildQueryString(pairs) == "" <==> !HasValue(pairs)
    decreases |pairs|
  {
    if pairs != [] {
      EmptyLink(pairs[1..]);
      assert pairs == [pairs[0]] + pairs[1..];
      HasValueConcat([pairs[0]], pairs[1..]);
    }
  }

  /**
   A request to a built link sees exactly the pairs that had a value. That is so of a link appended to
   a path; one that stands alone keeps the page's parameters if no pair had a value.
   */
  lemma LinkReadsBack(pairs: seq<Pair>, current: Params)
    requires WellFormed(pairs)
    ensures forall i :: 0 <= i < |pairs| && pairs[i].1.Some? ==> Utf8.IsBytes(pairs[i].1.value)
    ensures var (link, wanted) := (BuildQueryString(pairs), PairsMap(map[], pairs));
      && ParseLink(link) == wanted
      && (Follow(current, link) == wanted <==> HasValue(pairs) || current == map[])
      && (!HasValue(pairs) ==> Follow(current, link) == current)
  {
    WellFormedIsBytes(pairs);
    PartsReadBack(map[], pairs);
    EmptyLink(pairs);
    var parts := Parts(pairs);
    if parts == [] {
      assert Split("", '&') == [""] && AddParts(map[], [""]) == AddParts(AddPart(map[], ""), [""][1..]);
    } else {
      assert ("?" + Join(parts, "&"))[1..] == Join(parts, "&");
      JoinedWithout(parts, "&", '#');
      NoFragment(Join(parts, "&"));
      SplitJoin(parts, '&');
      assert ['&'] == "&";
    }
  }

  /** Field names and their texts. */
  predicate Named(pairs: seq<Pair>) {
    forall i :: 0 <= i < |pairs| ==> IsName(pairs[i].0) && (pairs[i].1.Some? ==> Utf8.Valid(pairs[i].1.value))
  }

  lemma NamedReadsBack(pairs: seq<Pair>)
    requires Named(pairs)
    ensures forall i :: 0 <= i < |pairs| && pairs[i].1.Some? ==> Utf8.IsBytes(pairs[i].1.value)
    ensures ParseLink(BuildQueryString(pairs)) == PairsMap(map[], pairs)
    ensures BuildQueryString(pairs) == "" <==> !HasValue(pairs)
  {
    forall i | 0 <= i < |pairs| ensures IsKey(pairs[i].0) {
      NamesAreKeys(pairs[i].0);
    }
    LinkReadsBack(pairs, map[]);
    EmptyLink(pairs);
  }

  // ---------------------------------------------------------------------------------------------
  // Which keys a link can carry.

  lemma {:induction false} DecodeShortens(s: string)
    ensures |PercentDecode(s)| <= |s|
    decreases |s|
  {
    if s != "" {
      if s[0] == '%' && |s| >= 3 && HexValue(s[1]).Some? && HexValue(s[2]).Some? {
        DecodeShortens(s[3..]);
      } else {
        DecodeShortens(s[1..]);
      }
    }
  }

  /** A part adds at most one key, no longer than what stands before its first equals sign. */
  lemma PartKey(params: Params, y: string, rest: string, key: string)
    requires '=' !in y && key in AddPart(params, y + "=" + rest)
    ensures key in params || (key == DecodeText(y) && |key| <= |y|)
  {
    assert y + "=" + rest == y + ['='] + rest;
    SplitOnceAtFirst(y, '=', rest);
    DecodeShortens(y);
  }

  lemma BarePartKey(params: Params, y: string, key: string)
    requires '=' !in y && key in AddPart(params, y)
    ensures key in params || |key| <= |y|
  {
    SplitOnceAbsent(y, '=');
    DecodeShortens(y);
  }

  /** The last part: one key, no longer than what stands before `=e`. */
  lemma LastPartKey(params: Params, y: string, e: string, key: string)
    requires '&' !in y && '&' !in e && key in AddParts(params, Split(y + "=" + e, '&'))
    ensures key in params || (|key| <= |y| && ('=' in y ==> |key| < |y|) && ('=' !in y ==> key == DecodeText(y)))
  {
    SplitAbsent(y + "=" + e, '&');
    OnePart(params, y + "=" + e);
    if '=' in y {
      CutPartKey(params, y, e, key);
    } else {
      PartKey(params, y, e, key);
    }
  }

  lemma CutPartKey(params: Params, y: string, e: string, key: string)
    requires '=' in y && key in AddPart(params, y + "=" + e)
    ensures key in params || |key| < |y|
  {
    var (a, b) := CutAt(y, '=');
    assert y + "=" + e == a + "=" + (b + "=" + e);
    PartKey(params, a, b + "=" + e, key);
  }

  lemma OnePart(params: Params, part: string)
    ensures AddParts(params, [part]) == AddPart(params, part)
  {
    assert [part][1..] == [];
  }

  /** The parts of a text with an ampersand are the first and those of the rest. */
  lemma FirstPart(params: Params, a: string, b: string, e: string)
    requires '&' !in a
    ensures AddParts(params, Split(a + ['&'] + b + "=" + e, '&'))
         == AddParts(AddPart(params, a), Split(b + "=" + e, '&'))
  {
    assert a + ['&'] + b + "=" + e == a + ['&'] + (b + "=" + e);
    SplitAtFirst(a, '&', b + "=" + e);
    var rest := Split(b + "=" + e, '&');
    assert ([a] + rest)[1..] == rest;
  }

  /** The keys of a text are no longer than the text up to its last equals sign, and shorter if it is cut. */
  lemma {:induction false} KeysAreShort(params: Params, y: string, e: string, key: string)
    requires '&' !in e && key in AddParts(params, Split(y + "=" + e, '&'))
    ensures key in params || |key| <= |y|
    ensures key in params || ('&' in y ==> |key| < |y|)
    decreases |y|
  {
    if '&' in y {
      var (a, b) := CutAt(y, '&');
      FirstPart(params, a, b, e);
      KeysAreShort(AddPart(params, a), b, e, key);
      if key in AddPart(params, a) { PartKeyIsShort(params, a, key); }
    } else {
      LastPartKey(params, y, e, key);
    }
  }

  lemma PartKeyIsShort(params: Params, part: string, key: string)
    requires key in AddPart(params, part)
    ensures key in params || |key| <= |part|
  {
    if '=' in part {
      var (a, b) := CutAt(part, '=');
      assert part == a + "=" + b;
      PartKey(params, a, b, key);
    } else {
      BarePartKey(params, part, key);
    }
  }

  /** The text before and after the first `c`. */
  function CutAt(s: string, c: char): (r: (string, string))
    requires c in s
    ensures s == r.0 + [c] + r.1 && c !in r.0
  {
    if s[0] == c then ("", s[1..])
    else
      var (a, b) := CutAt(s[1..], c);
      ([s[0]] + a, b)
  }

  /** The keys of a text are no longer than the text. */
  lemma {:induction false} TextKeysAreShort(params: Params, y: string, key: string)
    requires key in AddParts(params, Split(y, '&'))
    ensures key in params || |key| <= |y|
    decreases |y|
  {
    if '&' in y {
      var (a, b) := CutAt(y, '&');
      SplitAtFirst(a, '&', b);
      assert ([a] + Split(b, '&'))[1..] == Split(b, '&');
      TextKeysAreShort(AddPart(params, a), b, key);
      if key in AddPart(params, a) { PartKeyIsShort(params, a, key); }
    } else {
      SplitAbsent(y, '&');
      OnePart(params, y);
      PartKeyIsShort(params, y, key);
    }
  }

  lemma {:induction false} FragmentIsCut(a: string, rest: string)
    requires '#' !in a
    ensures BeforeFragment(a + ['#'] + rest) == a
  {
    var s := a + ['#'] + rest;
    if a == "" {
      assert s[0] == '#';
    } else {
      assert s[1..] == a[1..] + ['#'] + rest;
      FragmentIsCut(a[1..], rest);
      assert [a[0]] + a[1..] == a;
    }
  }

  /** A link carries a key exactly when nothing in it is taken for syntax and it decodes to itself. */
  lemma KeyExact(k: string, v: string)
    requires Utf8.Valid(v)
    ensures Utf8.IsBytes(v)
    ensures k in ParseLink(BuildQueryString([(k, Some(v))])) <==> IsKey(k)
  {
    Utf8.ValidIsBytes(v);
    var e := PercentEncode(v);
    EncodedIsInert(v);
    var x := k + "=" + e;
    assert Parts([(k, Some(v))]) == [x] by { assert [(k, Some(v))][1..] == []; }
    assert ("?" + x)[1..] == x;
    if IsKey(k) {
      LinkReadsBack([(k, Some(v))], map[]);
      assert PairsMap(map[], [(k, Some(v))]) == PairsMap(map[k := v], [(k, Some(v))][1..]);
    }
    if k in ParseQuery(BeforeFragment(x)) {
      CarriedIsKey(k, e);
    }
  }

  lemma CarriedIsKey(k: string, e: string)
    requires '&' !in e && '#' !in e && k in ParseQuery(BeforeFragment(k + "=" + e))
    ensures IsKey(k)
  {
    if '#' in k {
      NumberSignCuts(k, e);
    } else {
      NoFragment(k + "=" + e);
      WholeKeyIsKey(k, e);
    }
  }

  lemma NumberSignCuts(k: string, e: string)
    requires '#' in k
    ensures k !in ParseQuery(BeforeFragment(k + "=" + e))
  {
    var (a, b) := CutAt(k, '#');
    assert k + "=" + e == a + ['#'] + (b + "=" + e);
    FragmentIsCut(a, b + "=" + e);
    if k in ParseQuery(a) { TextKeysAreShort(map[], a, k); }
  }

  lemma WholeKeyIsKey(k: string, e: string)
    requires '&' !in e && '#' !in k && k in ParseQuery(k + "=" + e)
    ensures IsKey(k)
  {
    KeysAreShort(map[], k, e, k);
    LastPartKey(map[], k, e, k);
    SplitAbsent(k + "=" + e, '&');
    OnePart(map[], k + "=" + e);
    KeyIsNotEmpty(map[], k + "=" + e, k);
  }

  lemma KeyIsNotEmpty(params: Params, part: string, key: string)
    requires key in AddPart(params, part) && key !in params
    ensures key != ""
  {
  }

  lemma {:induction false} PairsMapConcat(params: Params, a: seq<Pair>, b: seq<Pair>)
    ensures PairsMap(params, a + b) == PairsMap(PairsMap(params, a), b)
    decreases |a|
  {
    if a == [] {
      assert a + b == b;
    } else {
      assert (a + b)[1..] == a[1..] + b;
      PairsMapConcat(if a[0].1.Some? then params[a[0].0 := a[0].1.value] else params, a[1..], b);
    }
  }
}
