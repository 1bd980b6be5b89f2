/** The XML escaping of the sitemap, in five passes over the text, and HTML escaping, in one. */
module Escaping {
  import opened Wrappers

  /** `s.replace(c, with)`. */
  function Replace(s: string, c: char, with: string): string {
    if s == "" then "" else (if s[0] == c then with else [s[0]]) + Replace(s[1..], c, with)
  }

  function XmlEscape(input: string): string {
    var bracketed := Replace(Replace(Replace(input, '&', "&amp;"), '<', "&lt;"), '>', "&gt;");
    Replace(Replace(bracketed, '"', "&quot;"), '\'', "&#x27;")
  }

  /** What the first `passes` replacements make of one character. */
  function Entity(c: char, passes: nat): string {
    if c == '&' && passes >= 1 then "&amp;"
    else if c == '<' && passes >= 2 then "&lt;"
    else if c == '>' && passes >= 3 then "&gt;"
    else if c == '"' && passes >= 4 then "&quot;"
    else if c == '\'' && passes >= 5 then "&#x27;"
    else if c == '/' && passes >= 6 then "&#x2F;"
    else [c]
  }

  /** One substitution, character by character. The HTML form has a sixth entity, for the slash. */
  function Substitute(s: string, passes: nat): string {
    if s == "" then "" else Entity(s[0], passes) + Substitute(s[1..], passes)
  }

  const XML: nat := 5
  const HTML: nat := 6

  method HtmlEscape(input: string) returns (escaped: string)
    ensures escaped == Substitute(input, HTML)
  {
    escaped := "";
    for i := 0 to |input|
      invariant escaped == Substitute(input[..i], HTML)
    {
      SubstituteConcat(input[..i], [input[i]], HTML);
      assert input[..i + 1] == input[..i] + [input[i]];
      match input[i] {
        case '<' => escaped := escaped + "&lt;";
        case '>' => escaped := escaped + "&gt;";
        case '&' => escaped := escaped + "&amp;";
        case '"' => escaped := escaped + "&quot;";
        case '\'' => escaped := escaped + "&#x27;";
        case '/' => escaped := escaped + "&#x2F;";
        case c => escaped := escaped + [c];
      }
    }
    assert input[..|input|] == input;
  }

  lemma {:induction false} SubstituteConcat(a: string, b: string, passes: nat)
    ensures Substitute(a + b, passes) == Substitute(a, passes) + Substitute(b, passes)
  {
    if a == "" {
      assert a + b == b;
    } else {
      assert (a + b)[1..] == a[1..] + b;
      SubstituteConcat(a[1..], b, passes);
    }
  }

  // ---------------------------------------------------------------------------------------------
  // Five passes are one.

  lemma {:induction false} ReplaceConcat(a: string, b: string, c: char, with: string)
    ensures Replace(a + b, c, with) == Replace(a, c, with) + Replace(b, c, with)
  {
    if a == "" {
      assert a + b == b;
    } else {
      assert (a + b)[1..] == a[1..] + b;
      ReplaceConcat(a[1..], b, c, with);
    }
  }

  lemma {:induction false} ReplaceAbsent(s: string, c: char, with: string)
    requires c !in s
    ensures Replace(s, c, with) == s
  {
    if s != "" { ReplaceAbsent(s[1..], c, with); }
  }

  /** The character the next pass looks for. */
  function Target(pass: nat): char
    requires 1 <= pass <= 5
  {
    if pass == 1 then '&' else if pass == 2 then '<' else if pass == 3 then '>' else if pass == 4 then '"' else '\''
  }

  lemma OnePassMore(c: char, pass: nat)
    requires 1 <= pass <= 5
    ensures Replace(Entity(c, pass - 1), Target(pass), Entity(Target(pass), pass)) == Entity(c, pass)
  {
    var t := Target(pass);
    if Entity(c, pass - 1) == [c] {
      assert Replace([c], t, Entity(t, pass)) == if c == t then Entity(t, pass) else [c];
    } else {
      ReplaceAbsent(Entity(c, pass - 1), t, Entity(t, pass));
    }
  }

  lemma {:induction false} PassComposes(s: string, pass: nat)
    requires 1 <= pass <= 5
    ensures Replace(Substitute(s, pass - 1), Target(pass), Entity(Target(pass), pass)) == Substitute(s, pass)
  {
    if s != "" {
      PassComposes(s[1..], pass);
      OnePassMore(s[0], pass);
      ReplaceConcat(Entity(s[0], pass - 1), Substitute(s[1..], pass - 1), Target(pass), Entity(Target(pass), pass));
    }
  }

  lemma {:induction false} NoPasses(s: string)
    ensures Substitute(s, 0) == s
  {
    if s != "" { NoPasses(s[1..]); }
  }

  /** The five whole-string replacements are one substitution per character. */
  lemma FivePassesAreOne(s: string)
    ensures XmlEscape(s) == Substitute(s, XML)
  {
    NoPasses(s);
    PassComposes(s, 1);
    PassComposes(s, 2);
    PassComposes(s, 3);
    PassComposes(s, 4);
    PassComposes(s, 5);
  }

  // ---------------------------------------------------------------------------------------------
  // Reading escaped text.

  const ENTITIES: seq<(string, char)> :=
    [("&amp;", '&'), ("&lt;", '<'), ("&gt;", '>'), ("&quot;", '"'), ("&#x27;", '\''), ("&#x2F;", '/')]

  /** The entity a text starts with, from `ENTITIES[i..]`. */
  function Match(s: string, i: nat): (m: Option<(string, char)>)
    requires i <= |ENTITIES|
    ensures m.Some? ==> 0 < |m.value.0| <= |s| && s[0] == '&'
    decreases |ENTITIES| - i
  {
    if i == |ENTITIES| then None
    else if ENTITIES[i].0 <= s then Some(ENTITIES[i])
    else Match(s, i + 1)
  }

  /** One left-to-right pass: an entity stands for its character, anything else for itself. */
  function Unescape(s: string): string
    decreases |s|
  {
    if s == "" then ""
    else match Match(s, 0)
      case Some((entity, c)) => [c] + Unescape(s[|entity|..])
      case None => [s[0]] + Unescape(s[1..])
  }

  lemma EntityIsRead(c: char, passes: nat, tail: string)
    requires passes == XML || passes == HTML
    ensures Unescape(Entity(c, passes) + tail) == [c] + Unescape(tail)
  {
    var s := Entity(c, passes) + tail;
    if Entity(c, passes) == [c] {
      assert s[0] != '&' && s[1..] == tail;
      assert Match(s, 0) == None;
    } else {
      EntityIsMatched(c, passes, tail);
      assert s[|Entity(c, passes)|..] == tail;
    }
  }

  lemma EntityIsMatched(c: char, passes: nat, tail: string)
    requires passes == XML || passes == HTML
    requires Entity(c, passes) != [c]
    ensures Match(Entity(c, passes) + tail, 0) == Some((Entity(c, passes), c))
  {
    var e := Entity(c, passes);
    var s := e + tail;
    assert s[1] == e[1] && s[2] == e[2] && s[3] == e[3];
    if |e| == 6 { assert s[4] == e[4]; }
    assert e <= s;
    forall i | 0 <= i < 6 ensures ENTITIES[i].0 <= s <==> ENTITIES[i].0 == e {
    }
  }

  /** Unescaping gives back what was escaped, for both forms. */
  lemma {:induction false} UnescapeUndoes(s: string, passes: nat)
    requires passes == XML || passes == HTML
    ensures Unescape(Substitute(s, passes)) == s
  {
    if s != "" {
      EntityIsRead(s[0], passes, Substitute(s[1..], passes));
      UnescapeUndoes(s[1..], passes);
    }
  }

  /** Escaped text holds no special character but the ampersands that start its entities. */
  lemma {:induction false} NoRawSpecials(s: string, passes: nat, i: nat)
    requires passes == XML || passes == HTML
    requires i < |Substitute(s, passes)|
    ensures var out := Substitute(s, passes);
      && out[i] !in {'<', '>', '"', '\''} && (passes == HTML ==> out[i] != '/')
      && (out[i] == '&' ==> Match(out[i..], 0).Some?)
  {
    var e, rest := Entity(s[0], passes), Substitute(s[1..], passes);
    var out := e + rest;
    assert Substitute(s, passes) == out;
    if i < |e| {
      if e != [s[0]] && i == 0 {
        EntityIsMatched(s[0], passes, rest);
        assert out[0..] == out;
      }
    } else {
      NoRawSpecials(s[1..], passes, i - |e|);
      assert out[i..] == rest[i - |e|..];
    }
  }

  /** The sitemap's escaping in particular. */
  lemma XmlRoundTrip(s: string)
    ensures Unescape(XmlEscape(s)) == s
  {
    FivePassesAreOne(s);
    UnescapeUndoes(s, XML);
  }
}
