/** The sitemap document, and a reader that takes it apart element by element. */
module Sitemap {
  import opened Wrappers
  import opened Escaping

  /** The texts of a URL's elements; the last modification and the priority come formatted. */
  datatype Entry = Entry(loc: string, lastmod: Option<string>, changefreq: Option<string>, priority: Option<string>)

  function Open(tag: string): string {
    "<" + tag + ">"
  }

  function Close(tag: string): string {
    "</" + tag + ">"
  }

  function Element(tag: string, content: string): string {
    Open(tag) + content + Close(tag)
  }

  function OptionalElement(tag: string, content: Option<string>): string {
    if content.Some? then Element(tag, content.value) else ""
  }

  function Escaped(text: Option<string>): Option<string> {
    if text.Some? then Some(XmlEscape(text.value)) else None
  }

  function UrlText(e: Entry): string {
    Open("url") + Element("loc", XmlEscape(e.loc)) + OptionalElement("lastmod", e.lastmod)
    + OptionalElement("changefreq", Escaped(e.changefreq)) + OptionalElement("priority", e.priority) + Close("url")
  }

  function UrlsText(entries: seq<Entry>): string {
    if entries == [] then "" else UrlText(entries[0]) + UrlsText(entries[1..])
  }

  lemma {:induction false} UrlsTextGrows(entries: seq<Entry>, last: Entry)
    ensures UrlsText(entries + [last]) == UrlsText(entries) + UrlText(last)
  {
    if entries == [] {
      assert [] + [last] == [last] && [last][1..] == [];
      assert UrlText(last) + "" == UrlText(last);
    } else {
      assert (entries + [last])[1..] == entries[1..] + [last];
      UrlsTextGrows(entries[1..], last);
    }
  }

  method PushOptional(document: string, tag: string, content: Option<string>) returns (xml: string)
    ensures xml == document + OptionalElement(tag, content)
  {
    xml := document;
    if content.Some? {
      xml := xml + Open(tag);
      xml := xml + content.value;
      xml := xml + Close(tag);
    }
  }

  /** The loop's body: one URL's element. */
  method PushUrl(document: string, entry: Entry) returns (xml: string)
    ensures xml == document + UrlText(entry)
  {
    xml := document + Open("url");
    xml := PushOptional(xml, "loc", Some(XmlEscape(entry.loc)));
    xml := PushOptional(xml, "lastmod", entry.lastmod);
    xml := PushOptional(xml, "changefreq", Escaped(entry.changefreq));
    xml := PushOptional(xml, "priority", entry.priority);
    xml := xml + Close("url");
    Pushed(document, entry);
  }

  /** `head` is the XML declaration and the opening tag of the URL set. */
  method RenderSitemap(head: string, entries: seq<Entry>) returns (xml: string)
    ensures xml == head + UrlsText(entries) + EndTag("urlset")
  {
    xml := head;
    UrlsSoFar(head, entries, 0);
    for i := 0 to |entries|
      invariant xml == head + UrlsText(entries[..i])
    {
      UrlsSoFar(head, entries, i);
      xml := PushUrl(xml, entries[i]);
    }
    assert entries[..|entries|] == entries;
    xml := xml + Close("urlset");
  }

  lemma Associate(a: string, b: string, c: string)
    ensures a + b + c == a + (b + c)
  {
  }

  lemma UrlsSoFar(head: string, entries: seq<Entry>, i: nat)
    requires i <= |entries|
    ensures i == 0 ==> head + UrlsText(entries[..i]) == head
    ensures i < |entries| ==> head + UrlsText(entries[..i]) + UrlText(entries[i]) == head + UrlsText(entries[..i + 1])
  {
    if i < |entries| {
      UrlsTextGrows(entries[..i], entries[i]);
      assert entries[..i + 1] == entries[..i] + [entries[i]];
      Associate(head, UrlsText(entries[..i]), UrlText(entries[i]));
    }
  }

  lemma Pushed(document: string, e: Entry)
    ensures document + Open("url") + Element("loc", XmlEscape(e.loc)) + OptionalElement("lastmod", e.lastmod)
      + OptionalElement("changefreq", Escaped(e.changefreq)) + OptionalElement("priority", e.priority) + Close("url")
      == document + UrlText(e)
  {
    Reassociate(document, Open("url"), Element("loc", XmlEscape(e.loc)), OptionalElement("lastmod", e.lastmod),
                OptionalElement("changefreq", Escaped(e.changefreq)), OptionalElement("priority", e.priority),
                Close("url"));
  }

  lemma Reassociate(s: string, a: string, b: string, c: string, d: string, e: string, f: string)
    ensures s + a + b + c + d + e + f == s + (a + b + c + d + e + f)
  {
  }

  // ---------------------------------------------------------------------------------------------
  // The reader. Each parser returns what it read and the rest of the document.

  function ReadText(s: string): (r: (string, string))
    ensures |r.1| <= |s|
  {
    if s == "" || s[0] == '<' then ("", s)
    else
      var (text, rest) := ReadText(s[1..]);
      ([s[0]] + text, rest)
  }

  function Expect(s: string, token: string): (r: Option<string>)
    ensures r.Some? ==> |r.value| == |s| - |token|
  {
    if token <= s then Some(s[|token|..]) else None
  }

  /** Tags as the XML grammar has them. */
  function StartTag(name: string): string {
    ['<'] + name + ['>']
  }

  function EndTag(name: string): string {
    ['<', '/'] + name + ['>']
  }

  lemma TagsAgree(name: string)
    ensures Open(name) == StartTag(name) && Close(name) == EndTag(name)
  {
  }

  /** An element with nothing but text in it; the text is unescaped. */
  function ReadElement(s: string, tag: string): (r: Option<(string, string)>)
    ensures r.Some? ==> |r.value.1| < |s|
  {
    match Expect(s, StartTag(tag))
    case None => None
    case Some(inside) =>
      var (text, end) := ReadText(inside);
      match Expect(end, EndTag(tag))
      case None => None
      case Some(rest) => Some((Unescape(text), rest))
  }

  function ReadOptional(s: string, tag: string): (r: Option<(Option<string>, string)>)
    ensures r.Some? ==> |r.value.1| <= |s|
  {
    if StartTag(tag) <= s then
      match ReadElement(s, tag)
      case None => None
      case Some((text, rest)) => Some((Some(text), rest))
    else Some((None, s))
  }

  function ReadUrl(s: string): (r: Option<(Entry, string)>)
    ensures r.Some? ==> |r.value.1| < |s|
  {
    match Expect(s, StartTag("url"))
    case None => None
    case Some(s1) =>
      match ReadElement(s1, "loc")
      case None => None
      case Some((loc, s2)) =>
        match ReadOptional(s2, "lastmod")
        case None => None
        case Some((lastmod, s3)) =>
          match ReadOptional(s3, "changefreq")
          case None => None
          case Some((changefreq, s4)) =>
            match ReadOptional(s4, "priority")
            case None => None
            case Some((priority, s5)) =>
              match Expect(s5, EndTag("url"))
              case None => None
              case Some(rest) => Some((Entry(loc, lastmod, changefreq, priority), rest))
  }

  /** URLs up to the end of the set, and nothing after it. */
  function ReadUrls(s: string): Option<seq<Entry>>
    decreases |s|
  {
    if s == EndTag("urlset") then Some([])
    else match ReadUrl(s)
      case None => None
      case Some((entry, rest)) =>
        match ReadUrls(rest)
        case None => None
        case Some(entries) => Some([entry] + entries)
  }

  // ---------------------------------------------------------------------------------------------

  /** Formatted timestamps and numbers have none of these characters. */
  predicate Plain(text: Option<string>) {
    text.Some? ==> '<' !in text.value && '&' !in text.value
  }

  lemma {:induction false} TextReads(text: string, tail: string)
    requires '<' !in text && tail != "" && tail[0] == '<'
    ensures ReadText(text + tail) == (text, tail)
  {
    if text == "" {
      assert text + tail == tail;
    } else {
      assert (text + tail)[1..] == text[1..] + tail;
      TextReads(text[1..], tail);
      assert [text[0]] + text[1..] == text;
    }
  }

  lemma TokenReads(token: string, tail: string)
    ensures Expect(token + tail, token) == Some(tail)
  {
  }

  lemma ElementReads(tag: string, content: string, tail: string)
    requires '<' !in content
    ensures ReadElement(Element(tag, content) + tail, tag) == Some((Unescape(content), tail))
    ensures Open(tag) <= Element(tag, content) + tail
  {
    assert Element(tag, content) + tail == Open(tag) + (content + (Close(tag) + tail));
    TokenReads(Open(tag), content + (Close(tag) + tail));
    TextReads(content, Close(tag) + tail);
    TokenReads(Close(tag), tail);
  }

  lemma {:induction false} UnescapePlain(s: string)
    requires '&' !in s
    ensures Unescape(s) == s
  {
    if s != "" {
      assert Match(s, 0) == None;
      UnescapePlain(s[1..]);
      assert [s[0]] + s[1..] == s;
    }
  }

  lemma EscapedHasNoTags(s: string)
    ensures '<' !in XmlEscape(s)
  {
    FivePassesAreOne(s);
    forall i | 0 <= i < |XmlEscape(s)| ensures XmlEscape(s)[i] != '<' {
      NoRawSpecials(s, XML, i);
    }
  }

  /** The text does not start with this tag. */
  predicate Follows(tail: string, tag: string) {
    |tail| >= 2 && tag != "" && tail[1] != tag[0]
  }

  lemma PlainReads(tag: string, content: Option<string>, tail: string)
    requires Plain(content) && Follows(tail, tag)
    ensures ReadOptional(OptionalElement(tag, content) + tail, tag) == Some((content, tail))
  {
    if content.Some? {
      ElementReads(tag, content.value, tail);
      UnescapePlain(content.value);
    } else {
      assert OptionalElement(tag, content) + tail == tail;
      assert Open(tag)[1] == tag[0];
    }
  }

  lemma EscapedReads(tag: string, text: Option<string>, tail: string)
    requires Follows(tail, tag)
    ensures ReadOptional(OptionalElement(tag, Escaped(text)) + tail, tag) == Some((text, tail))
  {
    if text.Some? {
      EscapedHasNoTags(text.value);
      ElementReads(tag, XmlEscape(text.value), tail);
      XmlRoundTrip(text.value);
    } else {
      assert OptionalElement(tag, Escaped(text)) + tail == tail;
      assert Open(tag)[1] == tag[0];
    }
  }

  lemma StillFollows(tail: string, tag: string, other: string, content: Option<string>)
    requires Follows(tail, tag) && other != "" && other[0] != tag[0]
    ensures Follows(OptionalElement(other, content) + tail, tag)
  {
    if content.Some? {
      assert (OptionalElement(other, content) + tail)[1] == other[0];
    } else {
      assert OptionalElement(other, content) + tail == tail;
    }
  }

  lemma SevenParts(a: string, b: string, c: string, d: string, e: string, f: string, s: string)
    ensures a + b + c + d + e + f + s == a + (b + (c + (d + (e + (f + s)))))
  {
  }

  lemma LocationReads(loc: string, tail: string)
    ensures ReadElement(Element("loc", XmlEscape(loc)) + tail, "loc") == Some((loc, tail))
  {
    EscapedHasNoTags(loc);
    ElementReads("loc", XmlEscape(loc), tail);
    XmlRoundTrip(loc);
  }

  lemma UrlReads(e: Entry, tail: string)
    requires Plain(e.lastmod) && Plain(e.priority)
    ensures ReadUrl(UrlText(e) + tail) == Some((e, tail))
  {
    var t5 := Close("url") + tail;
    var t4 := OptionalElement("priority", e.priority) + t5;
    var t3 := OptionalElement("changefreq", Escaped(e.changefreq)) + t4;
    var t2 := OptionalElement("lastmod", e.lastmod) + t3;
    var loc := Element("loc", XmlEscape(e.loc));
    assert UrlText(e) + tail == Open("url") + (loc + t2) by {
      SevenParts(Open("url"), loc, OptionalElement("lastmod", e.lastmod),
                 OptionalElement("changefreq", Escaped(e.changefreq)),
                 OptionalElement("priority", e.priority), Close("url"), tail);
    }
    EndFollows(tail);
    StillFollows(t5, "changefreq", "priority", e.priority);
    StillFollows(t5, "lastmod", "priority", e.priority);
    StillFollows(t4, "lastmod", "changefreq", Escaped(e.changefreq));
    TokenReads(Open("url"), loc + t2);
    LocationReads(e.loc, t2);
    PlainReads("lastmod", e.lastmod, t3);
    EscapedReads("changefreq", e.changefreq, t4);
    PlainReads("priority", e.priority, t5);
    TokenReads(Close("url"), tail);
  }

  lemma EndFollows(tail: string)
    ensures Follows(Close("url") + tail, "priority")
    ensures Follows(Close("url") + tail, "changefreq")
    ensures Follows(Close("url") + tail, "lastmod")
  {
    assert (Close("url") + tail)[1] == '/';
  }

  lemma UrlOpens(e: Entry)
    ensures |UrlText(e)| >= 2 && UrlText(e)[1] == 'u'
  {
  }

  lemma FirstUrlReads(e: Entry, urls: string, entries: seq<Entry>)
    requires Plain(e.lastmod) && Plain(e.priority) && ReadUrls(urls + Close("urlset")) == Some(entries)
    ensures ReadUrls(UrlText(e) + urls + Close("urlset")) == Some([e] + entries)
  {
    Associate(UrlText(e), urls, Close("urlset"));
    UrlReads(e, urls + Close("urlset"));
    UrlOpens(e);
    UrlThenRest(UrlText(e), urls + Close("urlset"), e, entries);
  }

  lemma UrlThenRest(url: string, rest: string, e: Entry, entries: seq<Entry>)
    requires |url| >= 2 && url[1] == 'u'
    requires ReadUrl(url + rest) == Some((e, rest)) && ReadUrls(rest) == Some(entries)
    ensures ReadUrls(url + rest) == Some([e] + entries)
  {
    assert (url + rest)[1] == 'u' && Close("urlset")[1] == '/';
  }

  /** The rendered document holds exactly the entries, whatever their locations and frequencies contain. */
  lemma {:induction false} DocumentReadsBack(entries: seq<Entry>)
    requires forall i :: 0 <= i < |entries| ==> Plain(entries[i].lastmod) && Plain(entries[i].priority)
    ensures ReadUrls(UrlsText(entries) + EndTag("urlset")) == Some(entries)
  {
    var end := Close("urlset");
    if entries == [] {
      assert UrlsText(entries) + end == end;
    } else {
      DocumentReadsBack(entries[1..]);
      FirstUrlReads(entries[0], UrlsText(entries[1..]), entries[1..]);
      assert [entries[0]] + entries[1..] == entries;
    }
  }
}
