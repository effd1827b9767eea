/**
 * `generatePostListHtml`: the HTML list of items that the main pages and
 * the tag pages show. Every item becomes one anchor element built from a
 * template literal, and the anchors are joined with newlines.
 *
 * The partner of the renderer is `ParsePostList`, a reader that takes the
 * list back apart into link, date and title per item. As long as a URL has
 * no `"` and a date or title has no `<`, reading the rendered list gives
 * back exactly the entries rendered, in order.
 */
module Render {
  import opened Wrappers
  import opened Text
  import opened Metadata

  /** Indentation of the anchor lines of the template. */
  const ITEM_INDENT := "                    "
  /** Indentation of the two span lines of the template. */
  const FIELD_INDENT := "                        "

  /** The four literal parts of the item template, around the URL, the
      date and the title. The template starts with a line break. */
  const LINK_OPEN := "\n" + ITEM_INDENT + "<a href=\""
  const DATE_SPAN_OPEN := "\" class=\"post-item\">\n" + FIELD_INDENT + "<span class=\"post-date\">"
  const TITLE_SPAN_OPEN := "</span>\n" + FIELD_INDENT + "<span class=\"post-title\">"
  const LINK_CLOSE := "</span>\n" + ITEM_INDENT + "</a>"

  /** The template literal for one item: an anchor on its own line, opened
      by the indented `<a href="` and closed by the indented `</a>`. */
  function Fragment(r: Record): (f: string)
    ensures LINK_OPEN <= f
    ensures |LINK_CLOSE| <= |f| && f[|f| - |LINK_CLOSE|..] == LINK_CLOSE
  {
    LINK_OPEN + (r.url + (DATE_SPAN_OPEN + (r.date + (TITLE_SPAN_OPEN + (r.title + LINK_CLOSE)))))
  }

  /** `items.map(fragment).join("\n")`. An empty list renders as the empty
      string, and only an empty list. */
  function GeneratePostListHtml(items: seq<Record>): (html: string)
    ensures html == "" <==> items == []
    decreases |items|
  {
    if items == [] then ""
    else if |items| == 1 then Fragment(items[0])
    else Fragment(items[0]) + "\n" + GeneratePostListHtml(items[1..])
  }

  /** Rendering the concatenation of two non-empty lists is rendering each
      and joining the two with a newline: the join distributes over `+`. */
  lemma {:induction false} RenderConcat(a: seq<Record>, b: seq<Record>)
    requires a != [] && b != []
    ensures GeneratePostListHtml(a + b) ==
            GeneratePostListHtml(a) + "\n" + GeneratePostListHtml(b)
    decreases |a|
  {
    var r, a' := a[0], a[1..];
    assert a == [r] + a';
    assert a + b == [r] + (a' + b);
    RenderCons(r, a' + b);
    var f, y := Fragment(r), GeneratePostListHtml(b);
    if a' == [] {
      assert a' + b == b;
      assert GeneratePostListHtml(a) == f;
    } else {
      RenderConcat(a', b);
      RenderCons(r, a');
      var x := GeneratePostListHtml(a');
      assert GeneratePostListHtml(a + b) == f + "\n" + (x + "\n" + y);
      assert GeneratePostListHtml(a) == f + "\n" + x;
      JoinAssoc(f, x, y);
    }
  }

  /** Joining three texts with newlines does not depend on the grouping. */
  lemma JoinAssoc(f: string, x: string, y: string)
    ensures f + "\n" + (x + "\n" + y) == (f + "\n" + x) + "\n" + y
  {
  }

  /** An item in front of a non-empty list adds its anchor and a newline. */
  lemma RenderCons(r: Record, rest: seq<Record>)
    requires rest != []
    ensures GeneratePostListHtml([r] + rest) == Fragment(r) + "\n" + GeneratePostListHtml(rest)
  {
    assert ([r] + rest)[0] == r && ([r] + rest)[1..] == rest;
  }

  /** What a reader of the list sees of one item. */
  datatype Entry = Entry(url: string, date: string, title: string)

  function EntryOf(r: Record): Entry {
    Entry(r.url, r.date, r.title)
  }

  function Entries(items: seq<Record>): (es: seq<Entry>)
    ensures |es| == |items|
    ensures forall i :: 0 <= i < |items| ==> es[i] == EntryOf(items[i])
    decreases |items|
  {
    if items == [] then [] else [EntryOf(items[0])] + Entries(items[1..])
  }

  /** The fields can be read back: the URL stops at the attribute's closing
      quote and the date and title at the next tag. */
  predicate Readable(r: Record) {
    '"' !in r.url && '<' !in r.date && '<' !in r.title
  }

  /** Reads the longest prefix of `s` satisfying `p`, and what follows it. */
  function ReadWhile(s: string, p: char -> bool): (r: (string, string))
    ensures r.0 + r.1 == s
    ensures forall x :: x in r.0 ==> p(x)
    ensures r.1 == [] || !p(r.1[0])
  {
    var k := SpanWhile(s, 0, p);
    assert s[..k] + s[k..] == s;
    (s[..k], s[k..])
  }

  /** Reads the literal `lit` at the front of `s`, returning what follows. */
  function ReadLiteral(s: string, lit: string): (r: Option<string>)
    ensures r.Some? ==> lit + r.value == s
  {
    if lit <= s then
      assert lit + s[|lit|..] == s;
      Some(s[|lit|..])
    else None
  }

  /** Reads one item's anchor from the front of `s`: its entry and the
      text after the anchor. */
  function ParseFragment(s: string): (r: Option<(Entry, string)>)
    ensures r.Some? ==> |r.value.1| < |s|
  {
    match ReadLiteral(s, LINK_OPEN)
    case None => None
    case Some(s1) =>
      var (url, s2) := ReadWhile(s1, Other('"'));
      match ReadLiteral(s2, DATE_SPAN_OPEN)
      case None => None
      case Some(s3) =>
        var (date, s4) := ReadWhile(s3, Other('<'));
        match ReadLiteral(s4, TITLE_SPAN_OPEN)
        case None => None
        case Some(s5) =>
          var (title, s6) := ReadWhile(s5, Other('<'));
          match ReadLiteral(s6, LINK_CLOSE)
          case None => None
          case Some(rest) => Some((Entry(url, date, title), rest))
  }

  /** Reads anchors separated by single newlines up to the end of `s`. */
  function ParseItems(s: string): Option<seq<Entry>>
    decreases |s|
  {
    match ParseFragment(s)
    case None => None
    case Some((v, rest)) =>
      if rest == [] then Some([v])
      else if rest[0] != '\n' then None
      else
        match ParseItems(rest[1..])
        case None => None
        case Some(vs) => Some([v] + vs)
  }

  /** The reader for a whole rendered list. */
  function ParsePostList(html: string): Option<seq<Entry>> {
    if html == [] then Some([]) else ParseItems(html)
  }

  /** Reading the rendered list gives back every item's link, date and
      title, in order. */
  lemma RenderThenParse(items: seq<Record>)
    requires forall r :: r in items ==> Readable(r)
    ensures ParsePostList(GeneratePostListHtml(items)) == Some(Entries(items))
  {
    if items != [] {
      ItemsParse(items);
    }
  }

  lemma {:induction false} ItemsParse(items: seq<Record>)
    requires items != [] && forall r :: r in items ==> Readable(r)
    ensures ParseItems(GeneratePostListHtml(items)) == Some(Entries(items))
    decreases |items|
  {
    var r := items[0];
    var html := GeneratePostListHtml(items);
    assert Entries(items) == [EntryOf(r)] + Entries(items[1..]);
    if |items| == 1 {
      assert html == Fragment(r) + [];
      FragmentParses(r, []);
      ItemsAfterFragment(html, EntryOf(r), []);
      assert ParseItems(html) == Some([EntryOf(r)]);
      assert Entries(items) == [EntryOf(r)];
    } else {
      var rest := GeneratePostListHtml(items[1..]);
      assert html == Fragment(r) + ("\n" + rest);
      FragmentParses(r, "\n" + rest);
      ItemsAfterFragment(html, EntryOf(r), "\n" + rest);
      assert ("\n" + rest)[1..] == rest;
      ItemsParse(items[1..]);
      assert ParseItems(rest) == Some(Entries(items[1..]));
      assert ParseItems(html) == Some([EntryOf(r)] + Entries(items[1..]));
    }
  }

  /** One step of `ParseItems`, once the first anchor has been read. */
  lemma ItemsAfterFragment(s: string, v: Entry, rest: string)
    requires ParseFragment(s) == Some((v, rest))
    ensures rest == [] ==> ParseItems(s) == Some([v])
    ensures rest != [] && rest[0] == '\n' && ParseItems(rest[1..]).Some? ==>
              ParseItems(s) == Some([v] + ParseItems(rest[1..]).value)
  {
  }

  /** One anchor, followed by anything, reads back as its entry followed by
      that text. */
  lemma FragmentParses(r: Record, post: string)
    requires Readable(r)
    ensures ParseFragment(Fragment(r) + post) == Some((EntryOf(r), post))
  {
    var t6 := LINK_CLOSE + post;
    var t5 := r.title + t6;
    var t4 := TITLE_SPAN_OPEN + t5;
    var t3 := r.date + t4;
    var t2 := DATE_SPAN_OPEN + t3;
    var t1 := r.url + t2;
    FragmentThenText(r, post);
    LiteralThen(LINK_OPEN, t1);
    FieldThen(r.url, t2, Other('"'));
    LiteralThen(DATE_SPAN_OPEN, t3);
    FieldThen(r.date, t4, Other('<'));
    LiteralThen(TITLE_SPAN_OPEN, t5);
    FieldThen(r.title, t6, Other('<'));
    LiteralThen(LINK_CLOSE, post);
  }

  /** The anchor followed by more text, with the concatenation nested to
      the right. */
  lemma FragmentThenText(r: Record, post: string)
    ensures Fragment(r) + post ==
            LINK_OPEN + (r.url + (DATE_SPAN_OPEN + (r.date + (TITLE_SPAN_OPEN + (r.title + (LINK_CLOSE + post))))))
  {
    var t5 := r.title + LINK_CLOSE;
    var t4 := TITLE_SPAN_OPEN + t5;
    var t3 := r.date + t4;
    var t2 := DATE_SPAN_OPEN + t3;
    var t1 := r.url + t2;
    assert LINK_OPEN + t1 + post == LINK_OPEN + (t1 + post);
    assert r.url + t2 + post == r.url + (t2 + post);
    assert DATE_SPAN_OPEN + t3 + post == DATE_SPAN_OPEN + (t3 + post);
    assert r.date + t4 + post == r.date + (t4 + post);
    assert TITLE_SPAN_OPEN + t5 + post == TITLE_SPAN_OPEN + (t5 + post);
    assert r.title + LINK_CLOSE + post == r.title + (LINK_CLOSE + post);
  }

  lemma LiteralThen(lit: string, rest: string)
    ensures ReadLiteral(lit + rest, lit) == Some(rest)
  {
    assert (lit + rest)[|lit|..] == rest;
  }

  /** A field whose characters all satisfy `p`, followed by a character
      that does not, is read whole. */
  lemma FieldThen(field: string, rest: string, p: char -> bool)
    requires forall x :: x in field ==> p(x)
    requires rest != [] && !p(rest[0])
    ensures ReadWhile(field + rest, p) == (field, rest)
  {
    var s := field + rest;
    forall j | 0 <= j < |field| ensures p(s[j]) {
      assert s[j] == field[j];
    }
    SpanWhileStopsAt(s, 0, p, |field|);
    assert s[..|field|] == field && s[|field|..] == rest;
  }
}
