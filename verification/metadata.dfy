/**
 * `extractMetadata`: the title, display date, tag slugs and URL of one
 * content file. Each of the three regular expressions of the build script is
 * written as a scanner: a predicate or function saying whether, and with
 * which capture, the pattern matches at a given start position, and a
 * leftmost search over start positions, which is how a non-global
 * `String.prototype.match` proceeds.
 */
module Metadata {
  import opened Wrappers
  import opened Text
  import opened Seqs

  /** The content directory a file comes from; its name is the `type`
      argument of `extractMetadata`. */
  datatype Category = Posts | Movies {
    function Name(): string {
      match this
      case Posts => "posts"
      case Movies => "movies"
    }
  }

  /** The object `extractMetadata` returns. */
  datatype Record = Record(title: string, date: string, tags: seq<string>, url: string)

  const UNTITLED := "Untitled"
  const UNKNOWN_DATE := "Unknown Date"

  // ---------------------------------------------------------------------
  // Title: /<title>([^|]+)/

  const TITLE_OPEN := "<title>"


  /** The title pattern can match at `i`: the opening tag, then at least one
      character other than `|`. */
  predicate TitleMatchesAt(s: string, i: nat) {
    OccursAt(s, i, TITLE_OPEN) && i + |TITLE_OPEN| < |s| && s[i + |TITLE_OPEN|] != '|'
  }

  function TitleAt(s: string): nat -> bool {
    (i: nat) => TitleMatchesAt(s, i)
  }

  /** The capture group of the leftmost match: the longest run of non-`|`
      characters after the tag. Nothing makes it stop at `</title>`. */
  function TitleCapture(s: string): (r: Option<string>)
    ensures r.None? <==> forall i :: 0 <= i < |s| ==> !TitleMatchesAt(s, i)
    ensures r.Some? ==> r.value != [] && '|' !in r.value
  {
    match Leftmost(|s|, 0, TitleAt(s))
    case None =>
      assert forall j :: 0 <= j < |s| ==> !TitleMatchesAt(s, j) by {
        forall j | 0 <= j < |s| ensures !TitleMatchesAt(s, j) { assert !TitleAt(s)(j); }
      }
      None
    case Some(i) =>
      var start := i + |TITLE_OPEN|;
      Some(s[start..SpanWhile(s, start, Other('|'))])
  }

  /** `titleMatch ? titleMatch[1].trim() : "Untitled"`. */
  function ExtractTitle(s: string): (t: string)
    ensures '|' !in t
    ensures (forall i :: 0 <= i < |s| ==> !TitleMatchesAt(s, i)) ==> t == UNTITLED
  {
    match TitleCapture(s)
    case None => UNTITLED
    case Some(c) =>
      TrimKeepsChars(c);
      Trim(c)
  }

  /** The title is the trimmed text from the first `<title>` that is followed
      by a character other than `|` up to the next `|`, or to the end of the
      content when no `|` follows. */
  lemma TitleIsTextUpToPipe(s: string, i: nat, k: nat)
    requires TitleMatchesAt(s, i) && forall j :: 0 <= j < i ==> !TitleMatchesAt(s, j)
    requires i + |TITLE_OPEN| < k <= |s| && (k == |s| || s[k] == '|')
    requires forall j :: i + |TITLE_OPEN| <= j < k ==> s[j] != '|'
    ensures ExtractTitle(s) == Trim(s[i + |TITLE_OPEN|..k])
  {
    LeftmostIs(|s|, 0, TitleAt(s), i);
    SpanWhileStopsAt(s, i + |TITLE_OPEN|, Other('|'), k);
  }

  /** Content that is `<title>` followed by text without `|` and without
      surrounding white space has that whole text as its title. */
  lemma TitleOfOpeningTagThenText(body: string)
    requires body != [] && '|' !in body
    requires !IsSpace(body[0]) && !IsSpace(body[|body| - 1])
    ensures ExtractTitle(TITLE_OPEN + body) == body
  {
    OpeningTagThenText(body);
    TitleIsTextUpToPipe(TITLE_OPEN + body, 0, |TITLE_OPEN + body|);
    TrimUnchanged(body);
  }

  lemma OpeningTagThenText(body: string)
    requires body != [] && '|' !in body
    ensures var s := TITLE_OPEN + body;
            TitleMatchesAt(s, 0) && s[|TITLE_OPEN|..|s|] == body &&
            forall j :: |TITLE_OPEN| <= j < |s| ==> s[j] != '|'
  {
    var s := TITLE_OPEN + body;
    var n := |TITLE_OPEN|;
    assert s[0..n] == TITLE_OPEN && s[n..|s|] == body;
    assert s[n] == body[0];
    forall j | n <= j < |s| ensures s[j] != '|' {
      assert s[j] == body[j - n];
    }
  }

  /** In particular the title runs past `</title>`: when the content opens
      with `<title>` and has no `|` at all, the title is the rest of the
      content, closing tag and all. */
  lemma TitleRunsPastClosingTag(name: string, rest: string)
    requires name != [] && !IsSpace(name[0]) && '|' !in name + rest
    requires rest != [] && !IsSpace(rest[|rest| - 1])
    ensures ExtractTitle(TITLE_OPEN + (name + "</title>" + rest)) == name + "</title>" + rest
  {
    var body := name + "</title>" + rest;
    assert '|' !in body by {
      assert '|' !in "</title>";
      forall x | x in body ensures x != '|' {
        assert x in name + rest || x in "</title>";
      }
    }
    assert body[0] == name[0] && body[|body| - 1] == rest[|rest| - 1];
    TitleOfOpeningTagThenText(body);
  }

  // ---------------------------------------------------------------------
  // Movie titles: title.replace(/^Movie Review:\s*/, "")

  const MOVIE_PREFIX := "Movie Review:"

  /** A leading `Movie Review:` is dropped together with all white space
      after it; any other title is returned as it is. */
  function StripMovieReview(title: string): (r: string)
    ensures !(MOVIE_PREFIX <= title) ==> r == title
    ensures MOVIE_PREFIX <= title ==>
              |MOVIE_PREFIX| + |r| <= |title| && title[|title| - |r|..] == r &&
              AllSpace(title[|MOVIE_PREFIX|..|title| - |r|]) &&
              (r == [] || !IsSpace(r[0]))
  {
    if MOVIE_PREFIX <= title then
      var rest := title[|MOVIE_PREFIX|..];
      var k := SpanWhile(rest, 0, IsSpace);
      assert title[|MOVIE_PREFIX|..|MOVIE_PREFIX| + k] == rest[..k];
      rest[k..]
    else title
  }

  // ---------------------------------------------------------------------
  // Date: /<div class="post-meta"[^>]*>\s*([^<\n]+)/

  const DATE_OPEN := "<div class=\"post-meta\""


  predicate IsDateChar(c: char) { c != '<' && c != '\n' }

  /** `([^<\n]+)` can start at `m`. */
  function CaptureStartAt(s: string): nat -> bool {
    (m: nat) => m < |s| && IsDateChar(s[m])
  }

  /** The capture span of the date pattern when the match starts at `i`.
      `[^>]*` runs to the first `>` and can never give characters back. The
      greedy `\s*` can: when the character after the white space cannot
      start the capture, the engine retries from the last white-space
      character that is not a newline, and captures that one character. */
  function DateCaptureAt(s: string, i: nat): (r: Option<(nat, nat)>)
    ensures r.Some? ==> OccursAt(s, i, DATE_OPEN)
    ensures r.Some? ==> i + |DATE_OPEN| < r.value.0 < r.value.1 <= |s|
    ensures r.Some? ==> forall j :: r.value.0 <= j < r.value.1 ==> IsDateChar(s[j])
  {
    if !OccursAt(s, i, DATE_OPEN) then None
    else
      var g := SpanWhile(s, i + |DATE_OPEN|, Other('>'));
      if g == |s| then None else CaptureAfter(s, g, SpanWhile(s, g + 1, IsSpace))
  }

  /** The capture span once `[^>]*>` has ended at `g` and `\s*` has run
      to `k`: `[^<\n]+` starts at `k` or, giving characters back, at the
      last position before it where it can. */
  function CaptureAfter(s: string, g: nat, k: nat): (r: Option<(nat, nat)>)
    requires g < k <= |s|
    ensures r.Some? ==> g < r.value.0 < r.value.1 <= |s|
    ensures r.Some? ==> forall j :: r.value.0 <= j < r.value.1 ==> IsDateChar(s[j])
  {
    match Rightmost(g + 1, k + 1, CaptureStartAt(s))
    case None => None
    case Some(m) => Some((m, SpanWhile(s, m, IsDateChar)))
  }

  function DateAt(s: string): nat -> bool {
    (i: nat) => DateCaptureAt(s, i).Some?
  }

  /** The capture group of the leftmost match of the date pattern. */
  function DateCapture(s: string): (r: Option<string>)
    ensures r.None? <==> forall i :: 0 <= i < |s| ==> DateCaptureAt(s, i).None?
    ensures r.Some? ==> r.value != [] && '<' !in r.value && '\n' !in r.value
  {
    match Leftmost(|s|, 0, DateAt(s))
    case None =>
      NoDateMatch(s);
      None
    case Some(i) =>
      var span := DateCaptureAt(s, i).value;
      DateCharsOnly(s, span.0, span.1);
      Some(s[span.0..span.1])
  }

  lemma NoDateMatch(s: string)
    requires Leftmost(|s|, 0, DateAt(s)).None?
    ensures forall i :: 0 <= i < |s| ==> DateCaptureAt(s, i).None?
  {
    forall j | 0 <= j < |s| ensures DateCaptureAt(s, j).None? {
      NotDateAt(s, j);
    }
  }

  lemma NotDateAt(s: string, j: nat)
    requires j < |s| && Leftmost(|s|, 0, DateAt(s)).None?
    ensures DateCaptureAt(s, j).None?
  {
    assert !DateAt(s)(j);
  }

  lemma DateCharsOnly(s: string, a: nat, b: nat)
    requires a <= b <= |s| && forall j :: a <= j < b ==> IsDateChar(s[j])
    ensures '<' !in s[a..b] && '\n' !in s[a..b]
  {
    forall x | x in s[a..b] ensures IsDateChar(x) {
      var j :| a <= j < b && s[j] == x;
    }
  }

  /** `dateMatch ? dateMatch[1].trim() : "Unknown Date"`. */
  function ExtractDate(s: string): (d: string)
    ensures '<' !in d && '\n' !in d
    ensures (forall i :: 0 <= i < |s| ==> DateCaptureAt(s, i).None?) ==> d == UNKNOWN_DATE
  {
    match DateCapture(s)
    case None => UNKNOWN_DATE
    case Some(c) =>
      TrimKeepsChars(c);
      Trim(c)
  }

  /** Without any `<div class="post-meta"` the date is the placeholder. */
  lemma DateMissing(s: string)
    requires forall i :: 0 <= i < |s| ==> !OccursAt(s, i, DATE_OPEN)
    ensures ExtractDate(s) == UNKNOWN_DATE
  {
  }

  /** The ordinary case: after the leftmost `<div class="post-meta"` at
      which the pattern matches and the first `>` following it, skip white
      space; the date is the rest of that line up to the first `<` or
      newline, trimmed. */
  lemma DateIsFirstTextLine(s: string, i: nat, g: nat, k: nat, e: nat)
    requires OccursAt(s, i, DATE_OPEN) && forall j :: 0 <= j < i ==> DateCaptureAt(s, j).None?
    requires i + |DATE_OPEN| <= g < |s| && s[g] == '>'
    requires forall j :: i + |DATE_OPEN| <= j < g ==> s[j] != '>'
    requires g < k < |s| && (forall j :: g < j < k ==> IsSpace(s[j])) && !IsSpace(s[k]) && s[k] != '<'
    requires k < e <= |s| && (forall j :: k <= j < e ==> IsDateChar(s[j]))
    requires e == |s| || !IsDateChar(s[e])
    ensures ExtractDate(s) == Trim(s[k..e])
  {
    DateCaptureIs(s, i, g, k, e);
    FirstDateMatch(s, i, k, e);
  }

  /** The leftmost position at which the date pattern matches decides the
      capture; meta `div`s before it at which the pattern fails are
      skipped. */
  lemma FirstDateMatch(s: string, i: nat, a: nat, b: nat)
    requires forall j :: 0 <= j < i ==> DateCaptureAt(s, j).None?
    requires DateCaptureAt(s, i) == Some((a, b))
    ensures a <= b <= |s| && DateCapture(s) == Some(s[a..b])
  {
    forall j | 0 <= j < i ensures !DateAt(s)(j) {
    }
    assert DateAt(s)(i);
    LeftmostIs(|s|, 0, DateAt(s), i);
  }

  /** A meta `div` whose `>` is followed only by line breaks before the next
      `<` (or the end) is not a match: `[^<\n]+` finds nothing to capture
      even after `\s*` gives its characters back, and the search moves on. */
  lemma MetaWithoutTextFails(s: string, i: nat, g: nat, k: nat)
    requires OccursAt(s, i, DATE_OPEN)
    requires i + |DATE_OPEN| <= g < |s| && s[g] == '>'
    requires forall j :: i + |DATE_OPEN| <= j < g ==> s[j] != '>'
    requires g < k <= |s| && (forall j :: g < j < k ==> s[j] == '\n')
    requires k == |s| || s[k] == '<'
    ensures DateCaptureAt(s, i).None?
  {
    SpanWhileStopsAt(s, i + |DATE_OPEN|, Other('>'), g);
    SpanWhileStopsAt(s, g + 1, IsSpace, k);
    forall j | g + 1 <= j < k + 1 ensures !CaptureStartAt(s)(j) {
    }
  }

  lemma DateCaptureIs(s: string, i: nat, g: nat, k: nat, e: nat)
    requires OccursAt(s, i, DATE_OPEN)
    requires i + |DATE_OPEN| <= g < |s| && s[g] == '>'
    requires forall j :: i + |DATE_OPEN| <= j < g ==> s[j] != '>'
    requires g < k < |s| && (forall j :: g < j < k ==> IsSpace(s[j])) && !IsSpace(s[k]) && s[k] != '<'
    requires k < e <= |s| && (forall j :: k <= j < e ==> IsDateChar(s[j]))
    requires e == |s| || !IsDateChar(s[e])
    ensures DateCaptureAt(s, i) == Some((k, e))
  {
    SpanWhileStopsAt(s, i + |DATE_OPEN|, Other('>'), g);
    SpanWhileStopsAt(s, g + 1, IsSpace, k);
    RightmostIs(g + 1, k + 1, CaptureStartAt(s), k);
    SpanWhileStopsAt(s, k, IsDateChar, e);
    DateCaptureSteps(s, i, g, k, k, e);
  }

  /** The steps of `DateCaptureAt`, once each scan's stopping point is
      known. */
  lemma DateCaptureSteps(s: string, i: nat, g: nat, k: nat, m: nat, e: nat)
    requires OccursAt(s, i, DATE_OPEN) && i + |DATE_OPEN| <= g < |s|
    requires SpanWhile(s, i + |DATE_OPEN|, Other('>')) == g
    requires SpanWhile(s, g + 1, IsSpace) == k
    requires Rightmost(g + 1, k + 1, CaptureStartAt(s)) == Some(m)
    requires SpanWhile(s, m, IsDateChar) == e
    ensures DateCaptureAt(s, i) == Some((m, e))
  {
    assert CaptureAfter(s, g, k) == Some((m, e));
  }

  /** The backtracking corner: when only white space separates the tag's
      `>` from a following `<`, and its last character is not a line break
      (a single space, or a line break and then indentation), that last
      character is captured by itself, so the date comes out empty rather
      than as the placeholder. */
  lemma DateEmptyBeforeMarkup(s: string, i: nat, g: nat, k: nat)
    requires OccursAt(s, i, DATE_OPEN) && forall j :: 0 <= j < i ==> DateCaptureAt(s, j).None?
    requires i + |DATE_OPEN| <= g < |s| && s[g] == '>'
    requires forall j :: i + |DATE_OPEN| <= j < g ==> s[j] != '>'
    requires g + 1 < k < |s| && (forall j :: g < j < k ==> IsSpace(s[j]))
    requires s[k - 1] != '\n' && s[k] == '<'
    ensures ExtractDate(s) == ""
  {
    DateCaptureBeforeMarkup(s, i, g, k);
    FirstDateMatch(s, i, k - 1, k);
    LoneSpaceTrims(s, k - 1);
  }

  lemma LoneSpaceTrims(s: string, k: nat)
    requires k < |s| && IsSpace(s[k])
    ensures Trim(s[k..k + 1]) == ""
  {
    assert AllSpace(s[k..k + 1]);
    TrimAllSpace(s[k..k + 1]);
  }

  lemma DateCaptureBeforeMarkup(s: string, i: nat, g: nat, k: nat)
    requires OccursAt(s, i, DATE_OPEN)
    requires i + |DATE_OPEN| <= g < |s| && s[g] == '>'
    requires forall j :: i + |DATE_OPEN| <= j < g ==> s[j] != '>'
    requires g + 1 < k < |s| && (forall j :: g < j < k ==> IsSpace(s[j]))
    requires s[k - 1] != '\n' && s[k] == '<'
    ensures DateCaptureAt(s, i) == Some((k - 1, k))
  {
    DateScansStop(s, i, g, k);
    CaptureBeforeLt(s, g, k);
    DateCaptureSteps(s, i, g, k, k - 1, k);
  }

  /** `[^>]*` stops at the first `>`, and `\s*` after it at the first
      character that is not white space. */
  lemma DateScansStop(s: string, i: nat, g: nat, k: nat)
    requires OccursAt(s, i, DATE_OPEN)
    requires i + |DATE_OPEN| <= g < |s| && s[g] == '>'
    requires forall j :: i + |DATE_OPEN| <= j < g ==> s[j] != '>'
    requires g < k < |s| && (forall j :: g < j < k ==> IsSpace(s[j])) && !IsSpace(s[k])
    ensures SpanWhile(s, i + |DATE_OPEN|, Other('>')) == g
    ensures SpanWhile(s, g + 1, IsSpace) == k
  {
    SpanWhileStopsAt(s, i + |DATE_OPEN|, Other('>'), g);
    SpanWhileStopsAt(s, g + 1, IsSpace, k);
  }

  /** White space other than a line break just before a `<` is where the
      capture starts after backtracking, and it is captured alone. */
  lemma CaptureBeforeLt(s: string, g: nat, k: nat)
    requires g + 1 < k < |s| && IsSpace(s[k - 1]) && s[k - 1] != '\n' && s[k] == '<'
    ensures Rightmost(g + 1, k + 1, CaptureStartAt(s)) == Some(k - 1)
    ensures SpanWhile(s, k - 1, IsDateChar) == k
  {
    RightmostIs(g + 1, k + 1, CaptureStartAt(s), k - 1);
    SpanWhileStopsAt(s, k - 1, IsDateChar, k);
  }

  // ---------------------------------------------------------------------
  // Tags: /href="\/tags\/([^"]+)"/g

  const TAG_HREF := "href=\"/tags/"


  /** The tag-link pattern matches at `i`; the value is the index of the
      closing quote. `[^"]+` cannot give characters back usefully, since the
      next character would then not be a quote. */
  function TagLinkAt(s: string, i: nat): (r: Option<nat>)
    ensures r.Some? ==> OccursAt(s, i, TAG_HREF) && i + |TAG_HREF| < r.value < |s|
    ensures r.Some? ==> s[r.value] == '"' && '"' !in s[i + |TAG_HREF|..r.value]
  {
    if !OccursAt(s, i, TAG_HREF) then None
    else
      var k := SpanWhile(s, i + |TAG_HREF|, Other('"'));
      if i + |TAG_HREF| < k < |s| then Some(k) else None
  }

  /** A whole match of the tag-link pattern: `href="/tags/`, a slug without
      quotes, and the closing quote. */
  predicate IsTagMatch(m: string) {
    |m| > |TAG_HREF| + 1 && m[..|TAG_HREF|] == TAG_HREF && m[|m| - 1] == '"' &&
    '"' !in m[|TAG_HREF|..|m| - 1]
  }

  /** `content.match(pattern)` with the global flag from index `i` on: every
      match, left to right, each search resuming after the previous match. */
  function TagMatches(s: string, i: nat): (ms: seq<string>)
    requires i <= |s|
    ensures forall k :: 0 <= k < |ms| ==> IsTagMatch(ms[k])
    decreases |s| - i
  {
    if i == |s| then []
    else
      match TagLinkAt(s, i)
      case Some(k) =>
        var m := s[i..k + 1];
        assert m[..|TAG_HREF|] == s[i..i + |TAG_HREF|];
        assert m[|TAG_HREF|..|m| - 1] == s[i + |TAG_HREF|..k];
        [m] + TagMatches(s, k + 1)
      case None => TagMatches(s, i + 1)
  }

  lemma {:induction false} TagMatchesEmptyIffNoLink(s: string, i: nat)
    requires i <= |s|
    ensures TagMatches(s, i) == [] <==> forall j :: i <= j < |s| ==> TagLinkAt(s, j).None?
    decreases |s| - i
  {
    if i < |s| && TagLinkAt(s, i).None? {
      TagMatchesEmptyIffNoLink(s, i + 1);
    }
  }

  /** `m.split("/")[2].replace('"', "")`: the slug up to its first `/`, or
      the whole slug when it has none. */
  function TagOfMatch(m: string): (tag: string)
    requires IsTagMatch(m)
    ensures '/' !in tag && '"' !in tag
    ensures tag <= m[|TAG_HREF|..|m| - 1]
    ensures |tag| == |m| - |TAG_HREF| - 1 || m[|TAG_HREF| + |tag|] == '/'
  {
    var slug := m[|TAG_HREF|..|m| - 1];
    var tail := slug + "\"";
    ThirdPieceOfMatch(m);
    var k := SpanWhile(tail, 0, Other('/'));
    if k < |tail| then
      assert tail[k] == '/';
      assert k < |slug|;
      assert tail[..k] == slug[..k];
      RemoveFirst(tail[..k], '"')
    else
      var tag := RemoveFirst(tail, '"');
      assert tag == slug by { RemoveLastQuote(slug); }
      tag
  }

  /** The third piece of `m.split("/")` is the slug and its closing quote, up
      to the first `/`. */
  lemma ThirdPieceOfMatch(m: string)
    requires IsTagMatch(m)
    ensures var tail := m[|TAG_HREF|..];
            |Split(m, '/')| > 2 && Split(m, '/')[2] == tail[..SpanWhile(tail, 0, Other('/'))]
  {
    var tail := m[|TAG_HREF|..];
    assert m == m[..|TAG_HREF|] + tail;
    TagHrefPieces();
    ThirdPiece("href=\"", "tags", tail);
  }

  /** The tag-link prefix is `href="`, a slash, `tags` and a slash. */
  lemma TagHrefPieces()
    ensures TAG_HREF == "href=\"" + ['/'] + "tags" + ['/']
    ensures '/' !in "href=\"" && '/' !in "tags"
  {
  }

  /** Two slash-free pieces, each followed by a slash: the third piece of
      the split is what follows, up to its first slash. */
  lemma ThirdPiece(p0: string, p1: string, tail: string)
    requires '/' !in p0 && '/' !in p1
    ensures var s := p0 + ['/'] + p1 + ['/'] + tail;
            |Split(s, '/')| > 2 && Split(s, '/')[2] == tail[..SpanWhile(tail, 0, Other('/'))]
  {
    assert p0 + ['/'] + p1 + ['/'] + tail == p0 + ['/'] + (p1 + ['/'] + tail);
    SplitAfterPiece(p0, p1 + ['/'] + tail, '/');
    SplitAfterPiece(p1, tail, '/');
    SplitHead(tail, '/');
  }

  lemma RemoveLastQuote(slug: string)
    requires '"' !in slug
    ensures RemoveFirst(slug + "\"", '"') == slug
  {
    var t := slug + "\"";
    SpanWhileStopsAt(t, 0, Other('"'), |slug|);
    assert t[..|slug|] == slug;
  }

  /** The slug of every match, in match order. */
  function TagsOfMatches(ms: seq<string>): (tags: seq<string>)
    requires forall k :: 0 <= k < |ms| ==> IsTagMatch(ms[k])
    ensures |tags| == |ms|
    ensures forall k :: 0 <= k < |ms| ==> tags[k] == TagOfMatch(ms[k])
  {
    seq(|ms|, k requires 0 <= k < |ms| => TagOfMatch(ms[k]))
  }

  /** `tagMatches ? [...new Set(tagMatches.map(...))] : []`. */
  function ExtractTags(s: string): (tags: seq<string>)
    ensures NoDup(tags)
    ensures forall t :: t in tags ==> '/' !in t && '"' !in t
    ensures tags == [] <==> forall j :: 0 <= j < |s| ==> TagLinkAt(s, j).None?
    ensures forall t :: t in tags <==>
              exists k :: 0 <= k < |TagMatches(s, 0)| && t == TagOfMatch(TagMatches(s, 0)[k])
  {
    var ms := TagMatches(s, 0);
    TagMatchesEmptyIffNoLink(s, 0);
    var all := TagsOfMatches(ms);
    forall t ensures t in all <==> exists k :: 0 <= k < |ms| && t == TagOfMatch(ms[k]) {
      if t in all {
        var k :| 0 <= k < |all| && all[k] == t;
      }
    }
    Dedupe(all)
  }

  /** The first tag link on the page gives the first tag. */
  lemma FirstTagLink(s: string, j: nat)
    requires j < |s| && TagLinkAt(s, j).Some?
    requires forall i :: 0 <= i < j ==> TagLinkAt(s, i).None?
    ensures var m := s[j..TagLinkAt(s, j).value + 1];
            IsTagMatch(m) && ExtractTags(s) != [] && ExtractTags(s)[0] == TagOfMatch(m)
  {
    var ms := TagMatches(s, 0);
    TagMatchesSkip(s, 0, j);
    var all := TagsOfMatches(ms);
    assert ExtractTags(s) == Dedupe(all);
    DedupeHead(all);
  }

  /** Positions without a tag link are skipped by the global search. */
  lemma {:induction false} TagMatchesSkip(s: string, i: nat, j: nat)
    requires i <= j <= |s| && forall x :: i <= x < j ==> TagLinkAt(s, x).None?
    ensures TagMatches(s, i) == TagMatches(s, j)
    decreases j - i
  {
    if i < j {
      TagMatchesSkip(s, i + 1, j);
    }
  }

  /** The tags are listed in order of first occurrence among the tag links. */
  lemma TagsInFirstSeenOrder(s: string)
    ensures var all := TagsOfMatches(TagMatches(s, 0));
            forall i, j :: 0 <= i < j < |ExtractTags(s)| ==>
              ExtractTags(s)[i] in all && ExtractTags(s)[j] in all &&
              FirstIndex(all, ExtractTags(s)[i]) < FirstIndex(all, ExtractTags(s)[j])
  {
    var all := TagsOfMatches(TagMatches(s, 0));
    assert ExtractTags(s) == Dedupe(all);
    DedupeKeepsFirstSeenOrder(all);
  }

  // ---------------------------------------------------------------------
  // The whole record

  /** `/${type}/${filename}`: the directory's name between slashes, then
      the file name. */
  function Url(category: Category, filename: string): (u: string)
    ensures var n := |category.Name()| + 2;
            n <= |u| && u[..n] == "/" + category.Name() + "/" && u[n..] == filename
  {
    var dir := "/" + category.Name() + "/";
    assert (dir + filename)[..|dir|] == dir;
    dir + filename
  }

  function ExtractMetadata(content: string, filename: string, category: Category): (r: Record)
    ensures r.url == Url(category, filename)
    ensures NoDup(r.tags) && '<' !in r.date && '\n' !in r.date
    ensures r.date == ExtractDate(content) && r.tags == ExtractTags(content)
    ensures category == Posts ==> r.title == ExtractTitle(content)
    ensures category == Movies ==> r.title == StripMovieReview(ExtractTitle(content))
  {
    var title := ExtractTitle(content);
    Record(
      if category == Movies then StripMovieReview(title) else title,
      ExtractDate(content),
      ExtractTags(content),
      Url(category, filename))
  }

  /** Records of different files in one directory, or of files in different
      directories, never share a URL. */
  lemma UrlsDistinct(c1: Category, f1: string, c2: Category, f2: string)
    requires c1 != c2 || f1 != f2
    ensures Url(c1, f1) != Url(c2, f2)
  {
    if c1 != c2 {
      assert Url(c1, f1)[1] != Url(c2, f2)[1];
    } else {
      var n := |c1.Name()| + 2;
      assert Url(c1, f1)[n..] == f1 && Url(c2, f2)[n..] == f2;
    }
  }

  /** The files a directory scan reads: names ending in `.html`, and in the
      movies directory not the listing page `movies.html` itself. */
  predicate IsSelected(category: Category, name: string) {
    EndsWith(name, ".html") && (category == Movies ==> name != "movies.html")
  }
}
