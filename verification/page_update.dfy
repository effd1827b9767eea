/**
 * `updateMainPages`: the list region of `index.html`, `posts.html` and
 * `movies.html` is rewritten with the rendered list of items.
 *
 * The region is what the regular expression
 * `/<!-- POSTS_LIST_START -->[\s\S]*<!-- POSTS_LIST_END -->/` matches: it
 * starts at the first start marker and, the `[\s\S]*` being greedy, ends
 * with the last end marker after it. `String.prototype.replace` with a
 * string replacement then expands the `$` patterns of the replacement text
 * (ECMAScript, section 22.1.3.19.1 GetSubstitution), which is modelled too.
 */
module PageUpdate {
  import opened Wrappers
  import opened Text
  import opened Metadata
  import opened Render

  const LIST_START := "<!-- POSTS_LIST_START -->"
  const LIST_END := "<!-- POSTS_LIST_END -->"

  /** A start marker at `p` and an end marker at `q`, not overlapping it:
      a match of the region pattern from `p` to `q + |LIST_END|`. */
  predicate IsRegion(s: string, p: nat, q: nat) {
    OccursAt(s, p, LIST_START) && OccursAt(s, q, LIST_END) && p + |LIST_START| <= q
  }

  function StartAt(s: string): nat -> bool {
    (p: nat) => OccursAt(s, p, LIST_START)
  }

  function EndAt(s: string): nat -> bool {
    (q: nat) => OccursAt(s, q, LIST_END)
  }

  /** The positions of the two markers the region pattern matches, if it
      matches: the leftmost start marker, and the rightmost end marker,
      provided it comes after that start marker. */
  function RegionMatch(s: string): (r: Option<(nat, nat)>)
    ensures r.Some? ==> r.value.0 + |LIST_START| <= r.value.1 && r.value.1 + |LIST_END| <= |s|
  {
    match Leftmost(|s|, 0, StartAt(s))
    case None => None
    case Some(p) =>
      FirstStart(s, p);
      match Rightmost(p + |LIST_START|, |s|, EndAt(s))
      case None => None
      case Some(q) => Some((p, q))
  }

  /** `RegionMatch` finds a region exactly when there is one; it then
      spans from the first start marker to the last end marker after it,
      and so contains every other region. */
  lemma RegionMatchSpec(s: string)
    ensures RegionMatch(s).None? <==> forall p: nat, q: nat :: !IsRegion(s, p, q)
    ensures RegionMatch(s).Some? ==> IsRegion(s, RegionMatch(s).value.0, RegionMatch(s).value.1)
    ensures RegionMatch(s).Some? ==>
              forall p: nat, q: nat :: IsRegion(s, p, q) ==> RegionMatch(s).value.0 <= p && q <= RegionMatch(s).value.1
    ensures RegionMatch(s).Some? ==> forall j: nat :: j < RegionMatch(s).value.0 ==> !OccursAt(s, j, LIST_START)
    ensures RegionMatch(s).Some? ==> forall j: nat :: RegionMatch(s).value.1 < j ==> !OccursAt(s, j, LIST_END)
  {
    match Leftmost(|s|, 0, StartAt(s))
    case None =>
      NoStart(s);
    case Some(p) =>
      FirstStart(s, p);
      match Rightmost(p + |LIST_START|, |s|, EndAt(s))
      case None =>
        NoEndAfter(s, p);
      case Some(q) =>
        LastEnd(s, p, q);
  }

  lemma NoStart(s: string)
    requires Leftmost(|s|, 0, StartAt(s)).None?
    ensures forall p: nat :: !OccursAt(s, p, LIST_START)
  {
    forall p: nat ensures !OccursAt(s, p, LIST_START) {
      if p < |s| {
        assert !StartAt(s)(p);
      }
    }
  }

  lemma FirstStart(s: string, p: nat)
    requires Leftmost(|s|, 0, StartAt(s)) == Some(p)
    ensures OccursAt(s, p, LIST_START)
    ensures forall j: nat :: j < p ==> !OccursAt(s, j, LIST_START)
  {
    forall j: nat | j < p ensures !OccursAt(s, j, LIST_START) {
      assert !StartAt(s)(j);
    }
  }

  lemma NoEndAfter(s: string, p: nat)
    requires OccursAt(s, p, LIST_START) && forall j: nat :: j < p ==> !OccursAt(s, j, LIST_START)
    requires Rightmost(p + |LIST_START|, |s|, EndAt(s)).None?
    ensures forall p': nat, q: nat :: !IsRegion(s, p', q)
  {
    forall p': nat, q: nat ensures !IsRegion(s, p', q) {
      if OccursAt(s, p', LIST_START) && p' + |LIST_START| <= q < |s| {
        assert p <= p';
        assert !EndAt(s)(q);
      }
    }
  }

  lemma LastEnd(s: string, p: nat, q: nat)
    requires OccursAt(s, p, LIST_START) && forall j: nat :: j < p ==> !OccursAt(s, j, LIST_START)
    requires Rightmost(p + |LIST_START|, |s|, EndAt(s)) == Some(q)
    ensures IsRegion(s, p, q)
    ensures forall p': nat, q': nat :: IsRegion(s, p', q') ==> p <= p' && q' <= q
    ensures forall j: nat :: q < j ==> !OccursAt(s, j, LIST_END)
  {
    assert EndAt(s)(q);
    forall j: nat | q < j ensures !OccursAt(s, j, LIST_END) {
      if j < |s| {
        assert !EndAt(s)(j);
      }
    }
  }

  /** GetSubstitution for a pattern without capture groups: `$$` is a
      dollar sign, `$&` the matched text, `` $` `` the text before the
      match, `$'` the text after it; every other character, including any
      other `$`, stands for itself. A replacement text without `$` is
      therefore inserted as it is. */
  function Substitute(repl: string, before: string, matched: string, after: string): (r: string)
    ensures '$' !in repl ==> r == repl
    decreases |repl|
  {
    if repl == [] then []
    else if repl[0] == '$' && |repl| >= 2 && repl[1] in "$&`'" then
      var piece :=
        if repl[1] == '$' then "$"
        else if repl[1] == '&' then matched
        else if repl[1] == '`' then before
        else after;
      piece + Substitute(repl[2..], before, matched, after)
    else
      assert repl == [repl[0]] + repl[1..];
      [repl[0]] + Substitute(repl[1..], before, matched, after)
  }

  /** A `$&` in the replacement text inserts the replaced region again. */
  lemma DollarAmpersandRepeatsMatch(before: string, matched: string, after: string)
    ensures Substitute("$&", before, matched, after) == matched
  {
    assert "$&"[2..] == [];
  }

  /** `content.replace(regex, repl)` when `regex.test(content)`; `None`
      when the pattern does not match and the page is left alone. */
  function ReplaceRegion(s: string, repl: string): (r: Option<string>)
    ensures r.None? <==> RegionMatch(s).None?
  {
    match RegionMatch(s)
    case None => None
    case Some((p, q)) =>
      var e := q + |LIST_END|;
      Some(s[..p] + Substitute(repl, s[..p], s[p..e], s[e..]) + s[e..])
  }

  /** With a `$`-free replacement, everything before the first start marker
      and after the last end marker is kept, and the region in between
      becomes the replacement. */
  lemma ReplaceKeepsOutside(s: string, repl: string, p: nat, q: nat)
    requires '$' !in repl && RegionMatch(s) == Some((p, q))
    ensures ReplaceRegion(s, repl) == Some(s[..p] + repl + s[q + |LIST_END|..])
  {
  }

  /** A text that is itself a region: it starts with the start marker, ends
      with the end marker, and the two do not overlap. */
  predicate IsMarked(repl: string) {
    |LIST_START| + |LIST_END| <= |repl| &&
    repl[..|LIST_START|] == LIST_START && repl[|repl| - |LIST_END|..] == LIST_END
  }

  /** After the replacement, the region the pattern matches is exactly the
      replacement text. */
  lemma RegionOfReplaced(s: string, repl: string, p: nat, q: nat)
    requires IsMarked(repl) && RegionMatch(s) == Some((p, q))
    ensures RegionMatch(s[..p] + repl + s[q + |LIST_END|..]) == Some((p, p + |repl| - |LIST_END|))
  {
    RegionMatchSpec(s);
    RegionOfReplacedAt(s, p, q, repl);
  }

  lemma RegionOfReplacedAt(s: string, p: nat, q: nat, repl: string)
    requires IsMarked(repl) && p <= q && q + |LIST_END| <= |s|
    requires forall j: nat :: j < p ==> !OccursAt(s, j, LIST_START)
    requires forall j: nat :: q < j ==> !OccursAt(s, j, LIST_END)
    ensures RegionMatch(s[..p] + repl + s[q + |LIST_END|..]) == Some((p, p + |repl| - |LIST_END|))
  {
    ReplacedStart(s, p, q, repl);
    ReplacedEnd(s, p, q, repl);
    RegionMatchIs(Spliced(s, p, q, repl), p, p + |repl| - |LIST_END|);
  }

  /** The page with the region from `p` to the end marker at `q` replaced. */
  function Spliced(s: string, p: nat, q: nat, repl: string): string
    requires p <= q && q + |LIST_END| <= |s|
  {
    s[..p] + repl + s[q + |LIST_END|..]
  }

  /** The two searches of `RegionMatch` determine its result. */
  lemma RegionMatchIs(t: string, p: nat, q: nat)
    requires Leftmost(|t|, 0, StartAt(t)) == Some(p)
    requires p + |LIST_START| <= |t|
    requires Rightmost(p + |LIST_START|, |t|, EndAt(t)) == Some(q)
    ensures RegionMatch(t) == Some((p, q))
  {
  }

  /** The first start marker of the new text is the one the replacement
      text begins with. */
  lemma ReplacedStart(s: string, p: nat, q: nat, repl: string)
    requires IsMarked(repl) && p <= q && q + |LIST_END| <= |s|
    requires forall j: nat :: j < p ==> !OccursAt(s, j, LIST_START)
    ensures p + |LIST_START| <= |Spliced(s, p, q, repl)|
    ensures Leftmost(|Spliced(s, p, q, repl)|, 0, StartAt(Spliced(s, p, q, repl))) == Some(p)
  {
    var b := s[q + |LIST_END|..];
    var t := s[..p] + repl + b;
    assert t[p..p + |LIST_START|] == repl[..|LIST_START|];
    forall j | 0 <= j < p ensures !StartAt(t)(j) {
      FirstStartKept(s, p, repl, b, j);
    }
    LeftmostIs(|t|, 0, StartAt(t), p);
  }

  /** The last end marker of the new text is the one the replacement text
      ends with. */
  lemma ReplacedEnd(s: string, p: nat, q: nat, repl: string)
    requires IsMarked(repl) && p <= q && q + |LIST_END| <= |s|
    requires forall j: nat :: q < j ==> !OccursAt(s, j, LIST_END)
    ensures p + |LIST_START| <= |Spliced(s, p, q, repl)|
    ensures Rightmost(p + |LIST_START|, |Spliced(s, p, q, repl)|, EndAt(Spliced(s, p, q, repl))) ==
            Some(p + |repl| - |LIST_END|)
  {
    var a := s[..p];
    var t := a + repl + s[q + |LIST_END|..];
    var q' := |a| + |repl| - |LIST_END|;
    assert t[q'..q' + |LIST_END|] == repl[|repl| - |LIST_END|..];
    forall j | q' < j < |t| ensures !EndAt(t)(j) {
      LastEndKept(s, q, repl, a, j);
    }
    RightmostIs(|a| + |LIST_START|, |t|, EndAt(t), q');
  }

  /** No `<` follows the first character of either marker, so no marker
      can overlap the start of another. */
  lemma MarkersHaveNoInnerLt()
    ensures forall k :: 0 < k < |LIST_START| ==> LIST_START[k] != '<'
    ensures forall k :: 0 < k < |LIST_END| ==> LIST_END[k] != '<'
  {
  }

  lemma FirstStartKept(s: string, p: nat, repl: string, b: string, j: nat)
    requires p <= |s| && j < p && !OccursAt(s, j, LIST_START)
    requires IsMarked(repl)
    ensures !OccursAt(s[..p] + repl + b, j, LIST_START)
  {
    var t := s[..p] + repl + b;
    var n := |LIST_START|;
    if j + n <= p {
      assert j + n <= |s|;
      assert t[j..j + n] == s[j..j + n];
    } else if j + n <= |t| {
      MarkersHaveNoInnerLt();
      assert t[p] == repl[0] == '<';
      assert t[j..j + n][p - j] != LIST_START[p - j];
    }
  }

  lemma LastEndKept(s: string, q: nat, repl: string, a: string, j: nat)
    requires q + |LIST_END| <= |s| && forall i: nat :: q < i ==> !OccursAt(s, i, LIST_END)
    requires IsMarked(repl)
    requires |a| + |repl| - |LIST_END| < j
    ensures !OccursAt(a + repl + s[q + |LIST_END|..], j, LIST_END)
  {
    var e := q + |LIST_END|;
    var t := a + repl + s[e..];
    var n := |LIST_END|;
    var k := |a| + |repl|;
    if k <= j && j + n <= |t| {
      var i := e + (j - k);
      assert !OccursAt(s, i, LIST_END);
      assert t[j..j + n] == s[i..i + n];
    } else if j < k && j + n <= |t| {
      MarkersHaveNoInnerLt();
      var m := j - (k - n);
      assert t[j] == repl[|repl| - n + m] == LIST_END[m];
      assert t[j..j + n][0] != LIST_END[0];
    }
  }

  /** Replacing twice with the same `$`-free marked text changes nothing
      the second time: running the build again leaves the pages as they are. */
  lemma ReplaceIdempotent(s: string, repl: string)
    requires IsMarked(repl) && '$' !in repl && RegionMatch(s).Some?
    ensures ReplaceRegion(s, repl).Some?
    ensures ReplaceRegion(ReplaceRegion(s, repl).value, repl) == ReplaceRegion(s, repl)
  {
    var m := RegionMatch(s).value;
    ReplaceTwice(s, repl, m.0, m.1);
  }

  lemma ReplaceTwice(s: string, repl: string, p: nat, q: nat)
    requires IsMarked(repl) && '$' !in repl && RegionMatch(s) == Some((p, q))
    ensures var t := s[..p] + repl + s[q + |LIST_END|..];
            ReplaceRegion(s, repl) == Some(t) && ReplaceRegion(t, repl) == Some(t)
  {
    var a, b := s[..p], s[q + |LIST_END|..];
    var t := a + repl + b;
    var q' := p + |repl| - |LIST_END|;
    ReplaceKeepsOutside(s, repl, p, q);
    RegionOfReplaced(s, repl, p, q);
    assert RegionMatch(t) == Some((p, q'));
    ReplaceKeepsOutside(t, repl, p, q');
    assert t[..|a|] == a && t[|a| + |repl|..] == b;
    assert |a| == p && q' + |LIST_END| == |a| + |repl|;
  }

  // ---------------------------------------------------------------------
  // The list each page shows

  /** `config.limit ? config.items.slice(0, config.limit) : config.items`:
      a missing limit, or a limit of 0, shows every item. */
  function ItemsToShow(items: seq<Record>, limit: Option<nat>): (shown: seq<Record>)
    ensures shown <= items
    ensures |shown| == if limit.Some? && limit.value != 0 && limit.value < |items|
                       then limit.value else |items|
  {
    if limit.Some? && limit.value != 0 && limit.value < |items|
    then items[..limit.value]
    else items
  }

  /** The template literal that replaces the region. It is itself a
      region, with the rendered items on the lines between the two
      markers. */
  function NewListHtml(items: seq<Record>): (html: string)
    ensures IsMarked(html)
    ensures |html| == |LIST_START| + 1 + |GeneratePostListHtml(items)| + 1 + |ITEM_INDENT| + |LIST_END|
    ensures html[|LIST_START| + 1..|html| - |ITEM_INDENT| - |LIST_END| - 1] == GeneratePostListHtml(items)
  {
    Framed(LIST_START, "\n", GeneratePostListHtml(items), "\n", ITEM_INDENT, LIST_END);
    LIST_START + "\n" + GeneratePostListHtml(items) + "\n" + ITEM_INDENT + LIST_END
  }

  /** The outer pieces of a concatenation of six, and the middle one,
      sliced back out. */
  lemma Framed(a: string, b: string, m: string, c: string, d: string, e: string)
    ensures var t := a + b + m + c + d + e;
            |t| == |a| + |b| + |m| + |c| + |d| + |e| &&
            t[..|a|] == a && t[|t| - |e|..] == e &&
            t[|a| + |b|..|t| - |d| - |e| - |c|] == m
  {
    var t := a + b + m + c + d + e;
    assert t == a + (b + m + c + d + e);
    assert t == (a + b + m + c + d) + e;
    assert t == (a + b) + m + (c + d + e);
  }

  predicate DollarFree(r: Record) {
    '$' !in r.url && '$' !in r.date && '$' !in r.title
  }

  /** Items without `$` in their fields render a list without `$`. */
  lemma {:induction false} NoDollarInList(items: seq<Record>)
    requires forall r :: r in items ==> DollarFree(r)
    ensures '$' !in GeneratePostListHtml(items)
    decreases |items|
  {
    if items != [] {
      assert items[0] in items;
      NoDollarInFragment(items[0]);
      if |items| > 1 {
        NoDollarInList(items[1..]);
      }
    }
  }

  lemma NoDollarInFragment(r: Record)
    requires DollarFree(r)
    ensures '$' !in Fragment(r)
  {
    NoDollarInTemplate();
  }

  lemma NoDollarInTemplate()
    ensures '$' !in LINK_OPEN && '$' !in DATE_SPAN_OPEN && '$' !in TITLE_SPAN_OPEN && '$' !in LINK_CLOSE
  {
  }

  /** Hence the new list itself has no `$`, and `replace` inserts it
      literally. */
  lemma NoDollarInNewList(items: seq<Record>)
    requires forall r :: r in items ==> DollarFree(r)
    ensures '$' !in NewListHtml(items)
  {
    var list := GeneratePostListHtml(items);
    NoDollarInList(items);
    NoDollarInMarkers();
  }

  lemma NoDollarInMarkers()
    ensures '$' !in LIST_START && '$' !in LIST_END && '$' !in ITEM_INDENT
  {
  }

  // ---------------------------------------------------------------------
  // updateMainPages

  datatype ListSource = AllPosts | AllMovies

  /** One entry of the `configs` array. */
  datatype PageConfig = PageConfig(file: string, items: ListSource, limit: Option<nat>)

  const CONFIGS: seq<PageConfig> := [
    PageConfig("index.html", AllPosts, Some(5)),
    PageConfig("posts.html", AllPosts, None),
    PageConfig("movies.html", AllMovies, None)
  ]

  lemma ConfigFilesDistinct()
    ensures forall k, l :: 0 <= k < l < |CONFIGS| ==> CONFIGS[k].file != CONFIGS[l].file
  {
  }

  function ListOf(source: ListSource, allPosts: seq<Record>, allMovies: seq<Record>): seq<Record> {
    match source
    case AllPosts => allPosts
    case AllMovies => allMovies
  }

  /** The new content of a page under one configuration, or `None` when
      its list region is missing and the page is not written. */
  function UpdatedPage(content: string, c: PageConfig, allPosts: seq<Record>, allMovies: seq<Record>): (r: Option<string>)
    ensures r.None? <==> RegionMatch(content).None?
  {
    ReplaceRegion(content, NewListHtml(ItemsToShow(ListOf(c.items, allPosts, allMovies), c.limit)))
  }

  /** What a page holds after its configuration has been applied. */
  function PageAfter(content: string, c: PageConfig, allPosts: seq<Record>, allMovies: seq<Record>): (r: string)
    ensures RegionMatch(content).None? ==> r == content
  {
    match UpdatedPage(content, c, allPosts, allMovies)
    case None => content
    case Some(t) => t
  }

  /** The site's root directory after one configuration: the page, if it
      exists, gets its new content, and nothing else changes; no page is
      created. */
  function ApplyConfig(pages: map<string, string>, c: PageConfig, allPosts: seq<Record>, allMovies: seq<Record>): (r: map<string, string>)
    ensures r.Keys == pages.Keys
    ensures c.file in pages ==> r[c.file] == PageAfter(pages[c.file], c, allPosts, allMovies)
    ensures forall f :: f in pages && f != c.file ==> r[f] == pages[f]
  {
    if c.file in pages then pages[c.file := PageAfter(pages[c.file], c, allPosts, allMovies)] else pages
  }

  /** Whether the callback for `c` writes its page. */
  predicate Writes(pages: map<string, string>, c: PageConfig, allPosts: seq<Record>, allMovies: seq<Record>) {
    c.file in pages && UpdatedPage(pages[c.file], c, allPosts, allMovies).Some?
  }

  /** The root directory after the configurations of `cs`, in order. No
      page is created or removed. */
  function PagesAfter(root: map<string, string>, cs: seq<PageConfig>, allPosts: seq<Record>, allMovies: seq<Record>): (r: map<string, string>)
    ensures r.Keys == root.Keys
    decreases |cs|
  {
    if cs == [] then root
    else ApplyConfig(PagesAfter(root, cs[..|cs| - 1], allPosts, allMovies), cs[|cs| - 1], allPosts, allMovies)
  }

  /** The pages written by the configurations of `cs`, in order: at most
      one per configuration, each an existing page. */
  function Written(root: map<string, string>, cs: seq<PageConfig>, allPosts: seq<Record>, allMovies: seq<Record>): (w: seq<string>)
    ensures |w| <= |cs|
    ensures forall f :: f in w ==> f in root
    decreases |cs|
  {
    if cs == [] then []
    else
      var init, c := cs[..|cs| - 1], cs[|cs| - 1];
      Written(root, init, allPosts, allMovies) +
        (if Writes(PagesAfter(root, init, allPosts, allMovies), c, allPosts, allMovies) then [c.file] else [])
  }

  lemma ConfigsSnoc(root: map<string, string>, cs: seq<PageConfig>, i: nat, allPosts: seq<Record>, allMovies: seq<Record>)
    requires i < |cs|
    ensures PagesAfter(root, cs[..i + 1], allPosts, allMovies) ==
            ApplyConfig(PagesAfter(root, cs[..i], allPosts, allMovies), cs[i], allPosts, allMovies)
    ensures Written(root, cs[..i + 1], allPosts, allMovies) ==
            Written(root, cs[..i], allPosts, allMovies) +
              (if Writes(PagesAfter(root, cs[..i], allPosts, allMovies), cs[i], allPosts, allMovies)
               then [cs[i].file] else [])
  {
    assert cs[..i + 1][..i] == cs[..i];
  }

  /** The `forEach` callback for one configuration: when the page exists
      and its list region is found, the page is rewritten. */
  method UpdatePage(pages: map<string, string>, c: PageConfig, allPosts: seq<Record>, allMovies: seq<Record>)
    returns (pages': map<string, string>, wrote: bool)
    ensures pages' == ApplyConfig(pages, c, allPosts, allMovies)
    ensures wrote == Writes(pages, c, allPosts, allMovies)
  {
    pages', wrote := pages, false;
    if c.file !in pages {
      return;
    }
    var content := pages[c.file];
    var itemsToShow := ItemsToShow(ListOf(c.items, allPosts, allMovies), c.limit);
    var newListHtml := NewListHtml(itemsToShow);
    if RegionMatch(content).Some? {
      content := ReplaceRegion(content, newListHtml).value;
      pages' := pages[c.file := content];
      wrote := true;
    }
  }

  /** The three pages, applied in turn to the site's root directory, given
      as a map from file name to content. Returns the new directory and the
      pages written, in order. */
  method UpdateMainPages(root: map<string, string>, allPosts: seq<Record>, allMovies: seq<Record>)
    returns (pages: map<string, string>, written: seq<string>)
    ensures pages == PagesAfter(root, CONFIGS, allPosts, allMovies)
    ensures written == Written(root, CONFIGS, allPosts, allMovies)
  {
    pages, written := root, [];
    var i := 0;
    while i < |CONFIGS|
      invariant 0 <= i <= |CONFIGS|
      invariant pages == PagesAfter(root, CONFIGS[..i], allPosts, allMovies)
      invariant written == Written(root, CONFIGS[..i], allPosts, allMovies)
    {
      ConfigsSnoc(root, CONFIGS, i, allPosts, allMovies);
      var wrote;
      pages, wrote := UpdatePage(pages, CONFIGS[i], allPosts, allMovies);
      if wrote {
        written := written + [CONFIGS[i].file];
      }
      i := i + 1;
    }
    assert CONFIGS[..i] == CONFIGS;
  }

  /** A page that no configuration names is untouched. */
  lemma {:induction false} PagesAfterUntouched(root: map<string, string>, cs: seq<PageConfig>, allPosts: seq<Record>, allMovies: seq<Record>, f: string)
    requires f in root && forall k :: 0 <= k < |cs| ==> cs[k].file != f
    ensures f in PagesAfter(root, cs, allPosts, allMovies) && PagesAfter(root, cs, allPosts, allMovies)[f] == root[f]
    decreases |cs|
  {
    if cs != [] {
      var init, c := cs[..|cs| - 1], cs[|cs| - 1];
      assert forall k :: 0 <= k < |init| ==> init[k] == cs[k];
      PagesAfterUntouched(root, init, allPosts, allMovies, f);
    }
  }

  /** Configurations naming distinct files act independently: every named
      page that exists ends up as its own configuration makes it, every
      other page is untouched, and no page is created or removed. */
  lemma {:induction false} PagesAfterEffect(root: map<string, string>, cs: seq<PageConfig>, allPosts: seq<Record>, allMovies: seq<Record>)
    requires forall k, l :: 0 <= k < l < |cs| ==> cs[k].file != cs[l].file
    ensures PagesAfter(root, cs, allPosts, allMovies).Keys == root.Keys
    ensures forall k :: 0 <= k < |cs| && cs[k].file in root ==>
              PagesAfter(root, cs, allPosts, allMovies)[cs[k].file] ==
              PageAfter(root[cs[k].file], cs[k], allPosts, allMovies)
    ensures forall f :: f in root && (forall k :: 0 <= k < |cs| ==> cs[k].file != f) ==>
              PagesAfter(root, cs, allPosts, allMovies)[f] == root[f]
    decreases |cs|
  {
    forall f | f in root && (forall k :: 0 <= k < |cs| ==> cs[k].file != f)
      ensures PagesAfter(root, cs, allPosts, allMovies)[f] == root[f]
    {
      PagesAfterUntouched(root, cs, allPosts, allMovies, f);
    }
    forall k | 0 <= k < |cs| && cs[k].file in root
      ensures PagesAfter(root, cs, allPosts, allMovies)[cs[k].file] ==
              PageAfter(root[cs[k].file], cs[k], allPosts, allMovies)
    {
      PagesAfterConfigured(root, cs, allPosts, allMovies, k);
    }
  }

  /** The page a configuration names ends up as that configuration makes
      it, when no other configuration names it. */
  lemma {:induction false} PagesAfterConfigured(root: map<string, string>, cs: seq<PageConfig>, allPosts: seq<Record>, allMovies: seq<Record>, k: nat)
    requires forall i, j :: 0 <= i < j < |cs| ==> cs[i].file != cs[j].file
    requires k < |cs| && cs[k].file in root
    ensures cs[k].file in PagesAfter(root, cs, allPosts, allMovies)
    ensures PagesAfter(root, cs, allPosts, allMovies)[cs[k].file] ==
            PageAfter(root[cs[k].file], cs[k], allPosts, allMovies)
    decreases |cs|
  {
    var init, c := cs[..|cs| - 1], cs[|cs| - 1];
    var before := PagesAfter(root, init, allPosts, allMovies);
    assert forall i :: 0 <= i < |init| ==> init[i] == cs[i];
    if k == |cs| - 1 {
      PagesAfterUntouched(root, init, allPosts, allMovies, c.file);
    } else {
      PagesAfterConfigured(root, init, allPosts, allMovies, k);
    }
  }

  /** The main pages after the update: `index.html`, `posts.html` and
      `movies.html` each get their new list when they exist and carry a
      list region; every other file is as it was. */
  lemma MainPagesEffect(root: map<string, string>, allPosts: seq<Record>, allMovies: seq<Record>)
    ensures PagesAfter(root, CONFIGS, allPosts, allMovies).Keys == root.Keys
    ensures forall k :: 0 <= k < |CONFIGS| && CONFIGS[k].file in root ==>
              PagesAfter(root, CONFIGS, allPosts, allMovies)[CONFIGS[k].file] ==
              PageAfter(root[CONFIGS[k].file], CONFIGS[k], allPosts, allMovies)
    ensures forall f :: f in root && f != "index.html" && f != "posts.html" && f != "movies.html" ==>
              PagesAfter(root, CONFIGS, allPosts, allMovies)[f] == root[f]
  {
    ConfigFilesDistinct();
    PagesAfterEffect(root, CONFIGS, allPosts, allMovies);
    forall f | f in root && f != "index.html" && f != "posts.html" && f != "movies.html"
      ensures PagesAfter(root, CONFIGS, allPosts, allMovies)[f] == root[f]
    {
      OtherFile(f);
    }
  }

  lemma OtherFile(f: string)
    requires f != "index.html" && f != "posts.html" && f != "movies.html"
    ensures forall k :: 0 <= k < |CONFIGS| ==> CONFIGS[k].file != f
  {
  }

  // ---------------------------------------------------------------------
  // What one configuration does to its page

  /** A page is written exactly when it exists and holds a start marker
      followed, further on, by an end marker. */
  lemma WritesIffRegion(pages: map<string, string>, c: PageConfig, allPosts: seq<Record>, allMovies: seq<Record>)
    ensures Writes(pages, c, allPosts, allMovies) <==>
            c.file in pages && exists p: nat, q: nat :: IsRegion(pages[c.file], p, q)
  {
    if c.file in pages {
      RegionMatchSpec(pages[c.file]);
    }
  }

  /** A page without a list region keeps its content. */
  lemma NoRegionKeepsPage(content: string, c: PageConfig, allPosts: seq<Record>, allMovies: seq<Record>)
    requires forall p: nat, q: nat :: !IsRegion(content, p, q)
    ensures UpdatedPage(content, c, allPosts, allMovies).None?
    ensures PageAfter(content, c, allPosts, allMovies) == content
  {
    RegionMatchSpec(content);
  }

  /** Every item shown comes from the configured list. */
  lemma ShownFromList(items: seq<Record>, limit: Option<nat>)
    ensures forall r :: r in ItemsToShow(items, limit) ==> r in items
  {
    var shown := ItemsToShow(items, limit);
    forall r | r in shown ensures r in items {
      var i :| 0 <= i < |shown| && shown[i] == r;
      assert items[i] == r;
    }
  }

  /** The new list of a configuration whose items have no `$` has no `$`. */
  lemma NoDollarInConfiguredList(c: PageConfig, allPosts: seq<Record>, allMovies: seq<Record>)
    requires forall r :: r in ListOf(c.items, allPosts, allMovies) ==> DollarFree(r)
    ensures '$' !in NewListHtml(ItemsToShow(ListOf(c.items, allPosts, allMovies), c.limit))
  {
    var items := ListOf(c.items, allPosts, allMovies);
    ShownFromList(items, c.limit);
    NoDollarInNewList(ItemsToShow(items, c.limit));
  }

  /** When the items have no `$`, the page keeps everything outside its
      list region, and the region becomes the new list of the items the
      configuration shows. */
  lemma UpdatedPageSplices(content: string, c: PageConfig, allPosts: seq<Record>, allMovies: seq<Record>, p: nat, q: nat)
    requires RegionMatch(content) == Some((p, q))
    requires forall r :: r in ListOf(c.items, allPosts, allMovies) ==> DollarFree(r)
    ensures UpdatedPage(content, c, allPosts, allMovies) ==
            Some(content[..p] + NewListHtml(ItemsToShow(ListOf(c.items, allPosts, allMovies), c.limit)) + content[q + |LIST_END|..])
  {
    NoDollarInConfiguredList(c, allPosts, allMovies);
    ReplaceKeepsOutside(content, NewListHtml(ItemsToShow(ListOf(c.items, allPosts, allMovies), c.limit)), p, q);
  }

  /** Running the update a second time over its own output changes nothing. */
  lemma PageAfterIdempotent(content: string, c: PageConfig, allPosts: seq<Record>, allMovies: seq<Record>)
    requires forall r :: r in ListOf(c.items, allPosts, allMovies) ==> DollarFree(r)
    ensures PageAfter(PageAfter(content, c, allPosts, allMovies), c, allPosts, allMovies) ==
            PageAfter(content, c, allPosts, allMovies)
  {
    var html := NewListHtml(ItemsToShow(ListOf(c.items, allPosts, allMovies), c.limit));
    if RegionMatch(content).Some? {
      NoDollarInConfiguredList(c, allPosts, allMovies);
      ReplaceIdempotent(content, html);
    }
  }

  /** `index.html` shows the first five posts, or all of them when there
      are fewer; `posts.html` and `movies.html` show their whole list. */
  lemma ConfiguredLimits(allPosts: seq<Record>, allMovies: seq<Record>)
    ensures ItemsToShow(ListOf(CONFIGS[0].items, allPosts, allMovies), CONFIGS[0].limit) ==
            if |allPosts| <= 5 then allPosts else allPosts[..5]
    ensures ItemsToShow(ListOf(CONFIGS[1].items, allPosts, allMovies), CONFIGS[1].limit) == allPosts
    ensures ItemsToShow(ListOf(CONFIGS[2].items, allPosts, allMovies), CONFIGS[2].limit) == allMovies
  {
  }

  /** The text around the rendered items in the new list. */
  const LIST_HEAD := LIST_START + "\n"
  const LIST_TAIL := "\n" + ITEM_INDENT + LIST_END

  /** The text of a page's list region, from its start marker to the end
      of its end marker. */
  function ListRegion(t: string): (m: Option<string>)
    ensures m.None? <==> RegionMatch(t).None?
  {
    match RegionMatch(t)
    case None => None
    case Some((p, q)) => Some(t[p..q + |LIST_END|])
  }

  /** Reads the list a page shows: the text of its list region, read by
      `ParseRegion`. */
  function ReadList(t: string): Option<seq<Entry>> {
    match ListRegion(t)
    case None => None
    case Some(m) => ParseRegion(m)
  }

  /** Reads a region laid out as the template lays out a new list: the
      start marker ending its line, the anchors, and the end marker on a
      line of its own after the anchors' indentation. */
  function ParseRegion(m: string): Option<seq<Entry>> {
    if |LIST_HEAD| + |LIST_TAIL| <= |m| && m[..|LIST_HEAD|] == LIST_HEAD && m[|m| - |LIST_TAIL|..] == LIST_TAIL
    then ParsePostList(m[|LIST_HEAD|..|m| - |LIST_TAIL|])
    else None
  }

  /** The new list reads back as the link, date and title of each of its
      items, in order. */
  lemma NewListReadsBack(items: seq<Record>)
    requires forall r :: r in items ==> Readable(r)
    ensures ParseRegion(NewListHtml(items)) == Some(Entries(items))
  {
    var list := GeneratePostListHtml(items);
    assert NewListHtml(items) == LIST_HEAD + list + LIST_TAIL;
    RegionReads(LIST_HEAD, list, LIST_TAIL);
    RenderThenParse(items);
  }

  lemma RegionReads(head: string, list: string, tail: string)
    requires head == LIST_HEAD && tail == LIST_TAIL
    ensures ParseRegion(head + list + tail) == ParsePostList(list)
  {
    var m := head + list + tail;
    assert m[..|head|] == head && m[|head|..|head| + |list|] == list;
    assert m[|m| - |tail|..] == tail;
  }

  /** After the update, the page's list reads back as the link, date and
      title of each item shown, in order. */
  lemma UpdatedPageReadsBack(content: string, c: PageConfig, allPosts: seq<Record>, allMovies: seq<Record>, p: nat, q: nat)
    requires RegionMatch(content) == Some((p, q))
    requires forall r :: r in ListOf(c.items, allPosts, allMovies) ==> DollarFree(r) && Readable(r)
    ensures ReadList(PageAfter(content, c, allPosts, allMovies)) ==
            Some(Entries(ItemsToShow(ListOf(c.items, allPosts, allMovies), c.limit)))
  {
    var list := ListOf(c.items, allPosts, allMovies);
    var items := ItemsToShow(list, c.limit);
    PageAfterSplices(content, c, allPosts, allMovies, p, q);
    ShownFromList(list, c.limit);
    SplicedReads(content, p, q, NewListHtml(items));
    NewListReadsBack(items);
  }

  /** A marked list spliced over the region at `p` is the region the page
      reader finds. */
  lemma SplicedReads(s: string, p: nat, q: nat, html: string)
    requires RegionMatch(s) == Some((p, q)) && IsMarked(html)
    ensures p <= q && q + |LIST_END| <= |s|
    ensures ReadList(Spliced(s, p, q, html)) == ParseRegion(html)
  {
    var q2 := p + |html| - |LIST_END|;
    SplicedRegion(s, p, q, html, q2);
    SplicedText(s, p, q, html, q2 + |LIST_END|);
    var t := Spliced(s, p, q, html);
    assert ListRegion(t) == Some(t[p..q2 + |LIST_END|]);
  }

  lemma PageAfterSplices(content: string, c: PageConfig, allPosts: seq<Record>, allMovies: seq<Record>, p: nat, q: nat)
    requires RegionMatch(content) == Some((p, q))
    requires forall r :: r in ListOf(c.items, allPosts, allMovies) ==> DollarFree(r)
    ensures p <= q && q + |LIST_END| <= |content|
    ensures PageAfter(content, c, allPosts, allMovies) ==
            Spliced(content, p, q, NewListHtml(ItemsToShow(ListOf(c.items, allPosts, allMovies), c.limit)))
  {
    UpdatedPageSplices(content, c, allPosts, allMovies, p, q);
  }

  lemma SplicedRegion(s: string, p: nat, q: nat, html: string, q': nat)
    requires RegionMatch(s) == Some((p, q)) && IsMarked(html) && q' == p + |html| - |LIST_END|
    ensures p <= q && q + |LIST_END| <= |s|
    ensures RegionMatch(Spliced(s, p, q, html)) == Some((p, q'))
  {
    RegionOfReplaced(s, html, p, q);
  }

  lemma SplicedText(s: string, p: nat, q: nat, html: string, e: nat)
    requires p <= q && q + |LIST_END| <= |s| && e == p + |html|
    ensures e <= |Spliced(s, p, q, html)| && Spliced(s, p, q, html)[p..e] == html
  {
    MiddleSlice(s[..p], html, s[q + |LIST_END|..], 0, |html|);
  }

  /** A slice of the middle piece of a concatenation, taken in place. */
  lemma MiddleSlice(a: string, m: string, b: string, i: nat, j: nat)
    requires i <= j <= |m|
    ensures (a + m + b)[|a| + i..|a| + j] == m[i..j]
  {
    forall x | |a| + i <= x < |a| + j
      ensures (a + m + b)[x] == m[x - |a|]
    {
    }
  }
}
