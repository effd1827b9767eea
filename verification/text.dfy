/**
 * Character classes and small string scanners shared by the hand-written
 * pattern matchers: greedy runs, searches for the leftmost and rightmost
 * position satisfying a predicate, literal occurrences, and the JavaScript
 * string built-ins the build script relies on (`trim`, `endsWith`,
 * `split` on one character, `replace` of the first occurrence of one
 * character).
 */
module Text {
  import opened Wrappers

  /** The code points JavaScript counts as WhiteSpace or LineTerminator:
      what the regular-expression class `\s` matches and what `trim` removes. */
  predicate IsSpace(c: char) {
    c == '\t' || c == '\n' || c == '\U{B}' || c == '\U{C}' || c == '\r' || c == ' ' ||
    c == '\U{A0}' || c == '\U{1680}' || ('\U{2000}' <= c <= '\U{200A}') ||
    c == '\U{2028}' || c == '\U{2029}' || c == '\U{202F}' || c == '\U{205F}' ||
    c == '\U{3000}' || c == '\U{FEFF}'
  }

  predicate AllSpace(s: string) {
    forall i :: 0 <= i < |s| ==> IsSpace(s[i])
  }

  /** `pat` occurs in `s` starting at index `i`. */
  predicate OccursAt(s: string, i: nat, pat: string) {
    i + |pat| <= |s| && s[i..i + |pat|] == pat
  }

  /** End of the longest run of characters satisfying `p` that starts at `i`
      (a greedy `[...]*` in a regular expression). */
  function SpanWhile(s: string, i: nat, p: char -> bool): (k: nat)
    requires i <= |s|
    ensures i <= k <= |s|
    ensures forall j :: i <= j < k ==> p(s[j])
    ensures k == |s| || !p(s[k])
    decreases |s| - i
  {
    if i == |s| || !p(s[i]) then i else SpanWhile(s, i + 1, p)
  }

  /** A position that ends a run of `p` from `i` and is followed by a
      character outside `p` (or the end) is the one `SpanWhile` finds. */
  lemma SpanWhileStopsAt(s: string, i: nat, p: char -> bool, k: nat)
    requires i <= k <= |s|
    requires forall j :: i <= j < k ==> p(s[j])
    requires k == |s| || !p(s[k])
    ensures SpanWhile(s, i, p) == k
  {
  }

  /** Start of the longest run of characters satisfying `p` that ends just
      before index `k`. */
  function SpanBackWhile(s: string, k: nat, p: char -> bool): (j: nat)
    requires k <= |s|
    ensures j <= k
    ensures forall m :: j <= m < k ==> p(s[m])
    ensures j == 0 || !p(s[j - 1])
    decreases k
  {
    if k == 0 || !p(s[k - 1]) then k else SpanBackWhile(s, k - 1, p)
  }

  lemma SpanBackWhileStopsAt(s: string, k: nat, p: char -> bool, j: nat)
    requires j <= k <= |s|
    requires forall m :: j <= m < k ==> p(s[m])
    requires j == 0 || !p(s[j - 1])
    ensures SpanBackWhile(s, k, p) == j
  {
  }

  /** The least position in [i, n) satisfying `at`: how a regular-expression
      search tries start positions from left to right. */
  function Leftmost(n: nat, i: nat, at: nat -> bool): (r: Option<nat>)
    requires i <= n
    ensures r.Some? ==> i <= r.value < n && at(r.value)
    ensures r.Some? ==> forall j :: i <= j < r.value ==> !at(j)
    ensures r.None? ==> forall j :: i <= j < n ==> !at(j)
    decreases n - i
  {
    if i == n then None
    else if at(i) then Some(i)
    else Leftmost(n, i + 1, at)
  }

  /** The greatest position in [lo, hi) satisfying `at`: how a greedy
      quantifier gives characters back one at a time. */
  function Rightmost(lo: nat, hi: nat, at: nat -> bool): (r: Option<nat>)
    requires lo <= hi
    ensures r.Some? ==> lo <= r.value < hi && at(r.value)
    ensures r.Some? ==> forall j :: r.value < j < hi ==> !at(j)
    ensures r.None? ==> forall j :: lo <= j < hi ==> !at(j)
    decreases hi - lo
  {
    if lo == hi then None
    else if at(hi - 1) then Some(hi - 1)
    else Rightmost(lo, hi - 1, at)
  }

  /** A position satisfying `at`, with none before it, is the one `Leftmost` finds. */
  lemma LeftmostIs(n: nat, i: nat, at: nat -> bool, k: nat)
    requires i <= k < n && at(k)
    requires forall j :: i <= j < k ==> !at(j)
    ensures Leftmost(n, i, at) == Some(k)
  {
  }

  /** A position satisfying `at`, with none after it, is the one `Rightmost` finds. */
  lemma RightmostIs(lo: nat, hi: nat, at: nat -> bool, k: nat)
    requires lo <= k < hi && at(k)
    requires forall j :: k < j < hi ==> !at(j)
    ensures Rightmost(lo, hi, at) == Some(k)
  {
  }

  /** JavaScript `s.trim()`: `s` without its leading and trailing white space. */
  function Trim(s: string): (r: string)
    ensures |r| <= |s|
    ensures r == [] || (!IsSpace(r[0]) && !IsSpace(r[|r| - 1]))
    ensures exists a :: 0 <= a <= |s| - |r| && s[a..a + |r|] == r &&
                         AllSpace(s[..a]) && AllSpace(s[a + |r|..])
  {
    var a := SpanWhile(s, 0, IsSpace);
    if a == |s| then
      assert s[0..0] == [] && s[..0] == [] && s[0..] == s;
      []
    else
      var b := SpanBackWhile(s, |s|, IsSpace);
      assert AllSpace(s[..a]);
      assert AllSpace(s[b..]);
      s[a..b]
  }

  /** Trimming only removes characters. */
  lemma TrimKeepsChars(s: string)
    ensures forall c :: c in Trim(s) ==> c in s
  {
    var a := SpanWhile(s, 0, IsSpace);
    if a < |s| {
      var b := SpanBackWhile(s, |s|, IsSpace);
      forall c | c in s[a..b] ensures c in s {
        var j :| a <= j < b && s[j] == c;
      }
    }
  }

  /** A string that neither starts nor ends with white space is its own trim. */
  lemma TrimUnchanged(s: string)
    requires s == [] || (!IsSpace(s[0]) && !IsSpace(s[|s| - 1]))
    ensures Trim(s) == s
  {
    if s != [] {
      SpanWhileStopsAt(s, 0, IsSpace, 0);
      SpanBackWhileStopsAt(s, |s|, IsSpace, |s|);
    }
  }

  /** White space alone trims to the empty string. */
  lemma TrimAllSpace(s: string)
    requires AllSpace(s)
    ensures Trim(s) == []
  {
    SpanWhileStopsAt(s, 0, IsSpace, |s|);
  }

  /** JavaScript `s.endsWith(suffix)`. */
  predicate EndsWith(s: string, suffix: string) {
    |suffix| <= |s| && s[|s| - |suffix|..] == suffix
  }

  /** The characters other than `c`. */
  function Other(c: char): char -> bool {
    x => x != c
  }

  /** JavaScript `s.split(sep)` for a one-character separator: the pieces
      between consecutive separators, always at least one. */
  function Split(s: string, sep: char): (parts: seq<string>)
    ensures |parts| >= 1
    ensures forall k :: 0 <= k < |parts| ==> sep !in parts[k]
    decreases |s|
  {
    var k := SpanWhile(s, 0, Other(sep));
    if k == |s| then [s] else [s[..k]] + Split(s[k + 1..], sep)
  }

  /** The first piece runs up to the first separator. */
  lemma SplitHead(s: string, sep: char)
    ensures Split(s, sep)[0] == s[..SpanWhile(s, 0, Other(sep))]
  {
  }

  /** Splitting a piece without the separator, then the separator, then the
      rest, yields that piece followed by the pieces of the rest. */
  lemma SplitAfterPiece(p: string, rest: string, sep: char)
    requires sep !in p
    ensures Split(p + [sep] + rest, sep) == [p] + Split(rest, sep)
  {
    var s := p + [sep] + rest;
    SpanWhileStopsAt(s, 0, Other(sep), |p|);
    assert s[..|p|] == p && s[|p| + 1..] == rest;
  }

  /** Gluing the pieces back together with the separator, the inverse of `Split`. */
  function JoinWith(parts: seq<string>, sep: char): string
    requires |parts| >= 1
    decreases |parts|
  {
    if |parts| == 1 then parts[0] else parts[0] + [sep] + JoinWith(parts[1..], sep)
  }

  lemma {:induction false} SplitJoin(s: string, sep: char)
    ensures JoinWith(Split(s, sep), sep) == s
    decreases |s|
  {
    var k := SpanWhile(s, 0, Other(sep));
    if k < |s| {
      SplitJoin(s[k + 1..], sep);
      assert s == s[..k] + [sep] + s[k + 1..];
    }
  }

  /** JavaScript `s.replace(c, "")` with a one-character string pattern:
      the first occurrence of `c`, if any, is deleted. */
  function RemoveFirst(s: string, c: char): (r: string)
    ensures c !in s ==> r == s
    ensures c in s ==> |r| == |s| - 1 &&
                       exists k :: 0 <= k < |s| && s[k] == c && c !in s[..k] && r == s[..k] + s[k + 1..]
  {
    var k := SpanWhile(s, 0, Other(c));
    if k == |s| then s
    else
      assert c !in s[..k];
      s[..k] + s[k + 1..]
  }
}
