/**
 * The directory scans and the tag map. Each scan walks a directory listing,
 * keeps the `.html` files, pushes each file's metadata onto the category's
 * list and appends it to the bucket of every tag it carries.
 *
 * `ScanDir`, `Bucket`, `TagsOf` and `IndexOf` specify the scans' outcome as
 * functions of the files read. `SiteScan` is the mutable state the script
 * keeps at the top level (`tagMap`, `allPosts`, `allMovies`), and its
 * methods are proved against those functions.
 */
module TagIndex {
  import opened Seqs
  import opened Metadata

  /** One directory entry: its name and, read as UTF-8 text, its content. */
  datatype SourceFile = SourceFile(name: string, content: string)

  /** The records one directory scan produces, in listing order. */
  function ScanDir(files: seq<SourceFile>, category: Category): (rs: seq<Record>)
    ensures |rs| <= |files|
    decreases |files|
  {
    if files == [] then []
    else
      var init, last := files[..|files| - 1], files[|files| - 1];
      ScanDir(init, category) + FileRecords(last, category)
  }

  /** Every record of a scan comes from an entry of the listing: the entry
      at the returned position, which the scan selected. */
  lemma {:induction false} ScanDirOrigin(files: seq<SourceFile>, category: Category, r: Record) returns (k: nat)
    requires r in ScanDir(files, category)
    ensures k < |files| && r in FileRecords(files[k], category)
    ensures IsSelected(category, files[k].name) && r == ExtractMetadata(files[k].content, files[k].name, category)
    decreases |files|
  {
    var init := files[..|files| - 1];
    if r in ScanDir(init, category) {
      k := ScanDirOrigin(init, category, r);
      assert files[k] == init[k];
    } else {
      k := |files| - 1;
    }
  }

  /** Conversely, every entry the scan selects contributes its metadata. */
  lemma {:induction false} ScanDirComplete(files: seq<SourceFile>, category: Category, k: nat)
    requires k < |files| && IsSelected(category, files[k].name)
    ensures ExtractMetadata(files[k].content, files[k].name, category) in ScanDir(files, category)
    decreases |files|
  {
    var init := files[..|files| - 1];
    if k < |files| - 1 {
      assert init[k] == files[k];
      ScanDirComplete(init, category, k);
    }
  }

  /** What one directory entry contributes: its metadata when the scan
      selects it, nothing otherwise. */
  function FileRecords(file: SourceFile, category: Category): (rs: seq<Record>)
    ensures rs != [] <==> IsSelected(category, file.name)
    ensures forall r :: r in rs ==> r == ExtractMetadata(file.content, file.name, category)
  {
    if IsSelected(category, file.name)
    then [ExtractMetadata(file.content, file.name, category)]
    else []
  }

  /** The records of `rs` that carry tag `t`, in the order of `rs`. */
  function Bucket(rs: seq<Record>, t: string): (b: seq<Record>)
    ensures |b| <= |rs|
    ensures forall k :: 0 <= k < |b| ==> t in b[k].tags
    decreases |rs|
  {
    if rs == [] then []
    else
      var last := rs[|rs| - 1];
      Bucket(rs[..|rs| - 1], t) + (if t in last.tags then [last] else [])
  }

  /** Every tag carried by some record of `rs`. */
  function TagsOf(rs: seq<Record>): set<string>
    decreases |rs|
  {
    if rs == [] then {}
    else
      var last := rs[|rs| - 1];
      TagsOf(rs[..|rs| - 1]) + (set t | t in last.tags)
  }

  /** The tag map after appending every record of `rs` to its tags' buckets. */
  function IndexOf(rs: seq<Record>): (m: map<string, seq<Record>>)
    ensures forall t :: t in m ==> |m[t]| <= |rs| && forall k :: 0 <= k < |m[t]| ==> t in m[t][k].tags
  {
    map t | t in TagsOf(rs) :: Bucket(rs, t)
  }

  lemma {:induction false} BucketMembership(rs: seq<Record>, t: string, r: Record)
    ensures r in Bucket(rs, t) <==> r in rs && t in r.tags
    decreases |rs|
  {
    if rs != [] {
      var init := rs[..|rs| - 1];
      assert rs == init + [rs[|rs| - 1]];
      BucketMembership(init, t, r);
    }
  }

  lemma {:induction false} TagsOfMembership(rs: seq<Record>, t: string)
    ensures t in TagsOf(rs) <==> exists r :: r in rs && t in r.tags
    decreases |rs|
  {
    if rs != [] {
      var init, last := rs[..|rs| - 1], rs[|rs| - 1];
      assert rs == init + [last];
      TagsOfMembership(init, t);
      if t in last.tags {
        assert last in rs;
      }
      if t in TagsOf(init) {
        var r :| r in init && t in r.tags;
        assert r in rs;
      }
    }
  }

  /** Appending to the record list appends to the buckets: posts come first
      in every bucket, then movies, each in scan order. */
  lemma {:induction false} BucketOfConcat(a: seq<Record>, b: seq<Record>, t: string)
    ensures Bucket(a + b, t) == Bucket(a, t) + Bucket(b, t)
    decreases |b|
  {
    if b != [] {
      var init, last := b[..|b| - 1], b[|b| - 1];
      assert b == init + [last];
      assert a + b == (a + init) + [last];
      var x := if t in last.tags then [last] else [];
      calc {
        Bucket(a + b, t);
        { BucketSnoc(a + init, last, t); }
        Bucket(a + init, t) + x;
        { BucketOfConcat(a, init, t); }
        Bucket(a, t) + Bucket(init, t) + x;
        { BucketSnoc(init, last, t); }
        Bucket(a, t) + Bucket(b, t);
      }
    } else {
      assert a + b == a;
    }
  }

  /** A bucket holds each record at most once when the records are distinct. */
  lemma {:induction false} BucketNoDup(rs: seq<Record>, t: string)
    requires NoDup(rs)
    ensures NoDup(Bucket(rs, t))
    decreases |rs|
  {
    if rs != [] {
      var init, last := rs[..|rs| - 1], rs[|rs| - 1];
      assert rs == init + [last];
      assert NoDup(init) by {
        forall i, j | 0 <= i < j < |init| ensures init[i] != init[j] {
          assert init[i] == rs[i] && init[j] == rs[j];
        }
      }
      BucketNoDup(init, t);
      if t in last.tags {
        assert last !in init;
        BucketMembership(init, t, last);
      }
    }
  }

  /** The keys of the tag map are exactly the tags some record carries; the
      bucket of each key holds exactly the records carrying it, so no bucket
      is empty. */
  lemma IndexExact(rs: seq<Record>, t: string)
    ensures t in IndexOf(rs) <==> exists r :: r in rs && t in r.tags
    ensures t in IndexOf(rs) ==>
              |IndexOf(rs)[t]| > 0 &&
              forall r :: r in IndexOf(rs)[t] <==> r in rs && t in r.tags
  {
    TagsOfMembership(rs, t);
    forall r ensures r in Bucket(rs, t) <==> r in rs && t in r.tags {
      BucketMembership(rs, t, r);
    }
    if t in IndexOf(rs) {
      var r :| r in rs && t in r.tags;
      assert r in Bucket(rs, t);
    }
  }

  /** A bucket gains the new record exactly when the record carries its tag. */
  lemma BucketSnoc(rs: seq<Record>, r: Record, t: string)
    ensures Bucket(rs + [r], t) == Bucket(rs, t) + (if t in r.tags then [r] else [])
  {
    assert (rs + [r])[..|rs|] == rs;
  }

  /** The tag map of `rs` after `r` has been pushed onto the buckets of its
      first `k` tags. */
  function PartiallyAdded(rs: seq<Record>, r: Record, k: nat): map<string, seq<Record>>
    requires k <= |r.tags|
  {
    map t | t in TagsOf(rs) + (set u | u in r.tags[..k]) ::
      Bucket(rs, t) + (if t in r.tags[..k] then [r] else [])
  }

  lemma PartiallyAddedNone(rs: seq<Record>, r: Record)
    ensures PartiallyAdded(rs, r, 0) == IndexOf(rs)
  {
    var m := PartiallyAdded(rs, r, 0);
    assert r.tags[..0] == [];
    assert m.Keys == IndexOf(rs).Keys;
    forall t | t in m ensures m[t] == IndexOf(rs)[t] {
      assert m[t] == Bucket(rs, t) + [];
    }
  }

  /** Pushing `r` onto the bucket of its next tag, creating the bucket when
      the tag is new. */
  lemma PartiallyAddedStep(rs: seq<Record>, r: Record, k: nat)
    requires k < |r.tags| && NoDup(r.tags)
    ensures var m, t := PartiallyAdded(rs, r, k), r.tags[k];
            PartiallyAdded(rs, r, k + 1) == m[t := (if t in m then m[t] else []) + [r]]
  {
    var m, t := PartiallyAdded(rs, r, k), r.tags[k];
    var m' := PartiallyAdded(rs, r, k + 1);
    var n := m[t := (if t in m then m[t] else []) + [r]];
    assert r.tags[..k + 1] == r.tags[..k] + [t];
    assert t !in r.tags[..k];
    if t in m {
      assert m[t] == Bucket(rs, t) + [];
    } else {
      BucketOfUnusedTag(rs, t);
    }
    assert m'.Keys == n.Keys;
    forall u | u in m' ensures m'[u] == n[u] {
      if u != t {
        assert (u in r.tags[..k + 1]) == (u in r.tags[..k]);
      }
    }
  }

  /** With every tag done, the map is the tag map of `rs + [r]`. */
  lemma PartiallyAddedAll(rs: seq<Record>, r: Record)
    ensures PartiallyAdded(rs, r, |r.tags|) == IndexOf(rs + [r])
  {
    var m := PartiallyAdded(rs, r, |r.tags|);
    assert r.tags[..|r.tags|] == r.tags;
    TagsOfSnoc(rs, r);
    assert m.Keys == IndexOf(rs + [r]).Keys;
    forall t | t in m ensures m[t] == IndexOf(rs + [r])[t] {
      BucketSnoc(rs, r, t);
    }
  }

  lemma TagsOfSnoc(rs: seq<Record>, r: Record)
    ensures TagsOf(rs + [r]) == TagsOf(rs) + (set t | t in r.tags)
  {
    assert (rs + [r])[..|rs|] == rs;
  }

  lemma BucketOfUnusedTag(rs: seq<Record>, t: string)
    requires t !in TagsOf(rs)
    ensures Bucket(rs, t) == []
  {
    TagsOfMembership(rs, t);
    if Bucket(rs, t) != [] {
      BucketMembership(rs, t, Bucket(rs, t)[0]);
    }
  }

  /** The URLs of one directory's records are distinct when the file names
      in its listing are. */
  lemma {:induction false} ScanUrlsDistinct(files: seq<SourceFile>, category: Category)
    requires forall i, j :: 0 <= i < j < |files| ==> files[i].name != files[j].name
    ensures forall i, j :: 0 <= i < j < |ScanDir(files, category)| ==>
              ScanDir(files, category)[i].url != ScanDir(files, category)[j].url
    decreases |files|
  {
    if files != [] {
      var init, last := files[..|files| - 1], files[|files| - 1];
      var rest, added := ScanDir(init, category), FileRecords(last, category);
      var rs := ScanDir(files, category);
      assert rs == rest + added;
      assert forall i :: 0 <= i < |init| ==> init[i] == files[i];
      ScanUrlsDistinct(init, category);
      forall i, j | 0 <= i < j < |rs| ensures rs[i].url != rs[j].url {
        if j < |rest| {
          assert rs[i] == rest[i] && rs[j] == rest[j];
        } else {
          assert rs[i] in rest && rs[j] in added;
          NewUrlDiffers(init, last, category, rs[i]);
        }
      }
    }
  }

  /** A record of a scan differs in its URL from the record of a later file
      with a name of its own. */
  lemma NewUrlDiffers(init: seq<SourceFile>, last: SourceFile, category: Category, r: Record)
    requires forall i :: 0 <= i < |init| ==> init[i].name != last.name
    requires r in ScanDir(init, category)
    ensures forall r' :: r' in FileRecords(last, category) ==> r.url != r'.url
  {
    var k := ScanDirOrigin(init, category, r);
    UrlsDistinct(category, init[k].name, category, last.name);
  }

  /** Across one run every record is distinct: file names are distinct
      within a directory, and the URL prefix tells the two directories apart. */
  lemma RunRecordsDistinct(posts: seq<SourceFile>, movies: seq<SourceFile>)
    requires forall i, j :: 0 <= i < j < |posts| ==> posts[i].name != posts[j].name
    requires forall i, j :: 0 <= i < j < |movies| ==> movies[i].name != movies[j].name
    ensures NoDup(ScanDir(posts, Posts) + ScanDir(movies, Movies))
  {
    var ps, ms := ScanDir(posts, Posts), ScanDir(movies, Movies);
    ScanUrlsDistinct(posts, Posts);
    ScanUrlsDistinct(movies, Movies);
    forall p, m | p in ps && m in ms ensures p != m {
      PostAndMovieDiffer(posts, movies, p, m);
    }
    NoDupConcat(ps, ms);
  }

  lemma PostAndMovieDiffer(posts: seq<SourceFile>, movies: seq<SourceFile>, p: Record, m: Record)
    requires p in ScanDir(posts, Posts) && m in ScanDir(movies, Movies)
    ensures p != m
  {
    var i := ScanDirOrigin(posts, Posts, p);
    var j := ScanDirOrigin(movies, Movies, m);
    UrlsDistinct(Posts, posts[i].name, Movies, movies[j].name);
  }

  /** Hence no bucket of the run's tag map lists a record twice. */
  lemma RunBucketsNoDup(posts: seq<SourceFile>, movies: seq<SourceFile>, t: string)
    requires forall i, j :: 0 <= i < j < |posts| ==> posts[i].name != posts[j].name
    requires forall i, j :: 0 <= i < j < |movies| ==> movies[i].name != movies[j].name
    requires t in IndexOf(ScanDir(posts, Posts) + ScanDir(movies, Movies))
    ensures NoDup(IndexOf(ScanDir(posts, Posts) + ScanDir(movies, Movies))[t])
  {
    RunRecordsDistinct(posts, movies);
    BucketNoDup(ScanDir(posts, Posts) + ScanDir(movies, Movies), t);
  }

  /** Scanning one more file extends the scan by that file's record, if it
      is selected. */
  lemma ScanDirSnoc(files: seq<SourceFile>, i: nat, category: Category, added: seq<Record>, base: seq<Record>)
    requires i < |files| && added == FileRecords(files[i], category)
    ensures base + ScanDir(files[..i + 1], category) == base + ScanDir(files[..i], category) + added
  {
    assert files[..i + 1][..i] == files[..i];
  }

  /** The script's top-level accumulators. */
  class SiteScan {
    var tagMap: map<string, seq<Record>>
    var allPosts: seq<Record>
    var allMovies: seq<Record>
    /** Every record appended to the buckets so far, in order. */
    ghost var scanned: seq<Record>

    ghost predicate Valid()
      reads this
    {
      tagMap == IndexOf(scanned)
    }

    constructor ()
      ensures Valid()
      ensures tagMap == map[] && allPosts == [] && allMovies == [] && scanned == []
    {
      tagMap := map[];
      allPosts := [];
      allMovies := [];
      scanned := [];
    }

    /** `metadata.tags.forEach(tag => (tagMap[tag] = tagMap[tag] || []).push(metadata))` */
    method AddToBuckets(r: Record)
      requires Valid() && NoDup(r.tags)
      modifies this`tagMap, this`scanned
      ensures Valid() && scanned == old(scanned) + [r]
      ensures allPosts == old(allPosts) && allMovies == old(allMovies)
    {
      PartiallyAddedNone(scanned, r);
      var k := 0;
      while k < |r.tags|
        invariant 0 <= k <= |r.tags|
        invariant scanned == old(scanned)
        invariant tagMap == PartiallyAdded(scanned, r, k)
      {
        var t := r.tags[k];
        PartiallyAddedStep(scanned, r, k);
        var bucket := if t in tagMap then tagMap[t] else [];
        tagMap := tagMap[t := bucket + [r]];
        k := k + 1;
      }
      PartiallyAddedAll(scanned, r);
      scanned := scanned + [r];
    }

    method ScanFile(file: SourceFile, category: Category) returns (ghost added: seq<Record>)
      requires Valid()
      modifies this
      ensures added == FileRecords(file, category)
      ensures Valid()
      ensures scanned == old(scanned) + added
      ensures category == Posts ==> allPosts == old(allPosts) + added && allMovies == old(allMovies)
      ensures category == Movies ==> allMovies == old(allMovies) + added && allPosts == old(allPosts)
    {
      added := [];
      if IsSelected(category, file.name) {
        var metadata := ExtractMetadata(file.content, file.name, category);
        added := [metadata];
        if category == Posts {
          allPosts := allPosts + [metadata];
        } else {
          allMovies := allMovies + [metadata];
        }
        AddToBuckets(metadata);
      }
    }

    /** One of the two directory scans, over the directory's listing. */
    method Scan(files: seq<SourceFile>, category: Category)
      requires Valid()
      modifies this
      ensures Valid()
      ensures scanned == old(scanned) + ScanDir(files, category)
      ensures category == Posts ==> allPosts == old(allPosts) + ScanDir(files, category) && allMovies == old(allMovies)
      ensures category == Movies ==> allMovies == old(allMovies) + ScanDir(files, category) && allPosts == old(allPosts)
    {
      var i := 0;
      while i < |files|
        invariant 0 <= i <= |files|
        invariant Valid()
        invariant scanned == old(scanned) + ScanDir(files[..i], category)
        invariant category == Posts ==> allPosts == old(allPosts) + ScanDir(files[..i], category) && allMovies == old(allMovies)
        invariant category == Movies ==> allMovies == old(allMovies) + ScanDir(files[..i], category) && allPosts == old(allPosts)
      {
        ghost var added := ScanFile(files[i], category);
        ScanDirSnoc(files, i, category, added, old(scanned));
        if category == Posts {
          ScanDirSnoc(files, i, category, added, old(allPosts));
        } else {
          ScanDirSnoc(files, i, category, added, old(allMovies));
        }
        i := i + 1;
      }
      assert files[..i] == files;
    }
  }

  /** The scans as the script runs them: posts, then movies. A missing
      directory is an empty listing. */
  method BuildIndex(posts: seq<SourceFile>, movies: seq<SourceFile>)
    returns (tagMap: map<string, seq<Record>>, allPosts: seq<Record>, allMovies: seq<Record>)
    ensures allPosts == ScanDir(posts, Posts)
    ensures allMovies == ScanDir(movies, Movies)
    ensures tagMap == IndexOf(allPosts + allMovies)
  {
    var site := new SiteScan();
    site.Scan(posts, Posts);
    site.Scan(movies, Movies);
    tagMap, allPosts, allMovies := site.tagMap, site.allPosts, site.allMovies;
  }
}
