# A verified model of the blog's tag and list generator

`generate_tags.js` is the build step of a static blog. It reads every post and
every movie review (HTML files), pulls a title, a date, a list of tag slugs and
a URL out of each with regular expressions, collects the records in
`allPosts`, `allMovies` and a `tagMap` from tag to records, renders lists of
records as HTML anchors, and rewrites the list region of `index.html`,
`posts.html` and `movies.html` between the `<!-- POSTS_LIST_START -->` and
`<!-- POSTS_LIST_END -->` markers.

This project models that core in Dafny and proves what it does:

- `Text` and `Seqs`: the JavaScript built-ins the script relies on (`trim`,
  `endsWith`, `split` on one character, `replace` of a one-character string,
  `[...new Set(xs)]`), and the left-to-right search and the give-back of greedy
  quantifiers that the regular-expression engine performs.
- `Metadata`: `extractMetadata`. Each of the three patterns is a hand-written
  matcher that follows the engine's semantics, including backtracking where it
  matters. Each field has a lemma or contract that says what it holds in
  terms of the page text:
  - the title is the text after the first matching `<title>` up to the next `|`;
  - the date is the first text line after the first meta `div` at which the
    pattern matches, and a meta `div` with only line breaks before the next
    `<` is skipped;
  - the tags are exactly the tags of the global match list, in first-seen
    order, with the first link's tag first;
  - the URL is the directory's name between slashes, then the file name.
- `TagIndex`: the two directory scans. `SiteScan` is a class holding the
  script's mutable state (`tagMap`, `allPosts`, `allMovies`). Its methods are
  proved against the functions `ScanDir` and `IndexOf`, which state the
  outcome as a function of the directory listings.
- `Render`: `generatePostListHtml`, with a reader `ParsePostList` as its
  partner. The rendered list reads back as the items' links, dates and
  titles.
- `PageUpdate`: `updateMainPages`.
  - The region pattern is modelled as the engine matches it: from the first
    start marker to the last end marker after it.
  - `String.prototype.replace` expands `$` patterns in the replacement text
    (section 22.1.3.19.1, GetSubstitution, of ECMAScript 2024), and the model
    expands them too.
  - The configuration loop is a method proved against `PagesAfter` and
    `Written`.

Behaviour that the model follows from the code:

- The comment at `generate_tags.js:27` says the title stops at the first `|`
  or at `</title>`. The pattern `/<title>([^|]+)/` stops only at `|`: with no
  `|` on the page, the title runs past `</title>` to the end of the content
  (`TitleRunsPastClosingTag`).
- The movie clean-up `/^Movie Review:\s*/` removes the prefix `Movie Review:`
  together with any white space after it, or none.
- The date pattern `\s*([^<\n]+)` gives back white space. When only white
  space separates the meta `div`'s `>` from a following `<`, and its last
  character is not a line break, that character is captured on its own. So
  `> <` and the usual formatted layout, a line break and indentation before
  `<span>`, both give an empty date, not `Unknown Date`
  (`DateEmptyBeforeMarkup`). With only line breaks before the `<`, the pattern
  fails at that `div` and the search moves on to the next one
  (`MetaWithoutTextFails`, `FirstDateMatch`).
- A tag is the slug up to its first `/` (`split("/")[2]`). It can be empty.
- The global tag search resumes after the closing quote of each match. A link
  that starts inside the previous match, as in `href="/tags/ahref="/tags/b"`,
  is not found on its own. `ExtractTags` is therefore stated in terms of the
  match list, not of every position that holds a link.
- `config.limit ? ... : ...` treats a limit of 0 like no limit.
- A page is rewritten only when a start marker comes before an end marker.
  The markers themselves are replaced along with the text between them.
- An item whose URL, date or title contains `$$`, `$&`, `` $` `` or `$'` is
  expanded by `replace`. The page-level properties (splice, idempotence,
  read-back) are proved for items without `$`. For such items, the model
  shows exactly what `replace` inserts.

## Model

| member | source | states |
|---|---|---|
| Text.Trim | generate_tags.js:36 | `trim`: the result has no white space at either end and is a contiguous part of the input with only white space around it |
| Text.TrimKeepsChars | generate_tags.js:36 | trimming only removes characters |
| Text.TrimUnchanged | generate_tags.js:36 | a string without white space at either end is its own trim |
| Text.TrimAllSpace | generate_tags.js:42 | white space alone trims to the empty string |
| Text.Leftmost | generate_tags.js:28 | the engine's search for a match start: the least position satisfying the test, none before it, or none at all |
| Text.Rightmost | generate_tags.js:108 | a greedy quantifier giving characters back: the greatest position satisfying the test, none after it, or none at all |
| Text.Split | generate_tags.js:44 | `split` on one character: at least one piece, no piece contains the separator |
| Text.SplitAfterPiece | generate_tags.js:44 | a separator-free piece and a separator in front of `rest` split off as that piece followed by the pieces of `rest` |
| Text.SplitJoin | generate_tags.js:44 | joining the pieces with the separator gives back the string |
| Text.RemoveFirst | generate_tags.js:44 | `replace('"', "")`: deletes the first occurrence, and only it; unchanged when there is none |
| Seqs.Dedupe | generate_tags.js:44 | `[...new Set(xs)]`: no duplicates, exactly the elements of `xs` |
| Seqs.DedupeHead | generate_tags.js:44 | the first element is kept, in front |
| Seqs.DedupeKeepsFirstSeenOrder | generate_tags.js:44 | the kept elements are ordered by their first occurrence in `xs` |
| Metadata.TitleCapture | generate_tags.js:28 | no capture exactly when `<title>` followed by a non-`|` character occurs nowhere; a capture is non-empty and has no `|` |
| Metadata.ExtractTitle | generate_tags.js:36 | the title has no `|`; it is `Untitled` when the pattern matches nowhere |
| Metadata.TitleIsTextUpToPipe | generate_tags.js:28-36 | the title is the trimmed text from the first matching `<title>` up to the next `|` or the end of the content |
| Metadata.TitleOfOpeningTagThenText | generate_tags.js:28-36 | `<title>` followed by `|`-free text without surrounding white space yields that text |
| Metadata.TitleRunsPastClosingTag | generate_tags.js:27-28 | with no `|`, the title includes `</title>` and everything after it |
| Metadata.StripMovieReview | generate_tags.js:38 | a title starting with `Movie Review:` loses the prefix and all white space after it; any other title is unchanged |
| Metadata.DateCaptureAt | generate_tags.js:31 | a match at `i` starts with the meta `div`; the capture lies after it, is non-empty, and has no `<` or newline |
| Metadata.CaptureAfter | generate_tags.js:31 | once `[^>]*>` has ended, the capture starts after the `>` and holds only characters other than `<` and newline |
| Metadata.IsSelected | generate_tags.js:53-64 | the scans read names ending in `.html`, and in the movies directory not `movies.html` |
| Metadata.DateCapture | generate_tags.js:31 | no capture exactly when no position matches; a capture is non-empty with no `<` or newline |
| Metadata.ExtractDate | generate_tags.js:42 | the date has no `<` or newline; it is `Unknown Date` when the pattern matches nowhere |
| Metadata.DateMissing | generate_tags.js:31-42 | without a meta `div` the date is `Unknown Date` |
| Metadata.DateIsFirstTextLine | generate_tags.js:31-42 | the date is the trimmed rest of the first text line after the `>` of the first meta `div` at which the pattern matches, up to `<` or a newline |
| Metadata.FirstDateMatch | generate_tags.js:31 | the leftmost position at which the pattern matches decides the capture; earlier meta `div`s where it fails are skipped |
| Metadata.MetaWithoutTextFails | generate_tags.js:31 | a meta `div` whose `>` is followed only by line breaks before `<` or the end is no match |
| Metadata.DateCaptureIs | generate_tags.js:31 | after `>` and white space, the capture runs from the first non-space character up to `<` or a newline |
| Metadata.DateEmptyBeforeMarkup | generate_tags.js:31-42 | white space between `>` and `<` whose last character is not a line break gives the empty date, not the placeholder |
| Metadata.DateCaptureBeforeMarkup | generate_tags.js:31 | in that case the engine backtracks into `\s*` and captures that last character alone |
| Metadata.TagLinkAt | generate_tags.js:34 | a tag link at `i`: `href="/tags/`, a non-empty quote-free slug, and the closing quote |
| Metadata.TagMatches | generate_tags.js:34 | every element of the global match list is a whole tag link |
| Metadata.TagMatchesEmptyIffNoLink | generate_tags.js:34 | the match list is empty exactly when no position holds a tag link |
| Metadata.TagOfMatch | generate_tags.js:44 | the tag is a prefix of the slug with no `/` or `"`, cut at the slug's first `/` or running to its end |
| Metadata.ThirdPieceOfMatch | generate_tags.js:44 | `split("/")[2]` of a link is the text after `/tags/` up to its first `/` |
| Metadata.TagsOfMatches | generate_tags.js:44 | one tag per match, in match order |
| Metadata.ExtractTags | generate_tags.js:43-45 | a string is a tag exactly when it is the tag of some element of the global match list; tags are distinct and free of `/` and `"`; the list is empty exactly when there is no tag link |
| Metadata.FirstTagLink | generate_tags.js:34-44 | the first tag link on the page gives the first tag |
| Metadata.TagMatchesSkip | generate_tags.js:34 | the global search skips positions without a link |
| Metadata.TagsInFirstSeenOrder | generate_tags.js:44 | the tags appear in the order of their first link |
| Metadata.ExtractMetadata | generate_tags.js:26-48 | the record's URL, date and tags are the extracted ones, the tags distinct and the date free of `<` and newlines; its title is the extracted title, with the review prefix stripped for movies |
| Metadata.Url | generate_tags.js:46 | the URL is the directory's name between slashes, then the file name |
| Metadata.UrlsDistinct | generate_tags.js:46 | different files, or files of different directories, get different URLs |
| TagIndex.ScanDir | generate_tags.js:50-70 | a scan yields at most one record per listed file |
| TagIndex.ScanDirOrigin | generate_tags.js:52-55 | every scanned record is the metadata of a selected entry of the listing (a name ending in `.html`, and for movies not `movies.html`) |
| TagIndex.ScanDirComplete | generate_tags.js:52-55 | every selected entry's metadata is among the scanned records |
| TagIndex.FileRecords | generate_tags.js:53-55 | an entry contributes a record exactly when it is selected, and that record is its metadata |
| TagIndex.Bucket | generate_tags.js:56 | a bucket holds only records carrying its tag, at most one per record scanned |
| TagIndex.IndexOf | generate_tags.js:56 | every bucket of the tag map holds only records carrying its key |
| TagIndex.BucketMembership | generate_tags.js:56 | a record is in the bucket of `t` exactly when it was scanned and carries `t` |
| TagIndex.TagsOfMembership | generate_tags.js:56 | the map's keys are exactly the tags of the scanned records |
| TagIndex.BucketOfConcat | generate_tags.js:56-67 | the bucket of the posts followed by the movies is the posts' bucket followed by the movies' |
| TagIndex.BucketNoDup | generate_tags.js:56 | distinct records give a bucket without duplicates |
| TagIndex.IndexExact | generate_tags.js:56 | the tag map has a key exactly for each tag used, holding that tag's bucket |
| TagIndex.PartiallyAddedStep | generate_tags.js:56 | pushing the record onto one more of its tags' buckets is one step of adding it |
| TagIndex.PartiallyAddedAll | generate_tags.js:56 | once every tag is done, the map is the index of the records so far plus this one |
| TagIndex.ScanUrlsDistinct | generate_tags.js:52-56 | one scan's records have distinct URLs |
| TagIndex.RunRecordsDistinct | generate_tags.js:50-70 | all records of both scans are distinct |
| TagIndex.RunBucketsNoDup | generate_tags.js:56-67 | no bucket of the final map lists a record twice |
| TagIndex.SiteScan.constructor | generate_tags.js:19-21 | the accumulators start empty |
| TagIndex.SiteScan.AddToBuckets | generate_tags.js:56 | the loop over the tags leaves the map equal to the index of every record scanned, this one included; the lists are unchanged |
| TagIndex.SiteScan.ScanFile | generate_tags.js:53-56 | a selected file's metadata is appended to its category's list and to the buckets; any other file changes nothing |
| TagIndex.SiteScan.Scan | generate_tags.js:51-58 | after the loop the category's list is extended by the scan's records, the other list is unchanged, and the map indexes everything scanned |
| TagIndex.BuildIndex | generate_tags.js:50-70 | `allPosts` and `allMovies` are the two scans, and `tagMap` is the index of the posts followed by the movies |
| Render.Fragment | generate_tags.js:81-85 | an item's anchor opens with the indented `<a href="` and closes with the indented `</a>` |
| Render.GeneratePostListHtml | generate_tags.js:78-88 | the rendered list is empty exactly when there are no items |
| Render.RenderConcat | generate_tags.js:79-87 | rendering two non-empty lists one after the other joins their renderings with a newline |
| Render.RenderCons | generate_tags.js:79-87 | an item in front of a non-empty list adds its anchor and a newline |
| Render.FragmentParses | generate_tags.js:81-85 | one anchor, followed by any text, reads back as the item's link, date and title and that text |
| Render.ItemsParse | generate_tags.js:78-88 | a non-empty rendered list reads back as its items' entries |
| Render.RenderThenParse | generate_tags.js:78-88 | any rendered list of readable items reads back as their links, dates and titles, in order |
| PageUpdate.RegionMatch | generate_tags.js:108 | a found region lies within the page, its start marker before its end marker |
| PageUpdate.RegionMatchSpec | generate_tags.js:108 | a region is found exactly when one exists; it runs from the first start marker to the last end marker, and contains every other region |
| PageUpdate.Substitute | generate_tags.js:110 | a replacement without `$` is inserted as it is |
| PageUpdate.DollarAmpersandRepeatsMatch | generate_tags.js:110 | `$&` in the replacement inserts the replaced region again |
| PageUpdate.ReplaceRegion | generate_tags.js:108-110 | a replacement happens exactly when the pattern matches |
| PageUpdate.ReplaceKeepsOutside | generate_tags.js:108-110 | with a `$`-free replacement the text before and after the region is kept, and the region becomes the replacement |
| PageUpdate.RegionOfReplaced | generate_tags.js:104-110 | after a marked replacement, the region found is exactly the inserted text |
| PageUpdate.ReplaceIdempotent | generate_tags.js:104-110 | replacing again with the same marked, `$`-free text changes nothing |
| PageUpdate.ItemsToShow | generate_tags.js:103 | a prefix of the items: the first `limit` items when a non-zero limit is smaller than their number, all of them otherwise |
| PageUpdate.NewListHtml | generate_tags.js:104-106 | the new list starts and ends with the markers, and the rendered items sit between them |
| PageUpdate.NoDollarInList | generate_tags.js:81-87 | items without `$` render without `$` |
| PageUpdate.NoDollarInNewList | generate_tags.js:104-106 | the new list of such items has no `$` |
| PageUpdate.ConfigFilesDistinct | generate_tags.js:92-96 | the three configurations in `CONFIGS` name three different pages |
| PageUpdate.ConfiguredLimits | generate_tags.js:92-103 | `index.html` shows the first five posts, or all when there are fewer; the other two pages show their whole list |
| PageUpdate.UpdatePage | generate_tags.js:98-113 | the callback writes the page exactly when it exists and its region is found, with the replaced content |
| PageUpdate.UpdateMainPages | generate_tags.js:91-115 | the loop leaves the pages as the configurations make them, in order, and reports the pages written |
| PageUpdate.UpdatedPage | generate_tags.js:108-110 | a page gets new content exactly when the region pattern matches it |
| PageUpdate.PageAfter | generate_tags.js:108-111 | a page where the pattern does not match keeps its content |
| PageUpdate.ApplyConfig | generate_tags.js:99-111 | one configuration changes at most its own page, to its updated content, and creates none |
| PageUpdate.PagesAfter | generate_tags.js:98-114 | no page is created or removed |
| PageUpdate.Written | generate_tags.js:98-114 | at most one page is written per configuration, and only an existing one |
| PageUpdate.PagesAfterUntouched | generate_tags.js:98-114 | a page no configuration names is unchanged |
| PageUpdate.PagesAfterConfigured | generate_tags.js:98-114 | a page named by one configuration ends as that configuration makes it |
| PageUpdate.PagesAfterEffect | generate_tags.js:98-114 | with distinct page names, the configurations act independently |
| PageUpdate.MainPagesEffect | generate_tags.js:91-115 | each of the three pages that exists gets its update; every other file is unchanged |
| PageUpdate.WritesIffRegion | generate_tags.js:100-111 | a page is written exactly when it exists and holds a start marker followed by an end marker |
| PageUpdate.NoRegionKeepsPage | generate_tags.js:108-111 | a page without a region keeps its content |
| PageUpdate.ShownFromList | generate_tags.js:103 | every item shown comes from the configured list |
| PageUpdate.UpdatedPageSplices | generate_tags.js:102-110 | with `$`-free items the page keeps everything outside its region, and the region becomes the new list of the items shown |
| PageUpdate.PageAfterIdempotent | generate_tags.js:102-111 | running the update again over its own output changes nothing |
| PageUpdate.NewListReadsBack | generate_tags.js:104-106 | the new list, read back between its markers, gives its items' entries |
| PageUpdate.UpdatedPageReadsBack | generate_tags.js:102-111 | after the update the page's list region reads back as the link, date and title of each item shown, in order |

## Left out

- Clearing and recreating the `tags` directory (`generate_tags.js:13-17`): a file-system side effect with nothing to compute.
- Tag-page generation (`generate_tags.js:119-167`): the `mkdir`, the page template and the write are left out. It renders each bucket with the same `GeneratePostListHtml`, and the buckets are modelled.
- Sorting by date (`generate_tags.js:72-75` and the `items.sort` at 124): the key is `new Date(string)`, which parses dates in an implementation-defined way. `UpdateMainPages` takes `allPosts` and `allMovies` as parameters, as the sort left them.
- File-system access is replaced by values:
  - A directory is its listing, a sequence of `SourceFile` in `readdirSync` order, and a missing directory is an empty listing.
  - The root directory is a map from page name to content, and `existsSync` is membership.
  - Writes are the new map and the list of pages written.
- Reading files as UTF-8 text: a file's content is given as a string. JavaScript's UTF-16 code units and surrogate pairs are not modelled, and characters are Unicode scalar values.
- Console output (`generate_tags.js:112` and the summary at 169) is left out.
- The general regular-expression engine is left out. Only the four patterns the script uses are modelled, each by its own matcher.
- `tagMap` is a plain object in the script. A slug that names an inherited property, such as `constructor`, makes `tagMap[tag]` a function, so `.push` throws. The model's `map` has no inherited keys, so this failure is not modelled.
- Records are shared by reference between the lists and the buckets. They are never mutated after creation, so the model keeps them as values.
