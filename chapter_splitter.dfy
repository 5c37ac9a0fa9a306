/** Stages 3 and 4 of the chapter splitter and its driver `main_split`:
    de-duplicating the chapter table by page, sorting it by page, translating
    visible pages into physical indices, and cutting the document into one
    output file per chapter. */
module ChapterSplitter {
  import opened Outcomes
  import opened Text
  import PageDetection
  import Interpolation

  /** A chapter: its title and a page number (visible, then physical). */
  datatype Chapter = Chapter(title: string, page: int)

  /** One written output file: its path and the physical pages copied into it. */
  datatype SavedFile = SavedFile(path: string, pages: seq<nat>)

  // ---------------------------------------------------------------------
  // remove_duplicate_page_numbers
  // ---------------------------------------------------------------------

  /** A chapter dict `{title: page}` has distinct titles: they are its keys. */
  predicate DistinctTitles(d: seq<(string, int)>) {
    forall i, j :: 0 <= i < j < |d| ==> d[i].0 != d[j].0
  }

  predicate Distinct(s: seq<int>) {
    forall i, j :: 0 <= i < j < |s| ==> s[i] != s[j]
  }

  /** The pages of a chapter dict, in insertion order. */
  function PagesOfDict(d: seq<(string, int)>): (ps: seq<int>)
    ensures |ps| == |d| && forall k :: 0 <= k < |d| ==> ps[k] == d[k].1
  {
    seq(|d|, k requires 0 <= k < |d| => d[k].1)
  }

  /** The keys of a page-to-title dict, in insertion order. */
  function KeysOf(seen: seq<(int, string)>): (ks: seq<int>)
    ensures |ks| == |seen| && forall k :: 0 <= k < |seen| ==> ks[k] == seen[k].0
  {
    seq(|seen|, k requires 0 <= k < |seen| => seen[k].0)
  }

  /** The distinct elements of `s`, in order of first occurrence. */
  function FirstOccurrences(s: seq<int>): (r: seq<int>)
    ensures Distinct(r)
    ensures forall x :: x in r <==> x in s
  {
    if s == [] then []
    else
      var init := FirstOccurrences(s[..|s| - 1]);
      assert s == s[..|s| - 1] + [s[|s| - 1]];
      if s[|s| - 1] in s[..|s| - 1] then init else init + [s[|s| - 1]]
  }

  /** Index of the first occurrence of `x` in `s`. */
  function IndexOf(s: seq<int>, x: int): (i: nat)
    requires x in s
    ensures i < |s| && s[i] == x && forall j :: 0 <= j < i ==> s[j] != x
  {
    if x in s[..|s| - 1] then IndexOf(s[..|s| - 1], x) else |s| - 1
  }

  /** `FirstOccurrences` lists elements by the position of their first occurrence. */
  lemma {:induction false} FirstOccurrencesOrdered(s: seq<int>, a: nat, b: nat)
    requires a < b < |FirstOccurrences(s)|
    ensures IndexOf(s, FirstOccurrences(s)[a]) < IndexOf(s, FirstOccurrences(s)[b])
  {
    var init := s[..|s| - 1];
    var r, r0 := FirstOccurrences(s), FirstOccurrences(init);
    assert s == init + [s[|s| - 1]];
    if b < |r0| {
      FirstOccurrencesOrdered(init, a, b);
      assert r[a] == r0[a] && r[b] == r0[b];
      assert r0[a] in init && r0[b] in init;
      PrefixIndexOf(s, r0[a]);
      PrefixIndexOf(s, r0[b]);
    } else {
      assert r[a] == r0[a] && r0[a] in init;
      PrefixIndexOf(s, r0[a]);
    }
  }

  lemma PrefixIndexOf(s: seq<int>, x: int)
    requires |s| > 0 && x in s[..|s| - 1]
    ensures IndexOf(s, x) == IndexOf(s[..|s| - 1], x) < |s| - 1
  {
  }

  /** The title of the last entry of `d` whose page is `p`. */
  function LastTitleFor(d: seq<(string, int)>, p: int): (t: Option<string>)
    ensures t.Some? <==> p in PagesOfDict(d)
    ensures t.Some? ==> (t.value, p) in d
  {
    if d == [] then None
    else
      assert PagesOfDict(d) == PagesOfDict(d[..|d| - 1]) + [d[|d| - 1].1];
      if d[|d| - 1].1 == p then Some(d[|d| - 1].0)
      else LastTitleFor(d[..|d| - 1], p)
  }

  /** `seen[page] = title` on an insertion-ordered dict with distinct keys:
      an existing key keeps its place and takes the new value, a new key is
      appended. */
  function Assign(seen: seq<(int, string)>, page: int, title: string): (r: seq<(int, string)>)
    requires Distinct(KeysOf(seen))
    ensures page in KeysOf(seen) ==> KeysOf(r) == KeysOf(seen)
    ensures page !in KeysOf(seen) ==> KeysOf(r) == KeysOf(seen) + [page]
    ensures forall k :: 0 <= k < |r| && r[k].0 == page ==> r[k].1 == title
    ensures forall k :: 0 <= k < |seen| && seen[k].0 != page ==> r[k] == seen[k]
  {
    if page in KeysOf(seen) then seen[IndexOf(KeysOf(seen), page) := (page, title)]
    else seen + [(page, title)]
  }

  /** One more entry of the chapter dict, seen from its prefixes. */
  lemma DictStep(d: seq<(string, int)>, i: nat)
    requires i < |d|
    ensures PagesOfDict(d[..i + 1]) == PagesOfDict(d[..i]) + [d[i].1]
    ensures forall p :: LastTitleFor(d[..i + 1], p) == if p == d[i].1 then Some(d[i].0) else LastTitleFor(d[..i], p)
  {
    var e := d[..i + 1];
    assert e[..i] == d[..i];
    forall p ensures LastTitleFor(e, p) == if p == d[i].1 then Some(d[i].0) else LastTitleFor(d[..i], p) {
      assert e[|e| - 1] == d[i];
    }
  }

  /** In a dict with distinct titles, distinct pages have distinct last titles. */
  lemma LastTitlesDistinct(d: seq<(string, int)>, seen: seq<(int, string)>)
    requires DistinctTitles(d) && Distinct(KeysOf(seen))
    requires forall k :: 0 <= k < |seen| ==> LastTitleFor(d, seen[k].0) == Some(seen[k].1)
    ensures forall a, b :: 0 <= a < b < |seen| ==> seen[a].1 != seen[b].1
  {
    forall a, b | 0 <= a < b < |seen| ensures seen[a].1 != seen[b].1 {
      assert (seen[a].1, seen[a].0) in d && (seen[b].1, seen[b].0) in d;
      assert KeysOf(seen)[a] != KeysOf(seen)[b];
    }
  }

  /** `deduped` holds the distinct pages of `chapterDict` in order of first
      occurrence, each with the last title seen with it. */
  ghost predicate DedupOf(chapterDict: seq<(string, int)>, deduped: seq<(string, int)>)
  {
    && PagesOfDict(deduped) == FirstOccurrences(PagesOfDict(chapterDict))
    && forall k :: 0 <= k < |deduped| ==> LastTitleFor(chapterDict, deduped[k].1) == Some(deduped[k].0)
  }

  /** `remove_duplicate_page_numbers`: `seen[page] = title` over the dict's
      items, then the comprehension `{title: page for page, title in
      seen.items()}`, which has no clashing keys because the last titles of
      distinct pages are distinct. */
  method RemoveDuplicatePages(chapterDict: seq<(string, int)>) returns (deduped: seq<(string, int)>)
    requires DistinctTitles(chapterDict)
    ensures DedupOf(chapterDict, deduped)
    ensures DistinctTitles(deduped)
  {
    var seen: seq<(int, string)> := [];
    for i := 0 to |chapterDict|
      invariant KeysOf(seen) == FirstOccurrences(PagesOfDict(chapterDict[..i]))
      invariant forall k :: 0 <= k < |seen| ==> LastTitleFor(chapterDict[..i], seen[k].0) == Some(seen[k].1)
    {
      var (title, page) := chapterDict[i];
      DictStep(chapterDict, i);
      assert (PagesOfDict(chapterDict[..i]) + [page])[..i] == PagesOfDict(chapterDict[..i]);
      seen := Assign(seen, page, title);
    }
    assert chapterDict[..|chapterDict|] == chapterDict;
    LastTitlesDistinct(chapterDict, seen);
    deduped := seq(|seen|, k requires 0 <= k < |seen| => (seen[k].1, seen[k].0));
    assert PagesOfDict(deduped) == KeysOf(seen);
  }

  /** Every page of the input survives de-duplication, exactly once. */
  lemma DedupKeepsEveryPage(chapterDict: seq<(string, int)>, deduped: seq<(string, int)>, p: int)
    requires PagesOfDict(deduped) == FirstOccurrences(PagesOfDict(chapterDict))
    ensures p in PagesOfDict(deduped) <==> p in PagesOfDict(chapterDict)
    ensures forall a, b :: 0 <= a < b < |deduped| ==> deduped[a].1 != deduped[b].1
  {
    assert Distinct(PagesOfDict(deduped));
  }

  // ---------------------------------------------------------------------
  // Building and sorting the chapter list in main_split
  // ---------------------------------------------------------------------

  /** `[{"title": t, "page": int(p)} for t, p in chapter_dict.items()]`. */
  function ToChapters(d: seq<(string, int)>): (cs: seq<Chapter>)
    ensures |cs| == |d| && forall k :: 0 <= k < |d| ==> cs[k] == Chapter(d[k].0, d[k].1)
  {
    seq(|d|, k requires 0 <= k < |d| => Chapter(d[k].0, d[k].1))
  }

  predicate SortedByPage(cs: seq<Chapter>) {
    forall i, j :: 0 <= i < j < |cs| ==> cs[i].page <= cs[j].page
  }

  /** Inserts `c` in front of the first chapter whose page is not smaller, so
      that it precedes the chapters with an equal page that came after it. */
  function InsertByPage(c: Chapter, sorted: seq<Chapter>): (r: seq<Chapter>)
    requires SortedByPage(sorted)
    ensures |r| == |sorted| + 1
    ensures r[0] == c || (sorted != [] && r[0] == sorted[0])
    ensures SortedByPage(r)
  {
    if sorted == [] || c.page <= sorted[0].page then [c] + sorted
    else
      var rest := InsertByPage(c, sorted[1..]);
      assert sorted[0].page <= rest[0].page;
      assert forall k :: 0 <= k < |rest| ==> rest[0].page <= rest[k].page;
      [sorted[0]] + rest
  }

  /** Insertion adds exactly the one chapter. */
  lemma {:induction false} InsertByPagePermutes(c: Chapter, sorted: seq<Chapter>)
    requires SortedByPage(sorted)
    ensures multiset(InsertByPage(c, sorted)) == multiset(sorted) + multiset{c}
  {
    if sorted != [] && c.page > sorted[0].page {
      InsertByPagePermutes(c, sorted[1..]);
      assert sorted == [sorted[0]] + sorted[1..];
    }
  }

  /** `chapters.sort(key=lambda x: x["page"])`, a stable sort by page. */
  function SortByPage(cs: seq<Chapter>): (r: seq<Chapter>)
    ensures SortedByPage(r)
    ensures multiset(r) == multiset(cs)
  {
    if cs == [] then []
    else
      assert cs == [cs[0]] + cs[1..];
      InsertByPagePermutes(cs[0], SortByPage(cs[1..]));
      InsertByPage(cs[0], SortByPage(cs[1..]))
  }

  // ---------------------------------------------------------------------
  // map_chapters_to_internal_indices
  // ---------------------------------------------------------------------

  /** The chapters whose page is a key of `m`, in order, with the page
      translated through `m`. */
  function Mapped(chapters: seq<Chapter>, m: map<int, int>): seq<Chapter>
  {
    if chapters == [] then []
    else
      var last := chapters[|chapters| - 1];
      Mapped(chapters[..|chapters| - 1], m) + (if last.page in m then [Chapter(last.title, m[last.page])] else [])
  }

  /** The positions of the chapters `Mapped` keeps. */
  function KeptIndices(chapters: seq<Chapter>, m: map<int, int>): seq<int>
  {
    if chapters == [] then []
    else
      var n := |chapters| - 1;
      KeptIndices(chapters[..n], m) + (if chapters[n].page in m then [n] else [])
  }

  /** `map_chapters_to_internal_indices`. */
  method MapChaptersToInternal(chapters: seq<Chapter>, m: map<int, int>) returns (internal: seq<Chapter>)
    ensures internal == Mapped(chapters, m)
  {
    internal := [];
    for i := 0 to |chapters|
      invariant internal == Mapped(chapters[..i], m)
    {
      assert chapters[..i + 1][..i] == chapters[..i];
      var chapter := chapters[i];
      if chapter.page in m {
        internal := internal + [Chapter(chapter.title, m[chapter.page])];
      }
    }
    assert chapters[..|chapters|] == chapters;
  }

  /** The kept positions are increasing positions of chapters whose page is a key. */
  lemma {:induction false} KeptIndicesOrdered(chapters: seq<Chapter>, m: map<int, int>)
    ensures forall k :: 0 <= k < |KeptIndices(chapters, m)| ==>
      0 <= KeptIndices(chapters, m)[k] < |chapters| && chapters[KeptIndices(chapters, m)[k]].page in m
    ensures forall a, b :: 0 <= a < b < |KeptIndices(chapters, m)| ==> KeptIndices(chapters, m)[a] < KeptIndices(chapters, m)[b]
  {
    if chapters != [] {
      var n := |chapters| - 1;
      var init := chapters[..n];
      KeptIndicesOrdered(init, m);
      forall k | 0 <= k < n ensures init[k] == chapters[k] { }
    }
  }

  /** Every chapter whose page is a key is kept. */
  lemma {:induction false} KeptIndicesComplete(chapters: seq<Chapter>, m: map<int, int>)
    ensures forall j :: j in KeptIndices(chapters, m) <==> 0 <= j < |chapters| && chapters[j].page in m
  {
    if chapters != [] {
      var n := |chapters| - 1;
      var init := chapters[..n];
      KeptIndicesComplete(init, m);
      forall k | 0 <= k < n ensures init[k] == chapters[k] { }
    }
  }

  /** The `k`-th result is the `k`-th kept chapter, its page translated. */
  lemma {:induction false} MappedAtKept(chapters: seq<Chapter>, m: map<int, int>)
    ensures var idx := KeptIndices(chapters, m);
      && |Mapped(chapters, m)| == |idx|
      && (forall k :: 0 <= k < |idx| ==>
            (0 <= idx[k] < |chapters| && chapters[idx[k]].page in m &&
             Mapped(chapters, m)[k] == Chapter(chapters[idx[k]].title, m[chapters[idx[k]].page])))
  {
    if chapters != [] {
      var n := |chapters| - 1;
      var init := chapters[..n];
      MappedAtKept(init, m);
      forall k | 0 <= k < n ensures init[k] == chapters[k] { }
    }
  }

  /** The result is an order-preserving subsequence of the chapters: exactly
      those whose page is a key, each with its title unchanged and its page
      replaced by the map's value. */
  lemma MappedIsOrderedSubsequence(chapters: seq<Chapter>, m: map<int, int>)
    ensures var idx := KeptIndices(chapters, m);
      && |Mapped(chapters, m)| == |idx|
      && (forall a, b :: 0 <= a < b < |idx| ==> idx[a] < idx[b])
      && (forall j :: j in idx <==> 0 <= j < |chapters| && chapters[j].page in m)
      && (forall k :: 0 <= k < |idx| ==>
            (0 <= idx[k] < |chapters| && chapters[idx[k]].page in m &&
             Mapped(chapters, m)[k] == Chapter(chapters[idx[k]].title, m[chapters[idx[k]].page])))
  {
    KeptIndicesOrdered(chapters, m);
    KeptIndicesComplete(chapters, m);
    MappedAtKept(chapters, m);
  }

  /** Translated pages are values of the map. */
  lemma {:induction false} MappedPagesAreValues(chapters: seq<Chapter>, m: map<int, int>, lo: int, hi: int)
    requires forall k :: k in m ==> lo <= m[k] <= hi
    ensures forall k :: 0 <= k < |Mapped(chapters, m)| ==> lo <= Mapped(chapters, m)[k].page <= hi
  {
    if chapters != [] {
      MappedPagesAreValues(chapters[..|chapters| - 1], m, lo, hi);
    }
  }

  // ---------------------------------------------------------------------
  // split_pdf_by_chapter_list
  // ---------------------------------------------------------------------

  /** Titles are cut to this many characters. */
  const TitleLimit: nat := 50

  /** The characters `[\w\-_. ]` a file name keeps. */
  predicate SafeChar(c: char) {
    IsWordChar(c) || c == '-' || c == '.' || c == ' '
  }

  function Sanitize(c: char): char {
    if SafeChar(c) then c else '_'
  }

  /** `re.sub(r"[^\w\-_. ]", "_", title)[:50]`. */
  function SafeTitle(title: string): (safe: string)
    ensures |safe| == if |title| <= TitleLimit then |title| else TitleLimit
    ensures forall k :: 0 <= k < |safe| ==> SafeChar(safe[k])
    ensures forall k :: 0 <= k < |safe| ==> if SafeChar(title[k]) then safe[k] == title[k] else safe[k] == '_'
  {
    var s := seq(|title|, k requires 0 <= k < |title| => Sanitize(title[k]));
    if |s| <= TitleLimit then s else s[..TitleLimit]
  }

  /** `f"{i+1:02d}_{safe_title}.pdf"`. */
  function FileName(i: nat, title: string): (name: string)
    ensures EndsWithPdf(name)
    ensures |name| == |ZeroPad2(i + 1)| + 1 + |SafeTitle(title)| + 4
  {
    PdfSuffix(ZeroPad2(i + 1), "_" + SafeTitle(title));
    ZeroPad2(i + 1) + ("_" + SafeTitle(title) + ".pdf")
  }

  /** A name whose last four characters are `.pdf` passes the `.pdf` test. */
  lemma PdfSuffix(head: string, stem: string)
    ensures EndsWithPdf(head + (stem + ".pdf"))
  {
    var name := head + (stem + ".pdf");
    assert name[|name| - 4..] == ".pdf";
  }

  /** The chapter number can be read back from the file name: it is the
      digit run before the first `_`. */
  lemma FileNameNumber(i: nat, title: string)
    ensures var name, d := FileName(i, title), ZeroPad2(i + 1);
      FindFirst(name, "_") == Some(|d|) && AllDigits(name[..|d|]) && ParseDecimal(name[..|d|]) == i + 1
  {
    var d, rest := ZeroPad2(i + 1), "_" + SafeTitle(title) + ".pdf";
    var name := FileName(i, title);
    assert name == d + rest;
    assert name[..|d|] == d;
    FindAfterDigits(d, rest);
  }

  /** Different chapters never share a file name. */
  lemma FileNamesDistinct(i: nat, j: nat, t1: string, t2: string)
    requires i != j
    ensures FileName(i, t1) != FileName(j, t2)
  {
    FileNameNumber(i, t1);
    FileNameNumber(j, t2);
  }

  /** `start`, `end` of chapter `i`: its own page, then the next chapter's
      page or, for the last chapter, the page count. */
  function Span(chapters: seq<Chapter>, total: nat, i: nat): (int, int)
    requires i < |chapters|
  {
    (chapters[i].page, if i + 1 < |chapters| then chapters[i + 1].page else total)
  }

  /** `reader.pages[p]` for a document of `total` pages: a negative index
      counts from the end, anything else outside the document fails. */
  function PageIndex(total: nat, p: int): (r: Option<nat>)
    ensures r.Some? <==> 0 <= p + total && p < total
    ensures r.Some? ==> r.value < total && (if p >= 0 then r.value == p else r.value == p + total)
  {
    if 0 <= p < total then Some(p)
    else if 0 <= p + total && p < 0 then Some(p + total)
    else None
  }

  /** What `reader.pages[p]` raises for a missing page. */
  function PageLookupError(): Exception {
    IndexError("sequence index out of range")
  }

  /** Every index of `range(start, end)` names a page. */
  predicate Readable(total: nat, start: int, end: int) {
    forall p :: start <= p < end ==> PageIndex(total, p).Some?
  }

  /** The physical pages `range(start, end)` copies. */
  function PagesRead(total: nat, start: int, end: int): (r: seq<nat>)
    requires Readable(total, start, end)
    ensures |r| == if start <= end then end - start else 0
    ensures forall k :: 0 <= k < |r| ==> r[k] == PageIndex(total, start + k).value
  {
    seq(if start <= end then end - start else 0, k requires 0 <= k && start + k < end => PageIndex(total, start + k).value)
  }

  /** Every index of chapter `i`'s range names a page. */
  ghost predicate ChapterReadable(chapters: seq<Chapter>, total: nat, i: nat)
    requires i < |chapters|
  {
    Readable(total, Span(chapters, total, i).0, Span(chapters, total, i).1)
  }

  /** File `i` of the split was written with its name and its page range. */
  ghost predicate ChapterSaved(chapters: seq<Chapter>, outputDir: string, total: nat, i: nat, f: SavedFile)
    requires i < |chapters|
  {
    var (start, end) := Span(chapters, total, i);
    Readable(total, start, end) &&
    f == SavedFile(JoinPath(outputDir, FileName(i, chapters[i].title)), PagesRead(total, start, end))
  }

  /** The page loop of one chapter: copies `range(start, end)`, stopping at
      the first index that names no page. */
  method CopyPages(total: nat, start: int, end: int) returns (copied: seq<nat>, ok: bool)
    ensures ok <==> Readable(total, start, end)
    ensures ok ==> copied == PagesRead(total, start, end)
  {
    copied := [];
    var p := start;
    while p < end
      invariant start <= end ==> start <= p <= end
      invariant start > end ==> p == start
      invariant Readable(total, start, p)
      invariant copied == PagesRead(total, start, p)
    {
      var index := PageIndex(total, p);
      if index.None? {
        return copied, false;
      }
      copied := copied + [index.value];
      p := p + 1;
    }
    ok := true;
  }

  /** What the split leaves behind: the files of the first chapters in order,
      all of them unless a page index of the next chapter's range names no
      page, which raises. */
  ghost predicate SplitOf(chapters: seq<Chapter>, outputDir: string, total: nat,
                          saved: seq<SavedFile>, failure: Option<Exception>)
  {
    && |saved| <= |chapters|
    && (forall i :: 0 <= i < |saved| ==> ChapterSaved(chapters, outputDir, total, i, saved[i]))
    && (failure.None? ==> |saved| == |chapters|)
    && (failure.Some? ==>
          |saved| < |chapters| && failure.value == PageLookupError() &&
          !ChapterReadable(chapters, total, |saved|))
  }

  /** `split_pdf_by_chapter_list`: one file per chapter, named after its
      position and title, holding the pages up to the next chapter's start.
      A page index outside the document raises after the earlier chapters
      were written. */
  method SplitByChapterList(chapters: seq<Chapter>, outputDir: string, total: nat)
    returns (saved: seq<SavedFile>, failure: Option<Exception>)
    ensures SplitOf(chapters, outputDir, total, saved, failure)
  {
    saved := [];
    for i := 0 to |chapters|
      invariant |saved| == i
      invariant forall k :: 0 <= k < i ==> ChapterSaved(chapters, outputDir, total, k, saved[k])
    {
      var file, ok := SaveChapter(chapters, outputDir, total, i);
      if !ok {
        return saved, Some(PageLookupError());
      }
      SavedSnoc(chapters, outputDir, total, saved, file);
      saved := saved + [file];
    }
    failure := None;
  }

  /** Appending the file of the next chapter keeps every earlier file as saved. */
  lemma SavedSnoc(chapters: seq<Chapter>, outputDir: string, total: nat, saved: seq<SavedFile>, file: SavedFile)
    requires |saved| < |chapters|
    requires forall k :: 0 <= k < |saved| ==> ChapterSaved(chapters, outputDir, total, k, saved[k])
    requires ChapterSaved(chapters, outputDir, total, |saved|, file)
    ensures forall k :: 0 <= k < |saved| + 1 ==> ChapterSaved(chapters, outputDir, total, k, (saved + [file])[k])
  {
    forall k | 0 <= k < |saved| + 1
      ensures ChapterSaved(chapters, outputDir, total, k, (saved + [file])[k])
    {
      if k < |saved| {
        assert (saved + [file])[k] == saved[k];
      }
    }
  }

  /** One iteration of the chapter loop: the pages of chapter `i`'s range
      under its file name, unless an index of the range names no page. */
  method SaveChapter(chapters: seq<Chapter>, outputDir: string, total: nat, i: nat)
    returns (file: SavedFile, ok: bool)
    requires i < |chapters|
    ensures ok <==> ChapterReadable(chapters, total, i)
    ensures ok ==> ChapterSaved(chapters, outputDir, total, i, file)
  {
    var (start, end) := Span(chapters, total, i);
    var copied;
    copied, ok := CopyPages(total, start, end);
    var outPath := JoinPath(outputDir, FileName(i, chapters[i].title));
    file := SavedFile(outPath, copied);
  }

  /** Consecutive chapters meet: each range ends where the next begins, and
      the last one ends at the page count. */
  lemma SpansContiguous(chapters: seq<Chapter>, total: nat, i: nat)
    requires i < |chapters|
    ensures i + 1 < |chapters| ==> Span(chapters, total, i).1 == Span(chapters, total, i + 1).0
    ensures i + 1 == |chapters| ==> Span(chapters, total, i).1 == total
    ensures Span(chapters, total, i).0 == chapters[i].page
  {
  }

  /** `list(range(a, b))`. */
  function Range(a: int, b: int): (r: seq<int>)
    ensures |r| == if a <= b then b - a else 0
    ensures forall k :: 0 <= k < |r| ==> r[k] == a + k
  {
    seq(if a <= b then b - a else 0, k requires 0 <= k && a + k < b => a + k)
  }

  /** A range inside the document is read as is, without wrap-around. */
  lemma InsideIsIdentity(total: nat, start: int, end: int)
    requires 0 <= start && end <= total
    ensures Readable(total, start, end)
    ensures PagesRead(total, start, end) == Range(start, end)
  {
  }

  /** The pages of chapters `i..` in order. */
  function PagesFrom(chapters: seq<Chapter>, total: nat, i: nat): seq<int>
    requires i <= |chapters|
    requires forall k :: 0 <= k < |chapters| ==> 0 <= chapters[k].page <= total
    decreases |chapters| - i
  {
    if i == |chapters| then []
    else
      var (start, end) := Span(chapters, total, i);
      InsideIsIdentity(total, start, end);
      PagesRead(total, start, end) + PagesFrom(chapters, total, i + 1)
  }

  lemma RangeConcat(a: int, b: int, c: int)
    requires a <= b <= c
    ensures Range(a, b) + Range(b, c) == Range(a, c)
  {
  }

  /** With the chapters sorted by page inside the document, the files
      partition the pages from the first chapter's start to the end: no page
      is lost or copied twice. */
  lemma {:induction false} SpansPartition(chapters: seq<Chapter>, total: nat, i: nat)
    requires SortedByPage(chapters) && i < |chapters|
    requires forall k :: 0 <= k < |chapters| ==> 0 <= chapters[k].page <= total
    ensures PagesFrom(chapters, total, i) == Range(chapters[i].page, total)
    decreases |chapters| - i
  {
    var (start, end) := Span(chapters, total, i);
    InsideIsIdentity(total, start, end);
    if i + 1 < |chapters| {
      SpansPartition(chapters, total, i + 1);
      RangeConcat(start, end, total);
    } else {
      assert PagesFrom(chapters, total, i + 1) == [];
    }
  }

  // ---------------------------------------------------------------------
  // main_split
  // ---------------------------------------------------------------------

  datatype SplitOutcome =
    | NoChaptersDetected        // "No chapters detected. Exiting."
    | NoChaptersMapped          // "Could not map any chapter pages. Exiting."
    | Raised(error: Exception)  // an exception escaped before any file was written
    | Split(saved: seq<SavedFile>, failure: Option<Exception>)

  /** Lines 170-172 of `main_split`: de-duplicate the table by page, turn
      its items into chapters and sort them by page. */
  method PrepareChapters(chapterDict: seq<(string, int)>) returns (chapters: seq<Chapter>, deduped: seq<(string, int)>)
    requires DistinctTitles(chapterDict)
    ensures DedupOf(chapterDict, deduped)
    ensures chapters == SortByPage(ToChapters(deduped))
  {
    deduped := RemoveDuplicatePages(chapterDict);
    chapters := SortByPage(ToChapters(deduped));
  }

  /** Lines 177-179 of `main_split`: the caller's map, else the detected map
      of the document, interpolated; interpolating an empty map raises. */
  method ResolveMap(pages: seq<string>, givenMap: Option<map<int, int>>)
    returns (r: Result<map<int, int>>, ghost visible: map<int, int>)
    ensures givenMap.Some? ==> r == Ok(givenMap.value)
    ensures givenMap.None? ==> PageDetection.IsVisibleMapOf(pages, visible)
    ensures givenMap.None? ==>
      (r.Err? <==> forall j :: 0 <= j < |pages| ==> PageDetection.Declared(pages[j]).None?)
    ensures r.Err? ==> r.error == IndexError("list index out of range")
    ensures givenMap.None? && r.Ok? ==>
      Interpolation.InterpolationOf(visible, Interpolation.MaxInterpolationRange, r.value) &&
      forall v :: v in r.value ==> 0 <= r.value[v] <= |pages| - 1
  {
    if givenMap.Some? {
      return Ok(givenMap.value), map[];
    }
    var detected := PageDetection.GetVisiblePageNumbers(pages);
    visible := detected;
    PageDetection.VisibleMapEmpty(pages, detected);
    r := Interpolation.Interpolate(detected, Interpolation.MaxInterpolationRange);
    if r.Ok? {
      PageDetection.VisibleMapValues(pages, detected);
      Interpolation.ValuesWithinRange(detected, Interpolation.MaxInterpolationRange, r.value, 0, |pages| - 1);
    }
  }

  /** `main_split` on a document given by its page texts. `chapterDict` is the
      caller's table (None when absent), `extracted` what the table-of-contents
      extraction returns in that case, and `givenMap` the caller's
      visible-to-physical map (None when absent). The ghost results name the
      intermediate values: the de-duplicated table, the sorted chapters, the
      detected map and the map the chapters are translated with. */
  method MainSplit(pages: seq<string>, outputDir: string, chapterDict: Option<seq<(string, int)>>,
                   extracted: seq<(string, int)>, givenMap: Option<map<int, int>>)
    returns (outcome: SplitOutcome, ghost deduped: seq<(string, int)>, ghost chapters: seq<Chapter>,
             ghost visible: map<int, int>, ghost m: map<int, int>)
    requires chapterDict.Some? ==> DistinctTitles(chapterDict.value)
    requires DistinctTitles(extracted)
    ensures outcome.NoChaptersDetected? <==> chapterDict.None? && extracted == []
    ensures outcome.Raised? <==>
      !(chapterDict.None? && extracted == []) && givenMap.None? &&
      forall j :: 0 <= j < |pages| ==> PageDetection.Declared(pages[j]).None?
    ensures outcome.Raised? ==> outcome.error == IndexError("list index out of range")
    ensures !outcome.NoChaptersDetected? ==>
      var table := if chapterDict.Some? then chapterDict.value else extracted;
      DedupOf(table, deduped) && chapters == SortByPage(ToChapters(deduped))
    ensures (outcome.NoChaptersMapped? || outcome.Split?) && givenMap.Some? ==> m == givenMap.value
    ensures (outcome.NoChaptersMapped? || outcome.Split?) && givenMap.None? ==>
      PageDetection.IsVisibleMapOf(pages, visible) &&
      Interpolation.InterpolationOf(visible, Interpolation.MaxInterpolationRange, m)
    ensures outcome.NoChaptersMapped? <==>
      !outcome.NoChaptersDetected? && !outcome.Raised? && Mapped(chapters, m) == []
    ensures outcome.Split? ==>
      Mapped(chapters, m) != [] && SplitOf(Mapped(chapters, m), outputDir, |pages|, outcome.saved, outcome.failure)
    ensures outcome.Split? ==> |outcome.saved| > 0 || outcome.failure.Some?
    ensures outcome.Split? && givenMap.None? ==>
      outcome.failure.None? &&
      forall i :: 0 <= i < |outcome.saved| ==> forall q :: q in outcome.saved[i].pages ==> q < |pages|
  {
    var dict: seq<(string, int)>;
    if chapterDict.None? {
      if extracted == [] {
        return NoChaptersDetected, [], [], map[], map[];
      }
      dict := extracted;
    } else {
      dict := chapterDict.value;
    }
    var sorted;
    sorted, deduped := PrepareChapters(dict);
    chapters := sorted;
    var resolved;
    resolved, visible := ResolveMap(pages, givenMap);
    if resolved.Err? {
      return Raised(resolved.error), deduped, chapters, visible, map[];
    }
    m := resolved.value;
    outcome := SplitMapped(|pages|, outputDir, sorted, resolved.value);
  }

  /** Lines 182-189 of `main_split`: translate the sorted chapters with the
      map, stop when none is left, else split the document. When every value
      of the map is a page of the document, no page lookup fails. */
  method SplitMapped(total: nat, outputDir: string, chapters: seq<Chapter>, m: map<int, int>)
    returns (outcome: SplitOutcome)
    ensures outcome.NoChaptersMapped? || outcome.Split?
    ensures outcome.NoChaptersMapped? <==> Mapped(chapters, m) == []
    ensures outcome.Split? ==> SplitOf(Mapped(chapters, m), outputDir, total, outcome.saved, outcome.failure)
    ensures outcome.Split? ==> |outcome.saved| > 0 || outcome.failure.Some?
    ensures outcome.Split? && (forall v :: v in m ==> 0 <= m[v] <= total - 1) ==>
      outcome.failure.None? &&
      forall i :: 0 <= i < |outcome.saved| ==> forall q :: q in outcome.saved[i].pages ==> q < total
  {
    var internal := MapChaptersToInternal(chapters, m);
    if internal == [] {
      return NoChaptersMapped;
    }
    var saved, failure := SplitByChapterList(internal, outputDir, total);
    if forall v :: v in m ==> 0 <= m[v] <= total - 1 {
      MappedPagesAreValues(chapters, m, 0, total - 1);
      SplitWithinDocument(internal, outputDir, total, saved, failure);
    }
    outcome := Split(saved, failure);
  }

  /** Chapters that all start inside the document split without error, and
      every file holds only pages of the document. */
  lemma SplitWithinDocument(chapters: seq<Chapter>, outputDir: string, total: nat,
                            saved: seq<SavedFile>, failure: Option<Exception>)
    requires forall k :: 0 <= k < |chapters| ==> 0 <= chapters[k].page <= total - 1
    requires SplitOf(chapters, outputDir, total, saved, failure)
    ensures failure.None?
    ensures forall i :: 0 <= i < |saved| ==> forall q :: q in saved[i].pages ==> q < total
  {
    if failure.Some? {
      var (start, end) := Span(chapters, total, |saved|);
      InsideIsIdentity(total, start, end);
      assert false;
    }
    forall i | 0 <= i < |saved| ensures forall q :: q in saved[i].pages ==> q < total {
      assert ChapterSaved(chapters, outputDir, total, i, saved[i]);
    }
  }
}
