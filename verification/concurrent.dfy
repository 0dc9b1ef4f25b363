/**
 The thread-pool downloader of `download_concurrent.py`: every page of
 `1..N` is fetched and saved as `<page:06d>.jpg` in a folder; the first
 failure in completion order is raised as a RuntimeError naming the page;
 `compile_dir_to_pdf` then binds the folder's image files in name order.

 The folder is a map from file name to contents, `iterdir` an input
 sequence of names in whatever order the file system returns them, and the
 completion order of the futures a permutation of the pages.
 */
module Concurrent {
  import opened Common
  import opened Strings
  import opened Numerals
  import opened Ranges
  import opened Resolver

  /** The name a page is saved under, whatever the source extension. */
  function OutputName(p: nat): string {
    PageName(p, "jpg")
  }

  /** The file of some page in `pages` whose response was ok. */
  ghost predicate SavedName(name: string, P: Params, fetch: Fetcher, pages: set<int>) {
    exists p: nat :: p in pages && name == OutputName(p) && fetch(PageUrl(P, p)).Ok()
  }

  /**
   The folder after the pages in `pages` have run: every page whose
   response was ok is saved with the response bytes, overwriting any old
   file of that name; other files are untouched; nothing else appears.
   */
  ghost predicate SavedPages(before: map<string, Bytes>, after: map<string, Bytes>,
                             P: Params, fetch: Fetcher, pages: set<int>)
  {
    && (forall name :: name in after <==> name in before || SavedName(name, P, fetch, pages))
    && (forall p: nat :: p in pages && fetch(PageUrl(P, p)).Ok() ==>
          OutputName(p) in after && after[OutputName(p)] == fetch(PageUrl(P, p)).content)
    && (forall name :: name in before && !SavedName(name, P, fetch, pages) ==>
          name in after && after[name] == before[name])
  }

  /** Position `k` of `order` holds the first page whose download failed. */
  ghost predicate FirstFailure(order: seq<int>, k: int, P: Params, fetch: Fetcher) {
    && 0 <= k < |order|
    && order[k] >= 1
    && !fetch(PageUrl(P, order[k])).Ok()
    && (forall i :: 0 <= i < k && order[i] >= 1 ==> fetch(PageUrl(P, order[i])).Ok())
  }

  /**
   `download_images_to_dir`: a ValueError when TotalPage is not an
   integer, before any download; otherwise every page is downloaded and
   saved, and the run raises exactly when some page failed, naming the
   first failure in completion order.
   */
  method DownloadImagesToDir(u: ReaderUrl, dir: map<string, Bytes>, fetch: Fetcher, order: seq<int>)
    returns (files: map<string, Bytes>, err: Option<Error>)
    requires ResolveUnchecked(u).Success? ==> IsCompletionOrder(order, ResolveUnchecked(u).value.pages)
    ensures ResolveUnchecked(u).Failure? ==> files == dir && err == Some(ValueError(InvalidTotalPage))
    ensures ResolveUnchecked(u).Success? ==>
      var P := ResolveUnchecked(u).value;
      && SavedPages(dir, files, P, fetch, Seen(order))
      && (err.None? <==> AllPagesOk(fetch, P))
      && (err.Some? ==> err.value.RuntimeError? && exists k :: FirstFailure(order, k, P, fetch) && order[k] == err.value.page)
  {
    var parsed := ResolveUnchecked(u);
    if parsed.Failure? {
      return dir, Some(parsed.error);
    }
    var P := parsed.value;
    files, err := SavePages(P, dir, fetch, order);
    if err.None? {
      AllOkInCompletionOrder(order, P, fetch);
    }
  }

  /** The pool's run: one download per page, completing in `order`. */
  method SavePages(P: Params, dir: map<string, Bytes>, fetch: Fetcher, order: seq<int>)
    returns (files: map<string, Bytes>, err: Option<Error>)
    requires IsCompletionOrder(order, P.pages)
    ensures SavedPages(dir, files, P, fetch, Seen(order))
    ensures err.None? <==> forall i :: 0 <= i < |order| ==> fetch(PageUrl(P, order[i])).Ok()
    ensures err.Some? ==> err.value.RuntimeError? && exists k :: FirstFailure(order, k, P, fetch) && order[k] == err.value.page
  {
    files := dir;
    err := None;
    ghost var at := -1;
    assert order[..0] == [];
    for k := 0 to |order|
      invariant files == SaveAll(dir, P, fetch, order[..k])
      invariant ErrorSoFar(order, k, P, fetch, err, at)
    {
      var page := order[k];
      var resp := fetch(PageUrl(P, page));
      var next := if resp.Ok() then files[OutputName(page) := resp.content] else files;
      assert order[..k + 1][..k] == order[..k];
      ErrorStep(order, k, P, fetch, err, at);
      files := next;
      if !resp.Ok() && err.None? {
        err := Some(RuntimeError(page));
        at := k;
      }
    }
    AllSaved(dir, P, fetch, order, |order|);
    assert order[..|order|] == order;
  }

  /**
   After the first `k` completions, `err` is set exactly when one of them
   failed, and then it names the first that did, at position `at`.
   */
  ghost predicate ErrorSoFar(order: seq<int>, k: nat, P: Params, fetch: Fetcher, err: Option<Error>, at: int)
    requires IsCompletionOrder(order, P.pages) && k <= |order|
  {
    && (err.None? <==> forall i :: 0 <= i < k ==> fetch(PageUrl(P, order[i])).Ok())
    && (err.Some? ==> 0 <= at < k && FirstFailure(order, at, P, fetch) && err == Some(RuntimeError(order[at])))
  }

  /** One more completion: the ok prefix grows by it, or it is the first failure. */
  lemma ErrorStep(order: seq<int>, k: nat, P: Params, fetch: Fetcher, err: Option<Error>, at: int)
    requires IsCompletionOrder(order, P.pages) && k < |order|
    requires ErrorSoFar(order, k, P, fetch, err, at)
    ensures var failed := !fetch(PageUrl(P, order[k])).Ok() && err.None?;
      ErrorSoFar(order, k + 1, P, fetch,
                 if failed then Some(RuntimeError(order[k])) else err,
                 if failed then k else at)
  {
  }

  /** The folder after one completed job: an ok page's file written, over any old one. */
  function Save(files: map<string, Bytes>, P: Params, fetch: Fetcher, page: int): (r: map<string, Bytes>)
  {
    if page >= 1 && fetch(PageUrl(P, page)).Ok() then files[OutputName(page) := fetch(PageUrl(P, page)).content]
    else files
  }

  /** The folder after the jobs completed in `order`, in that order. */
  function SaveAll(dir: map<string, Bytes>, P: Params, fetch: Fetcher, order: seq<int>): (r: map<string, Bytes>)
    ensures dir.Keys <= r.Keys
  {
    if order == [] then dir
    else Save(SaveAll(dir, P, fetch, order[..|order| - 1]), P, fetch, order[|order| - 1])
  }

  /** Saving in completion order leaves the folder `SavedPages` describes. */
  lemma {:induction false} AllSaved(dir: map<string, Bytes>, P: Params, fetch: Fetcher, order: seq<int>, k: nat)
    requires IsCompletionOrder(order, P.pages) && k <= |order|
    ensures SavedPages(dir, SaveAll(dir, P, fetch, order[..k]), P, fetch, Seen(order[..k]))
  {
    if k == 0 {
      assert order[..0] == [];
      assert Seen(order[..0]) == {};
    } else {
      AllSaved(dir, P, fetch, order, k - 1);
      assert order[..k][..k - 1] == order[..k - 1];
      SaveNext(dir, SaveAll(dir, P, fetch, order[..k - 1]), SaveAll(dir, P, fetch, order[..k]), P, fetch, order, k - 1);
    }
  }

  /** The folder after completion `k` is described by the first `k + 1` completions. */
  lemma SaveNext(dir: map<string, Bytes>, files: map<string, Bytes>, next: map<string, Bytes>,
                 P: Params, fetch: Fetcher, order: seq<int>, k: nat)
    requires IsCompletionOrder(order, P.pages) && k < |order|
    requires SavedPages(dir, files, P, fetch, Seen(order[..k]))
    requires var resp := fetch(PageUrl(P, order[k]));
             next == if resp.Ok() then files[OutputName(order[k]) := resp.content] else files
    ensures SavedPages(dir, next, P, fetch, Seen(order[..k + 1]))
  {
    SeenGrows(order, k);
    SaveStep(dir, files, next, P, fetch, Seen(order[..k]), order[k]);
  }

  lemma SeenGrows(order: seq<int>, k: nat)
    requires k < |order|
    ensures Seen(order[..k + 1]) == Seen(order[..k]) + {order[k]}
  {
    var a := order[..k];
    var b := order[..k + 1];
    forall x | x in Seen(b) ensures x in Seen(a) + {order[k]} {
      var i :| 0 <= i < |b| && b[i] == x;
      if i < k {
        assert a[i] == x;
      }
    }
    forall x | x in Seen(a) ensures x in Seen(b) {
      var i :| 0 <= i < |a| && a[i] == x;
      assert b[i] == x;
    }
    assert b[k] == order[k];
  }

  /** Running one more page extends the description of the folder to it. */
  lemma SaveStep(dir: map<string, Bytes>, files: map<string, Bytes>, next: map<string, Bytes>,
                 P: Params, fetch: Fetcher, pages: set<int>, page: nat)
    requires SavedPages(dir, files, P, fetch, pages)
    requires var resp := fetch(PageUrl(P, page));
             next == if resp.Ok() then files[OutputName(page) := resp.content] else files
    ensures SavedPages(dir, next, P, fetch, pages + {page})
  {
    SaveStepNames(dir, files, next, P, fetch, pages, page);
    SaveStepPages(dir, files, next, P, fetch, pages, page);
    SaveStepOthers(dir, files, next, P, fetch, pages, page);
  }

  lemma SaveStepNames(dir: map<string, Bytes>, files: map<string, Bytes>, next: map<string, Bytes>,
                      P: Params, fetch: Fetcher, pages: set<int>, page: nat)
    requires SavedPages(dir, files, P, fetch, pages)
    requires var resp := fetch(PageUrl(P, page));
             next == if resp.Ok() then files[OutputName(page) := resp.content] else files
    ensures forall name :: name in next <==> name in dir || SavedName(name, P, fetch, pages + {page})
  {
    var all := pages + {page};
    var ok := fetch(PageUrl(P, page)).Ok();
    forall name | name in next
      ensures name in dir || SavedName(name, P, fetch, all)
    {
      if name !in files {
        assert name == OutputName(page) && ok;
      }
    }
    forall name | SavedName(name, P, fetch, all)
      ensures name in next
    {
      var p: nat :| p in all && name == OutputName(p) && fetch(PageUrl(P, p)).Ok();
      if p != page {
        assert SavedName(name, P, fetch, pages);
      }
    }
  }

  lemma SaveStepPages(dir: map<string, Bytes>, files: map<string, Bytes>, next: map<string, Bytes>,
                      P: Params, fetch: Fetcher, pages: set<int>, page: nat)
    requires SavedPages(dir, files, P, fetch, pages)
    requires var resp := fetch(PageUrl(P, page));
             next == if resp.Ok() then files[OutputName(page) := resp.content] else files
    ensures forall p: nat :: p in pages + {page} && fetch(PageUrl(P, p)).Ok() ==>
              OutputName(p) in next && next[OutputName(p)] == fetch(PageUrl(P, p)).content
  {
    var ok := fetch(PageUrl(P, page)).Ok();
    forall p: nat | p in pages + {page} && fetch(PageUrl(P, p)).Ok()
      ensures OutputName(p) in next && next[OutputName(p)] == fetch(PageUrl(P, p)).content
    {
      if p != page && ok {
        if OutputName(p) == OutputName(page) {
          PageNameInjective(p, page, "jpg");
        }
      }
    }
  }

  lemma SaveStepOthers(dir: map<string, Bytes>, files: map<string, Bytes>, next: map<string, Bytes>,
                       P: Params, fetch: Fetcher, pages: set<int>, page: nat)
    requires SavedPages(dir, files, P, fetch, pages)
    requires var resp := fetch(PageUrl(P, page));
             next == if resp.Ok() then files[OutputName(page) := resp.content] else files
    ensures forall name :: name in dir && !SavedName(name, P, fetch, pages + {page}) ==>
              name in next && next[name] == dir[name]
  {
    var all := pages + {page};
    var ok := fetch(PageUrl(P, page)).Ok();
    forall name | name in dir && !SavedName(name, P, fetch, all)
      ensures name in next && next[name] == dir[name]
    {
      if ok {
        assert name != OutputName(page);
      }
    }
  }

  /** Every download in a completion order succeeding means every page of `1..N` is ok. */
  lemma AllOkInCompletionOrder(order: seq<int>, P: Params, fetch: Fetcher)
    requires IsCompletionOrder(order, P.pages)
    ensures (forall i :: 0 <= i < |order| ==> fetch(PageUrl(P, order[i])).Ok())
            <==> AllPagesOk(fetch, P)
  {
    if forall i :: 0 <= i < |order| ==> fetch(PageUrl(P, order[i])).Ok() {
      forall p: nat | 1 <= p <= P.pages
        ensures fetch(PageUrl(P, p)).Ok()
      {
        assert p in order;
        var i :| 0 <= i < |order| && order[i] == p;
      }
    }
  }

  /** `PurePath.suffix`: from the last dot on, unless that dot leads or ends the name. */
  function Suffix(name: string): (r: string)
    ensures r == "" || (r[0] == '.' && EndsWith(name, r) && |r| >= 2 && |r| < |name|)
    ensures forall j :: 1 <= j < |r| ==> r[j] != '.'
    ensures r != "" <==> exists i :: 0 < i < |name| - 1 && name[i] == '.' && NoDotAfter(name, i)
  {
    var i := LastIndexOf(name, '.');
    if 0 < i < |name| - 1 then name[i..] else ""
  }

  /** No `.` in `name` after index `i`. */
  predicate NoDotAfter(name: string, i: nat) {
    forall j :: i < j < |name| ==> name[j] != '.'
  }

  /**
   A name made of a non-empty stem, a dot, and a non-empty extension
   without dots has that extension, dot included, as its suffix.
   */
  lemma SuffixOfStemExt(stem: string, ext: string)
    requires |stem| > 0 && |ext| > 0
    requires forall j :: 0 <= j < |ext| ==> ext[j] != '.'
    ensures Suffix(stem + "." + ext) == "." + ext
  {
    var name := stem + "." + ext;
    var i := |stem|;
    assert name[i] == '.';
    forall j | i < j < |name|
      ensures name[j] != '.'
    {
      assert name[j] == ext[j - i - 1];
    }
    var k := LastIndexOf(name, '.');
    assert k == i;
    assert name[i..] == "." + ext;
  }

  /** The filter of `compile_dir_to_pdf`: a `.jpg`, `.jpeg` or `.png` suffix in any case. */
  predicate IsImageName(name: string) {
    Lower(Suffix(name)) in {".jpg", ".jpeg", ".png"}
  }

  /** The image files among `names`, in listing order. */
  function ImageFiles(names: seq<string>): (r: seq<string>)
    ensures forall x :: multiset(r)[x] == if IsImageName(x) then multiset(names)[x] else 0
  {
    if names == [] then []
    else
      assert names == [names[0]] + names[1..];
      (if IsImageName(names[0]) then [names[0]] else []) + ImageFiles(names[1..])
  }

  /** Ascending in Python's string order. */
  predicate LexSorted(s: seq<string>) {
    forall i, j :: 0 <= i < j < |s| ==> LexLe(s[i], s[j])
  }

  function LexInsert(x: string, ys: seq<string>): (r: seq<string>)
    requires LexSorted(ys)
    ensures multiset(r) == multiset(ys) + multiset{x}
    ensures LexSorted(r)
  {
    if ys == [] || LexLe(x, ys[0]) then
      BelowHeadBelowAll(x, ys);
      ConsLexSorted(x, ys);
      [x] + ys
    else
      var rest := LexInsert(x, ys[1..]);
      assert ys == [ys[0]] + ys[1..];
      LexLessTotal(x, ys[0]);
      HeadBelowLexInserted(ys[0], x, ys[1..], rest);
      ConsLexSorted(ys[0], rest);
      [ys[0]] + rest
  }

  lemma BelowHeadBelowAll(x: string, ys: seq<string>)
    requires LexSorted(ys)
    requires ys == [] || LexLe(x, ys[0])
    ensures forall i :: 0 <= i < |ys| ==> LexLe(x, ys[i])
  {
    forall i | 0 < i < |ys| ensures LexLe(x, ys[i]) {
      LexLeTransitive(x, ys[0], ys[i]);
    }
  }

  lemma ConsLexSorted(y: string, s: seq<string>)
    requires LexSorted(s)
    requires forall i :: 0 <= i < |s| ==> LexLe(y, s[i])
    ensures LexSorted([y] + s)
  {
    var t := [y] + s;
    forall i, j | 0 <= i < j < |t| ensures LexLe(t[i], t[j]) {
      assert t[j] == s[j - 1];
      if i > 0 {
        assert t[i] == s[i - 1];
      }
    }
  }

  lemma HeadBelowLexInserted(y: string, x: string, tail: seq<string>, rest: seq<string>)
    requires forall i :: 0 <= i < |tail| ==> LexLe(y, tail[i])
    requires LexLe(y, x)
    requires multiset(rest) == multiset(tail) + multiset{x}
    ensures forall i :: 0 <= i < |rest| ==> LexLe(y, rest[i])
  {
    forall i | 0 <= i < |rest| ensures LexLe(y, rest[i]) {
      assert rest[i] in multiset(rest);
      if rest[i] != x {
        assert rest[i] in multiset(tail);
        var j :| 0 <= j < |tail| && tail[j] == rest[i];
      }
    }
  }

  /** `sorted(files)`: a rearrangement of `names` in ascending string order. */
  function LexSort(names: seq<string>): (r: seq<string>)
    ensures multiset(r) == multiset(names)
    ensures LexSorted(r)
  {
    if names == [] then []
    else
      assert names == [names[0]] + names[1..];
      LexInsert(names[0], LexSort(names[1..]))
  }

  /**
   `compile_dir_to_pdf`: a ValueError when the folder holds no image file;
   otherwise one PDF page per image file, in ascending name order.
   */
  function CompileDirToPdf(names: seq<string>): (r: Result<seq<string>>)
    ensures r.Failure? <==> forall i :: 0 <= i < |names| ==> !IsImageName(names[i])
    ensures r.Failure? ==> r.error == ValueError(NoImages)
    ensures r.Success? ==> LexSorted(r.value)
    ensures r.Success? ==> forall x :: multiset(r.value)[x] == if IsImageName(x) then multiset(names)[x] else 0
  {
    var files := LexSort(ImageFiles(names));
    NoImageFiles(names);
    if files == [] then Failure(ValueError(NoImages)) else Success(files)
  }

  lemma NoImageFiles(names: seq<string>)
    ensures ImageFiles(names) == [] <==> forall i :: 0 <= i < |names| ==> !IsImageName(names[i])
  {
    if ImageFiles(names) == [] {
      forall i | 0 <= i < |names| ensures !IsImageName(names[i]) {
        assert names[i] in multiset(names);
      }
    } else {
      var x := ImageFiles(names)[0];
      assert x in multiset(ImageFiles(names));
      assert x in multiset(names);
    }
  }

  /** Two string-sorted arrangements of the same names are the same. */
  lemma {:induction false} LexSortedUnique(r: seq<string>, c: seq<string>)
    requires LexSorted(r) && LexSorted(c)
    requires multiset(r) == multiset(c)
    ensures r == c
    decreases |r|
  {
    assert |r| == |multiset(r)| == |multiset(c)| == |c|;
    if |r| > 0 {
      LexHeadsAgree(r, c);
      assert r == [r[0]] + r[1..];
      assert c == [c[0]] + c[1..];
      assert multiset(r[1..]) == multiset(r) - multiset{r[0]};
      assert multiset(c[1..]) == multiset(c) - multiset{c[0]};
      LexSortedUnique(r[1..], c[1..]);
    }
  }

  lemma LexHeadsAgree(r: seq<string>, c: seq<string>)
    requires |r| > 0 && |c| > 0
    requires LexSorted(r) && LexSorted(c)
    requires multiset(r) == multiset(c)
    ensures r[0] == c[0]
  {
    assert r[0] in multiset(c);
    var j :| 0 <= j < |c| && c[j] == r[0];
    assert c[0] in multiset(r);
    var i :| 0 <= i < |r| && r[i] == c[0];
    assert LexLe(r[0], r[i]);
    assert LexLe(c[0], c[j]);
    LexLeAntisymmetric(r[0], c[0]);
  }

  /** The names pages `1..n` are saved under, ascending. */
  function OutputNames(n: nat): (r: seq<string>)
    ensures |r| == n
    ensures forall i :: 0 <= i < n ==> r[i] == OutputName(i + 1)
  {
    seq(n, i requires 0 <= i < n => OutputName(i + 1))
  }

  /** A saved page is an image file by its suffix. */
  lemma OutputNameIsImage(p: nat)
    ensures IsImageName(OutputName(p))
  {
    Pad6RoundTrip(p);
    assert OutputName(p) == Pad6(p) + "." + "jpg";
    assert forall j :: 0 <= j < |"jpg"| ==> "jpg"[j] != '.';
    SuffixOfStemExt(Pad6(p), "jpg");
    assert Lower(".jpg") == ".jpg" by { LowerOfLower(".jpg"); }
  }

  /** Saved page names below one million sort as their page numbers. */
  lemma OutputNamesSorted(n: nat)
    requires n < 1000000
    ensures LexSorted(OutputNames(n))
  {
    var s := OutputNames(n);
    forall i, j | 0 <= i < j < |s| ensures LexLe(s[i], s[j]) {
      Pad6Order(i + 1, j + 1, ".jpg");
      assert s[i] == Pad6(i + 1) + ".jpg";
      assert s[j] == Pad6(j + 1) + ".jpg";
    }
  }

  /**
   Whatever order `iterdir` lists a folder holding the files of pages
   `1..n` and any number of non-image files, `compile_dir_to_pdf` binds
   exactly the pages, in page order, as long as `n` is below one million
   (see `Numerals.Pad6OrderBreaksAtOneMillion` for what happens beyond).
   */
  lemma CompileRestoresPageOrder(names: seq<string>, others: seq<string>, n: nat)
    requires 1 <= n < 1000000
    requires multiset(names) == multiset(OutputNames(n)) + multiset(others)
    requires forall i :: 0 <= i < |others| ==> !IsImageName(others[i])
    ensures CompileDirToPdf(names) == Success(OutputNames(n))
  {
    var c := OutputNames(n);
    ImageFilesOfListing(names, others, n);
    var files := LexSort(ImageFiles(names));
    assert multiset(files) == multiset(c);
    assert |files| == |multiset(files)| == |c|;
    assert CompileDirToPdf(names) == Success(files);
    OutputNamesSorted(n);
    LexSortedUnique(files, c);
  }

  /** The image files of such a listing are exactly the saved pages. */
  lemma ImageFilesOfListing(names: seq<string>, others: seq<string>, n: nat)
    requires multiset(names) == multiset(OutputNames(n)) + multiset(others)
    requires forall i :: 0 <= i < |others| ==> !IsImageName(others[i])
    ensures multiset(ImageFiles(names)) == multiset(OutputNames(n))
  {
    var c := OutputNames(n);
    var r := ImageFiles(names);
    OthersAreNotImages(others);
    SavedAreImages(n);
    forall x ensures multiset(r)[x] == multiset(c)[x] {
      if IsImageName(x) {
        assert multiset(others)[x] == 0;
      } else {
        assert multiset(c)[x] == 0;
      }
    }
  }

  lemma OthersAreNotImages(others: seq<string>)
    requires forall i :: 0 <= i < |others| ==> !IsImageName(others[i])
    ensures forall x :: x in multiset(others) ==> !IsImageName(x)
  {
    forall x | x in multiset(others) ensures !IsImageName(x) {
      var i :| 0 <= i < |others| && others[i] == x;
    }
  }

  lemma SavedAreImages(n: nat)
    ensures forall x :: x in multiset(OutputNames(n)) ==> IsImageName(x)
  {
    var c := OutputNames(n);
    forall x | x in multiset(c) ensures IsImageName(x) {
      var i :| 0 <= i < |c| && c[i] == x;
      OutputNameIsImage(i + 1);
    }
  }

  /** When every page is ok, the folder holds the file of every page afterwards. */
  lemma AllPagesSaved(dir: map<string, Bytes>, files: map<string, Bytes>, P: Params, fetch: Fetcher, order: seq<int>)
    requires IsCompletionOrder(order, P.pages)
    requires SavedPages(dir, files, P, fetch, Seen(order))
    requires AllPagesOk(fetch, P)
    ensures forall p: nat :: 1 <= p <= P.pages ==>
              OutputName(p) in files && files[OutputName(p)] == fetch(PageUrl(P, p)).content
  {
    forall p: nat | 1 <= p <= P.pages
      ensures OutputName(p) in files && files[OutputName(p)] == fetch(PageUrl(P, p)).content
    {
      assert p in order;
      var i :| 0 <= i < |order| && order[i] == p;
      assert p in Seen(order);
    }
  }
}
