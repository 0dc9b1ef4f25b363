/**
 The sequential downloader of `download.py`: pages are fetched one after
 another in ascending order into a folder, pages whose file already exists
 are skipped, a failed response is reported and skipped without stopping
 the run; `images_to_pdf` later orders the folder's images by the page
 number written in their names and binds them into one PDF.

 The folder is a map from file name to contents; the `glob` listing is an
 input sequence of paths in whatever order the file system returns them.
 */
module Sequential {
  import opened Common
  import opened Strings
  import opened Numerals
  import opened Resolver

  /**
   The folder after fetching pages `1..upTo` into `before`: a page's file
   is added exactly when it did not exist and its response was ok, with
   the response bytes as contents; everything already there is untouched;
   nothing else appears.
   */
  ghost predicate DownloadedDir(before: map<string, Bytes>, after: map<string, Bytes>,
                                P: Params, fetch: Fetcher, upTo: int)
  {
    && (forall name :: name in after <==>
          name in before
          || exists p: nat :: 1 <= p <= upTo && name == PageName(p, P.ext) && fetch(PageUrl(P, p)).Ok())
    && (forall name :: name in before ==> name in after && after[name] == before[name])
    && (forall p: nat :: 1 <= p <= upTo && PageName(p, P.ext) !in before && fetch(PageUrl(P, p)).Ok()
          ==> after[PageName(p, P.ext)] == fetch(PageUrl(P, p)).content)
  }

  /**
   `download_reader_images`: a ValueError when the link is bad; otherwise
   every page of `1..N` is visited once in ascending order and the folder
   ends up exactly as `DownloadedDir` describes: existing files skipped,
   failed responses skipped without stopping, the rest written.
   */
  method DownloadReaderImages(u: ReaderUrl, dir: map<string, Bytes>, fetch: Fetcher)
    returns (r: Result<map<string, Bytes>>)
    ensures Resolve(u, false).Failure? ==> r.Failure? && r.error.ValueError?
    ensures Resolve(u, false).Success? ==> r.Success? && DownloadedDir(dir, r.value, Resolve(u, false).value, fetch, Resolve(u, false).value.pages)
    ensures Resolve(u, false).Success? && Resolve(u, false).value.pages < 0 ==> r == Success(dir)
  {
    var parsed := Resolve(u, false);
    if parsed.Failure? {
      return Failure(parsed.error);
    }
    var files := FetchAll(parsed.value, dir, fetch);
    r := Success(files);
  }

  /** The loop of `download_reader_images` over pages `1..N`, ascending. */
  method FetchAll(P: Params, dir: map<string, Bytes>, fetch: Fetcher) returns (files: map<string, Bytes>)
    ensures DownloadedDir(dir, files, P, fetch, P.pages)
    ensures P.pages < 1 ==> files == dir
  {
    files := dir;
    var page := 1;
    while page <= P.pages
      invariant 1 <= page <= (if P.pages < 0 then 0 else P.pages) + 1
      invariant DownloadedDir(dir, files, P, fetch, page - 1)
      invariant AddedOnlyPages(dir, files, P.ext, page - 1)
    {
      var fname := PageName(page, P.ext);
      var next := files;
      if fname !in files {
        var resp := fetch(JoinName(P, fname));
        if resp.Ok() {
          next := files[fname := resp.content];
        }
      }
      StepKeepsDownloaded(dir, files, next, P, fetch, page);
      files := next;
      page := page + 1;
    }
    if P.pages < 1 {
      NothingVisited(dir, files, P, fetch, P.pages);
    }
  }

  /** Only names of pages visited so far have been added to the folder. */
  ghost predicate AddedOnlyPages(dir: map<string, Bytes>, files: map<string, Bytes>, ext: string, upTo: int) {
    forall name :: name in files && name !in dir ==>
      exists p: nat :: 1 <= p <= upTo && name == PageName(p, ext)
  }

  /** A page's file is not among the files added for earlier pages. */
  lemma NotAddedBefore(dir: map<string, Bytes>, files: map<string, Bytes>, ext: string, page: nat)
    requires AddedOnlyPages(dir, files, ext, page - 1)
    requires PageName(page, ext) !in dir
    ensures PageName(page, ext) !in files
  {
    if PageName(page, ext) in files {
      var p: nat :| 1 <= p <= page - 1 && PageName(page, ext) == PageName(p, ext);
      PageNameInjective(p, page, ext);
      assert false;
    }
  }

  /** Visiting no page adds nothing. */
  lemma NothingVisited(dir: map<string, Bytes>, files: map<string, Bytes>, P: Params, fetch: Fetcher, upTo: int)
    requires upTo <= 0
    requires DownloadedDir(dir, files, P, fetch, 0)
    ensures DownloadedDir(dir, files, P, fetch, upTo)
  {
  }

  /** One iteration of the loop: visiting page `page` extends the description to `page`. */
  lemma StepKeepsDownloaded(dir: map<string, Bytes>, files: map<string, Bytes>, next: map<string, Bytes>,
                            P: Params, fetch: Fetcher, page: nat)
    requires page >= 1
    requires DownloadedDir(dir, files, P, fetch, page - 1)
    requires AddedOnlyPages(dir, files, P.ext, page - 1)
    requires var resp := fetch(PageUrl(P, page));
             next == if PageName(page, P.ext) in files || !resp.Ok() then files
                     else files[PageName(page, P.ext) := resp.content]
    ensures DownloadedDir(dir, next, P, fetch, page)
    ensures AddedOnlyPages(dir, next, P.ext, page)
  {
    var fname := PageName(page, P.ext);
    var resp := fetch(PageUrl(P, page));
    // no earlier page shares this page's file name
    forall p: nat | 1 <= p < page
      ensures PageName(p, P.ext) != fname
    {
      if PageName(p, P.ext) == fname {
        PageNameInjective(p, page, P.ext);
      }
    }
    if fname !in dir {
      NotAddedBefore(dir, files, P.ext, page);
    }
    forall name | name in next
      ensures name in dir || exists p: nat :: 1 <= p <= page && name == PageName(p, P.ext) && fetch(PageUrl(P, p)).Ok()
    {
      if name !in files {
        assert name == fname && resp.Ok();
      }
    }
    forall p: nat | 1 <= p <= page && fetch(PageUrl(P, p)).Ok()
      ensures PageName(p, P.ext) in next
    {
      if p < page {
        assert PageName(p, P.ext) in files;
      }
    }
    forall p: nat | 1 <= p <= page && PageName(p, P.ext) !in dir && fetch(PageUrl(P, p)).Ok()
      ensures next[PageName(p, P.ext)] == fetch(PageUrl(P, p)).content
    {
      if p == page {
        assert fname !in files;
      }
    }
    forall name | name in next && name !in dir
      ensures exists p: nat :: 1 <= p <= page && name == PageName(p, P.ext)
    {
      if name !in files {
        assert name == PageName(page, P.ext);
      }
    }
  }

  /** The run of ASCII digits at the end of `s`. */
  function TrailingDigits(s: string): (r: string)
    ensures AllDigits(r) && |r| <= |s| && r == s[|s| - |r|..]
    ensures |r| < |s| ==> !IsDigit(s[|s| - |r| - 1])
  {
    if |s| > 0 && IsDigit(s[|s| - 1]) then TrailingDigits(s[..|s| - 1]) + [s[|s| - 1]] else ""
  }

  /**
   The sort key of `images_to_pdf`: the number matched by `(\d+)\.<ext>$`,
   that is the digit run right before a final `.<ext>`, or 0 when there is
   no such run.
   */
  function PageKey(path: string, ext: string): (k: int)
    ensures k >= 0
    ensures !EndsWith(path, "." + ext) ==> k == 0
  {
    var suffix := "." + ext;
    if EndsWith(path, suffix) then
      var digits := TrailingDigits(path[..|path| - |suffix|]);
      if digits == "" then 0 else Value(digits)
    else
      0
  }

  /**
   Whenever the path is some prefix not ending in a digit, then digits,
   then `.<ext>`, the key is the value of exactly those digits, as the
   leftmost match of the pattern would give; with no digits at all there
   is no match and the key is 0.
   */
  lemma {:induction false} PageKeyReadsDigitRun(a: string, d: string, ext: string)
    requires AllDigits(d)
    requires a == "" || !IsDigit(a[|a| - 1])
    ensures PageKey(a + d + "." + ext, ext) == Value(d)
    ensures d == "" ==> PageKey(a + d + "." + ext, ext) == 0
  {
    var suffix := "." + ext;
    var path := (a + d) + suffix;
    assert a + d + "." + ext == path;
    assert path[|path| - |suffix|..] == suffix;
    assert path[..|path| - |suffix|] == a + d;
    TrailingDigitsOfRun(a, d);
  }

  /**
   Every path ending in `.<ext>` has that shape, so the lemma above
   settles the key of every such path.
   */
  lemma SplitAtDigitRun(path: string, ext: string)
    requires EndsWith(path, "." + ext)
    ensures var stem := path[..|path| - |ext| - 1];
      var d := TrailingDigits(stem);
      var a := stem[..|stem| - |d|];
      && AllDigits(d) && (a == "" || !IsDigit(a[|a| - 1]))
      && path == a + d + "." + ext
  {
    var stem := path[..|path| - |ext| - 1];
    var d := TrailingDigits(stem);
    var a := stem[..|stem| - |d|];
    assert stem == a + d;
    assert path[|path| - |ext| - 1..] == "." + ext;
    assert path == stem + ("." + ext);
  }

  lemma {:induction false} TrailingDigitsOfRun(a: string, d: string)
    requires AllDigits(d)
    requires a == "" || !IsDigit(a[|a| - 1])
    ensures TrailingDigits(a + d) == d
    decreases |d|
  {
    if d == "" {
      assert a + d == a;
    } else {
      var front := d[..|d| - 1];
      assert (a + d)[..|a + d| - 1] == a + front;
      TrailingDigitsOfRun(a, front);
      assert d == front + [d[|d| - 1]];
    }
  }

  /** The files `download_reader_images` writes sort under their own page numbers. */
  lemma PageKeyOfPageName(folder: string, p: nat, ext: string)
    ensures PageKey(folder + "/" + PageName(p, ext), ext) == p
  {
    Pad6RoundTrip(p);
    assert folder + "/" + PageName(p, ext) == (folder + "/") + Pad6(p) + "." + ext;
    PageKeyReadsDigitRun(folder + "/", Pad6(p), ext);
  }

  /** Ascending by `key`. */
  predicate KeySorted(s: seq<string>, key: string -> int) {
    forall i, j :: 0 <= i < j < |s| ==> key(s[i]) <= key(s[j])
  }

  /** `x` placed before the first element whose key is not below its own. */
  function InsertByKey(x: string, ys: seq<string>, key: string -> int): (r: seq<string>)
    requires KeySorted(ys, key)
    ensures multiset(r) == multiset(ys) + multiset{x}
    ensures KeySorted(r, key)
  {
    if ys == [] || key(x) <= key(ys[0]) then
      ConsKeySorted(x, ys, key);
      [x] + ys
    else
      var rest := InsertByKey(x, ys[1..], key);
      assert ys == [ys[0]] + ys[1..];
      HeadBelowInserted(ys[0], x, ys[1..], rest, key);
      ConsKeySorted(ys[0], rest, key);
      [ys[0]] + rest
  }

  lemma ConsKeySorted(y: string, s: seq<string>, key: string -> int)
    requires KeySorted(s, key)
    requires forall i :: 0 <= i < |s| ==> key(y) <= key(s[i])
    ensures KeySorted([y] + s, key)
  {
    var t := [y] + s;
    forall i, j | 0 <= i < j < |t| ensures key(t[i]) <= key(t[j]) {
      assert t[j] == s[j - 1];
      if i > 0 {
        assert t[i] == s[i - 1];
      }
    }
  }

  lemma HeadBelowInserted(y: string, x: string, tail: seq<string>, rest: seq<string>, key: string -> int)
    requires forall i :: 0 <= i < |tail| ==> key(y) <= key(tail[i])
    requires key(y) <= key(x)
    requires multiset(rest) == multiset(tail) + multiset{x}
    ensures forall i :: 0 <= i < |rest| ==> key(y) <= key(rest[i])
  {
    forall i | 0 <= i < |rest| ensures key(y) <= key(rest[i]) {
      assert rest[i] in multiset(rest);
      if rest[i] != x {
        assert rest[i] in multiset(tail);
        var j :| 0 <= j < |tail| && tail[j] == rest[i];
      }
    }
  }

  /** `sorted(paths, key=key)`: a rearrangement of `paths` ascending by key. */
  function SortByKey(paths: seq<string>, key: string -> int): (r: seq<string>)
    ensures multiset(r) == multiset(paths)
    ensures KeySorted(r, key)
  {
    if paths == [] then []
    else
      assert paths == [paths[0]] + paths[1..];
      InsertByKey(paths[0], SortByKey(paths[1..], key), key)
  }

  /** The elements of `s` whose key is `k`, in their order in `s`. */
  function WithKey(s: seq<string>, key: string -> int, k: int): seq<string> {
    if s == [] then []
    else (if key(s[0]) == k then [s[0]] else []) + WithKey(s[1..], key, k)
  }

  /**
   Inserting `x` puts it before every element of its own key: among those,
   it comes first.
   */
  lemma {:induction false} InsertByKeyStable(x: string, ys: seq<string>, key: string -> int, k: int)
    requires KeySorted(ys, key)
    ensures WithKey(InsertByKey(x, ys, key), key, k)
            == (if key(x) == k then [x] else []) + WithKey(ys, key, k)
    decreases |ys|
  {
    var r := InsertByKey(x, ys, key);
    var mx: seq<string> := if key(x) == k then [x] else [];
    if ys == [] || key(x) <= key(ys[0]) {
      assert r == [x] + ys;
      WithKeyCons(x, ys, key, k);
    } else {
      KeySortedTail(ys, key);
      var rest := InsertByKey(x, ys[1..], key);
      assert r == [ys[0]] + rest;
      InsertByKeyStable(x, ys[1..], key, k);
      assert ys == [ys[0]] + ys[1..];
      PassOverSmallerKey(x, ys[0], ys[1..], rest, key, k);
    }
  }

  lemma KeySortedTail(ys: seq<string>, key: string -> int)
    requires ys != [] && KeySorted(ys, key)
    ensures KeySorted(ys[1..], key)
  {
    var t := ys[1..];
    forall i, j | 0 <= i < j < |t|
      ensures key(t[i]) <= key(t[j])
    {
      assert t[i] == ys[i + 1] && t[j] == ys[j + 1];
    }
  }

  /** Passing over an element of a smaller key does not reorder `x` among its own key. */
  lemma PassOverSmallerKey(x: string, y: string, ys: seq<string>, rest: seq<string>, key: string -> int, k: int)
    requires key(y) < key(x)
    requires WithKey(rest, key, k) == (if key(x) == k then [x] else []) + WithKey(ys, key, k)
    ensures WithKey([y] + rest, key, k) == (if key(x) == k then [x] else []) + WithKey([y] + ys, key, k)
  {
    WithKeyCons(y, rest, key, k);
    WithKeyCons(y, ys, key, k);
    var mx: seq<string> := if key(x) == k then [x] else [];
    var my: seq<string> := if key(y) == k then [y] else [];
    var tail := WithKey(ys, key, k);
    assert mx == [] || my == [];
    assert my + (mx + tail) == mx + (my + tail);
  }

  lemma WithKeyCons(h: string, t: seq<string>, key: string -> int, k: int)
    ensures WithKey([h] + t, key, k) == (if key(h) == k then [h] else []) + WithKey(t, key, k)
  {
    assert ([h] + t)[1..] == t;
  }

  /**
   `sorted` is stable: the elements of each key keep the order they had in
   the input.
   */
  lemma {:induction false} SortByKeyStable(paths: seq<string>, key: string -> int, k: int)
    ensures WithKey(SortByKey(paths, key), key, k) == WithKey(paths, key, k)
    decreases |paths|
  {
    if paths != [] {
      SortByKeyStable(paths[1..], key, k);
      InsertByKeyStable(paths[0], SortByKey(paths[1..], key), key, k);
    }
  }

  /** The sort key `images_to_pdf` uses for files of extension `ext`. */
  function PageKeyOf(ext: string): string -> int {
    path => PageKey(path, ext)
  }

  /**
   `images_to_pdf`: FileNotFoundError when the glob found nothing;
   otherwise one PDF page per found file, ascending by page key.
   */
  function ImagesToPdf(paths: seq<string>, ext: string): (r: Result<seq<string>>)
    ensures r.Failure? <==> paths == []
    ensures r.Failure? ==> r.error == FileNotFoundError
    ensures r.Success? ==> multiset(r.value) == multiset(paths) && KeySorted(r.value, PageKeyOf(ext))
    ensures r.Success? ==> forall k :: WithKey(r.value, PageKeyOf(ext), k) == WithKey(paths, PageKeyOf(ext), k)
  {
    var pages := SortByKey(paths, PageKeyOf(ext));
    forall k
      ensures WithKey(pages, PageKeyOf(ext), k) == WithKey(paths, PageKeyOf(ext), k)
    {
      SortByKeyStable(paths, PageKeyOf(ext), k);
    }
    if pages == [] then Failure(FileNotFoundError) else Success(pages)
  }

  /**
   Two key-sorted arrangements of the same files are the same when no two
   positions of one of them share a key.
   */
  lemma {:induction false} KeySortedUnique(r: seq<string>, c: seq<string>, key: string -> int)
    requires KeySorted(r, key) && KeySorted(c, key)
    requires multiset(r) == multiset(c)
    requires forall i, j :: 0 <= i < |c| && 0 <= j < |c| && key(c[i]) == key(c[j]) ==> i == j
    ensures r == c
    decreases |r|
  {
    assert |r| == |multiset(r)| == |multiset(c)| == |c|;
    if |r| > 0 {
      HeadsAgree(r, c, key);
      TailsAgree(r, c, key);
      KeySortedUnique(r[1..], c[1..], key);
    }
  }

  /** The first elements of two such arrangements agree. */
  lemma HeadsAgree(r: seq<string>, c: seq<string>, key: string -> int)
    requires |r| > 0 && |c| > 0
    requires KeySorted(r, key) && KeySorted(c, key)
    requires multiset(r) == multiset(c)
    requires forall i, j :: 0 <= i < |c| && 0 <= j < |c| && key(c[i]) == key(c[j]) ==> i == j
    ensures r[0] == c[0]
  {
    assert r[0] in multiset(c);
    var j :| 0 <= j < |c| && c[j] == r[0];
    assert c[0] in multiset(r);
    var i :| 0 <= i < |r| && r[i] == c[0];
    assert key(r[0]) <= key(r[i]);
    assert key(c[0]) <= key(c[j]);
  }

  /** Dropping the common first element keeps the hypotheses of `KeySortedUnique`. */
  lemma TailsAgree(r: seq<string>, c: seq<string>, key: string -> int)
    requires |r| > 0 && |c| > 0 && r[0] == c[0]
    requires KeySorted(r, key) && KeySorted(c, key)
    requires multiset(r) == multiset(c)
    requires forall i, j :: 0 <= i < |c| && 0 <= j < |c| && key(c[i]) == key(c[j]) ==> i == j
    ensures KeySorted(r[1..], key) && KeySorted(c[1..], key)
    ensures multiset(r[1..]) == multiset(c[1..])
    ensures forall i, j :: 0 <= i < |c[1..]| && 0 <= j < |c[1..]| && key(c[1..][i]) == key(c[1..][j]) ==> i == j
  {
    assert r == [r[0]] + r[1..];
    assert c == [c[0]] + c[1..];
    assert multiset(r[1..]) == multiset(r) - multiset{r[0]};
    assert multiset(c[1..]) == multiset(c) - multiset{c[0]};
  }

  /** The paths of the files for pages `1..n` in `folder`, ascending. */
  function PagePaths(folder: string, n: nat, ext: string): (r: seq<string>)
    ensures |r| == n
    ensures forall i :: 0 <= i < n ==> r[i] == folder + "/" + PageName(i + 1, ext)
  {
    seq(n, i requires 0 <= i < n => folder + "/" + PageName(i + 1, ext))
  }

  /**
   Whatever order the glob lists the files of pages `1..n` in,
   `images_to_pdf` binds them in page order, for any number of pages.
   */
  lemma ImagesToPdfRestoresPageOrder(folder: string, paths: seq<string>, n: nat, ext: string)
    requires n >= 1
    requires multiset(paths) == multiset(PagePaths(folder, n, ext))
    ensures ImagesToPdf(paths, ext) == Success(PagePaths(folder, n, ext))
  {
    var c := PagePaths(folder, n, ext);
    var key := PageKeyOf(ext);
    PagePathKeys(folder, n, ext);
    var sorted := SortByKey(paths, key);
    assert |sorted| == n by {
      assert |multiset(sorted)| == |multiset(c)|;
    }
    KeySortedUnique(sorted, c, key);
  }

  /** The page files are key-sorted and no two of them share a key. */
  lemma PagePathKeys(folder: string, n: nat, ext: string)
    ensures KeySorted(PagePaths(folder, n, ext), PageKeyOf(ext))
    ensures forall i, j :: 0 <= i < n && 0 <= j < n && PageKeyOf(ext)(PagePaths(folder, n, ext)[i]) == PageKeyOf(ext)(PagePaths(folder, n, ext)[j]) ==> i == j
  {
    var c := PagePaths(folder, n, ext);
    forall i | 0 <= i < n
      ensures PageKeyOf(ext)(c[i]) == i + 1
    {
      PageKeyOfPageName(folder, i + 1, ext);
    }
  }

  /**
   The glob of `images_to_pdf` (every name matching star-dot-`ext` in the
   folder) over the paths a folder holds, in listing order: the paths that
   end in `.<ext>`.
   */
  function GlobPages(paths: seq<string>, ext: string): (r: seq<string>)
    ensures forall x :: multiset(r)[x] == if EndsWith(x, "." + ext) then multiset(paths)[x] else 0
  {
    if paths == [] then []
    else
      assert paths == [paths[0]] + paths[1..];
      (if EndsWith(paths[0], "." + ext) then [paths[0]] else []) + GlobPages(paths[1..], ext)
  }

  /**
   `download_and_build_pdf` as written binds the freshly downloaded
   folder with `images_to_pdf`'s default extension `jpg`, whatever `ext`
   the link named (so no extension is taken here): the pages are found
   exactly when some path ends in `.jpg`.
   */
  function BuildPdfAsWritten(paths: seq<string>): (r: Result<seq<string>>)
    ensures r.Failure? <==> forall i :: 0 <= i < |paths| ==> !EndsWith(paths[i], ".jpg")
    ensures r.Failure? ==> r.error == FileNotFoundError
  {
    assert "." + "jpg" == ".jpg";
    NoGlobPages(paths, "jpg");
    ImagesToPdf(GlobPages(paths, "jpg"), "jpg")
  }

  /** The extension the pages were downloaded with is the one they are bound with. */
  function BuildPdf(paths: seq<string>, ext: string): (r: Result<seq<string>>)
    ensures r.Failure? <==> forall i :: 0 <= i < |paths| ==> !EndsWith(paths[i], "." + ext)
    ensures r.Failure? ==> r.error == FileNotFoundError
    ensures r.Success? ==> multiset(r.value) == multiset(GlobPages(paths, ext)) && KeySorted(r.value, PageKeyOf(ext))
    ensures r.Success? ==> forall k :: WithKey(r.value, PageKeyOf(ext), k) == WithKey(GlobPages(paths, ext), PageKeyOf(ext), k)
  {
    NoGlobPages(paths, ext);
    ImagesToPdf(GlobPages(paths, ext), ext)
  }

  lemma NoGlobPages(paths: seq<string>, ext: string)
    ensures GlobPages(paths, ext) == [] <==> forall i :: 0 <= i < |paths| ==> !EndsWith(paths[i], "." + ext)
  {
    if GlobPages(paths, ext) == [] {
      forall i | 0 <= i < |paths| ensures !EndsWith(paths[i], "." + ext) {
        assert paths[i] in multiset(paths);
      }
    } else {
      var x := GlobPages(paths, ext)[0];
      assert x in multiset(GlobPages(paths, ext));
    }
  }

  /**
   A one-page book whose link says `ext=png`, downloaded in full, is lost:
   the folder holds `000001.png` and the `*.jpg` glob finds nothing.
   */
  lemma BuildPdfAsWrittenLosesPngBook(folder: string)
    ensures BuildPdfAsWritten(PagePaths(folder, 1, "png")) == Failure(FileNotFoundError)
  {
    var stem := folder + "/" + Pad6(1);
    var path := folder + "/" + PageName(1, "png");
    assert PagePaths(folder, 1, "png") == [path];
    assert path == stem + ".png";
    PngIsNotJpg(stem, path);
  }

  lemma PngIsNotJpg(stem: string, path: string)
    requires path == stem + ".png"
    ensures !EndsWith(path, ".jpg")
  {
    assert path[|path| - 4..][1] == 'p';
  }

  /**
   With the extension passed through, whatever order the glob lists the
   downloaded pages `1..n` in, among any other files of a different
   extension, the PDF holds exactly the pages, in page order.
   */
  lemma BuildPdfRestoresPageOrder(folder: string, paths: seq<string>, others: seq<string>, n: nat, ext: string)
    requires n >= 1
    requires multiset(paths) == multiset(PagePaths(folder, n, ext)) + multiset(others)
    requires forall i :: 0 <= i < |others| ==> !EndsWith(others[i], "." + ext)
    ensures BuildPdf(paths, ext) == Success(PagePaths(folder, n, ext))
  {
    GlobOfListing(folder, paths, others, n, ext);
    ImagesToPdfRestoresPageOrder(folder, GlobPages(paths, ext), n, ext);
  }

  /** The glob of such a listing finds exactly the page files. */
  lemma GlobOfListing(folder: string, paths: seq<string>, others: seq<string>, n: nat, ext: string)
    requires multiset(paths) == multiset(PagePaths(folder, n, ext)) + multiset(others)
    requires forall i :: 0 <= i < |others| ==> !EndsWith(others[i], "." + ext)
    ensures multiset(GlobPages(paths, ext)) == multiset(PagePaths(folder, n, ext))
  {
    var c := PagePaths(folder, n, ext);
    var found := GlobPages(paths, ext);
    PagePathsMatch(folder, n, ext);
    OthersDoNotMatch(others, ext);
    forall x ensures multiset(found)[x] == multiset(c)[x] {
      if EndsWith(x, "." + ext) {
        assert multiset(others)[x] == 0;
      } else {
        assert multiset(c)[x] == 0;
      }
    }
  }

  lemma PagePathsMatch(folder: string, n: nat, ext: string)
    ensures forall x :: x in multiset(PagePaths(folder, n, ext)) ==> EndsWith(x, "." + ext)
  {
    var c := PagePaths(folder, n, ext);
    forall x | x in multiset(c) ensures EndsWith(x, "." + ext) {
      var i :| 0 <= i < |c| && c[i] == x;
      PagePathMatches(folder, i + 1, ext);
    }
  }

  lemma PagePathMatches(folder: string, p: nat, ext: string)
    ensures EndsWith(folder + "/" + PageName(p, ext), "." + ext)
  {
    var path := folder + "/" + PageName(p, ext);
    var suffix := "." + ext;
    assert path == (folder + "/" + Pad6(p)) + suffix;
    assert path[|path| - |suffix|..] == suffix;
  }

  lemma OthersDoNotMatch(others: seq<string>, ext: string)
    requires forall i :: 0 <= i < |others| ==> !EndsWith(others[i], "." + ext)
    ensures forall x :: x in multiset(others) ==> !EndsWith(x, "." + ext)
  {
    forall x | x in multiset(others) ensures !EndsWith(x, "." + ext) {
      var i :| 0 <= i < |others| && others[i] == x;
    }
  }
}
