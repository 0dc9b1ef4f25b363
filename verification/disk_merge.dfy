/**
 The collect-then-sort downloader of `download_concurrent_disk_merge.py`:
 every page is fetched concurrently into a dict keyed by page number, and
 only when all have arrived are the images listed in sorted key order and
 saved as one PDF. Completion order is again any permutation of the pages.
 */
module DiskMerge {
  import opened Common
  import opened Strings
  import opened Numerals
  import opened Ranges
  import opened Resolver
  import Reassembler

  /**
   The inline resolver: validating, with the extension taken as given
   (not lower-cased), `jpg` when absent.
   */
  function ReadParams(u: ReaderUrl): (r: Result<Params>)
    ensures r.Failure? <==> BadTotalPage(u.Query()) || MissingUrl(u.Query()) || ZeroTotalPage(u.Query())
    ensures r.Failure? ==> r.error.ValueError?
    ensures r.Success? ==> "TotalPage" in u.Query() && ParseInt(u.Query()["TotalPage"]) == Some(r.value.pages)
    ensures r.Success? ==> r.value.pages != 0
    ensures r.Success? ==> r.value.ext == if "ext" in u.Query() then u.Query()["ext"] else "jpg"
    ensures r.Success? ==>
      && r.value.root == SiteRoot(u)
      && r.value.Base() == MakeBaseImgUrl(SiteRoot(u), NormRelPath(u.Query()["Url"]))
      && StartsWith(r.value.dir, "/") && EndsWith(r.value.dir, "/")
  {
    Resolve(u, false)
  }

  /**
   `urls`: the pairs `(page, url)` for `page` in `range(1, N + 1)`: the
   page numbers ascend from 1 without gaps and each URL is that page's.
   */
  function PageJobs(P: Params): (r: seq<(int, string)>)
    ensures |r| == if P.pages > 0 then P.pages else 0
    ensures forall i :: 0 <= i < |r| ==> r[i].0 == i + 1 && r[i].1 == PageUrl(P, i + 1)
  {
    var pages := Range(1, P.pages + 1);
    var urls := PageUrls(P, P.pages);
    seq(|urls|, i requires 0 <= i < |urls| => (pages[i], urls[i]))
  }

  /**
   `_download_single_image` as the pool loop sees it: whatever
   `session.get` or `raise_for_status` raises for a non-ok status (a
   RetryError for a status in the retry list, an HTTPError otherwise) is
   re-raised by the loop as a RuntimeError naming the page.
   */
  function DownloadSingleImage(page: int, url: string, fetch: Fetcher): (r: Result<(int, Bytes)>)
    ensures r.Success? <==> fetch(url).Ok()
    ensures r.Success? ==> r.value == (page, fetch(url).content)
    ensures r.Failure? ==> r.error == RuntimeError(page)
  {
    var resp := fetch(url);
    if !resp.Ok() then Failure(RuntimeError(page)) else Success((page, resp.content))
  }

  /** `page_image_map` after the completions in `order`, page `p` bringing `data(p)`. */
  function Collect(order: seq<int>, data: int -> Bytes): (m: map<int, Bytes>)
    ensures forall p :: p in m <==> p in order
    ensures forall p :: p in m ==> m[p] == data(p)
  {
    if order == [] then map[]
    else
      var last := order[|order| - 1];
      var front := order[..|order| - 1];
      assert order == front + [last];
      Collect(front, data)[last := data(last)]
  }

  lemma CollectOneMore(order: seq<int>, k: nat, data: int -> Bytes)
    requires k < |order|
    ensures Collect(order[..k + 1], data) == Collect(order[..k], data)[order[k] := data(order[k])]
  {
    assert order[..k + 1][..k] == order[..k];
  }

  predicate Distinct(xs: seq<int>) {
    forall i, j :: 0 <= i < j < |xs| ==> xs[i] != xs[j]
  }

  /** Put a new key into its place in an ascending key list. */
  function InsertKey(x: int, ys: seq<int>): (r: seq<int>)
    requires StrictlyIncreasing(ys) && x !in ys
    ensures StrictlyIncreasing(r)
    ensures forall z :: z in r <==> z == x || z in ys
  {
    if ys == [] || x < ys[0] then [x] + ys
    else
      var rest := InsertKey(x, ys[1..]);
      assert forall i :: 0 <= i < |rest| ==> ys[0] < rest[i] by {
        forall i | 0 <= i < |rest| ensures ys[0] < rest[i] {
          assert rest[i] in rest;
        }
      }
      [ys[0]] + rest
  }

  /**
   `sorted(page_image_map)`: the dict's keys, which iterate in insertion
   order and are distinct, in ascending order.
   */
  function SortKeys(keys: seq<int>): (r: seq<int>)
    requires Distinct(keys)
    ensures StrictlyIncreasing(r)
    ensures forall z :: z in r <==> z in keys
  {
    if keys == [] then []
    else
      assert keys[0] !in keys[1..];
      InsertKey(keys[0], SortKeys(keys[1..]))
  }

  /**
   `[page_image_map[pg] for pg in sorted(page_image_map)]`, the dict given
   by its contents and its insertion-ordered key list.
   */
  function Ordered(m: map<int, Bytes>, keys: seq<int>): (r: seq<Bytes>)
    requires Distinct(keys)
    requires forall k :: k in keys ==> k in m
    ensures |r| == |SortKeys(keys)|
    ensures forall i :: 0 <= i < |r| ==> SortKeys(keys)[i] in m && r[i] == m[SortKeys(keys)[i]]
    ensures forall k :: k in keys ==> m[k] in r
  {
    var ks := SortKeys(keys);
    assert forall i :: 0 <= i < |ks| ==> ks[i] in m by {
      forall i | 0 <= i < |ks| ensures ks[i] in m {
        assert ks[i] in ks;
      }
    }
    seq(|ks|, i requires 0 <= i < |ks| => m[ks[i]])
  }

  /**
   Whatever order the pages `1..n` arrive in, the collected images listed
   in sorted key order are the pages `1..n`, ascending, each with its own
   bytes.
   */
  lemma OrderedCollect(order: seq<int>, n: nat, data: int -> Bytes)
    requires IsCompletionOrder(order, n)
    ensures Ordered(Collect(order, data), order) == seq(n, i => data(i + 1))
  {
    var ks := SortKeys(order);
    forall x
      ensures x in ks <==> 1 <= x < n + 1
    {
      if 1 <= x <= n {
        assert x in order;
      }
    }
    IncreasingEnumerationIsRange(ks, 1, n + 1);
  }

  /**
   Collect-then-sort and the streaming reassembler produce the same pages
   in the same order for every completion order.
   */
  lemma CollectThenSortMatchesStreaming(order: seq<int>, n: nat, data: int -> Bytes)
    requires IsCompletionOrder(order, n)
    ensures Ordered(Collect(order, data), order) == Reassembler.Run(order, data).pdf
  {
    OrderedCollect(order, n, data);
    Reassembler.RunCompletionOrder(order, n, data);
  }

  /**
   What the pool and the merge yield for `P` with pages: the pages `1..N` in
   order exactly when every page is ok; otherwise a RuntimeError naming a
   failing page that completed after only ok pages.
   */
  predicate Merged(P: Params, fetch: Fetcher, order: seq<int>, r: Result<seq<Bytes>>) {
    P.pages > 0 ==>
      && (r.Success? <==> AllPagesOk(fetch, P))
      && (r.Success? ==> r.value == seq(P.pages, i requires 0 <= i < P.pages => fetch(PageUrl(P, i + 1)).content))
      && (r.Failure? ==> r.error.RuntimeError? && 1 <= r.error.page <= P.pages
                         && !fetch(PageUrl(P, r.error.page)).Ok()
                         && exists k :: 0 <= k < |order| && order[k] == r.error.page
                                        && forall i :: 0 <= i < k ==> 1 <= order[i] && fetch(PageUrl(P, order[i])).Ok())
  }

  /**
   `download_and_stream_to_pdf_concurrent` of the disk-merge module. A bad
   link fails with ValueError; a negative page count passes validation but
   leaves nothing to index, so `ordered_images[0]` raises IndexError.
   Otherwise the result is a PDF exactly when every page is served ok, and
   it then holds pages `1..N` in ascending order; a failing page gives a
   RuntimeError naming a page that failed.
   */
  method DownloadAndMerge(u: ReaderUrl, fetch: Fetcher, order: seq<int>) returns (r: Result<seq<Bytes>>)
    requires ReadParams(u).Success? ==> IsCompletionOrder(order, ReadParams(u).value.pages)
    ensures ReadParams(u).Failure? ==> r.Failure? && r.error.ValueError?
    ensures ReadParams(u).Success? && ReadParams(u).value.pages < 0 ==> r == Failure(IndexError)
    ensures ReadParams(u).Success? ==> Merged(ReadParams(u).value, fetch, order, r)
  {
    var parsed := ReadParams(u);
    if parsed.Failure? {
      return Failure(parsed.error);
    }
    var P := parsed.value;
    r := CollectAndSort(P, fetch, order);
  }

  /**
   The pool's run: the job of each page completes in `order`; the first
   failure raises, otherwise every page's bytes land in the dict.
   */
  method FetchAll(P: Params, fetch: Fetcher, order: seq<int>, data: int -> Bytes)
    returns (r: Result<map<int, Bytes>>)
    requires IsCompletionOrder(order, P.pages)
    requires forall p :: p >= 1 ==> data(p) == fetch(PageUrl(P, p)).content
    ensures r.Success? <==> forall i :: 0 <= i < |order| ==> fetch(PageUrl(P, order[i])).Ok()
    ensures r.Success? ==> r.value == Collect(order, data)
    ensures r.Success? ==> forall p :: p in r.value <==> 1 <= p <= P.pages
    ensures r.Failure? ==> r.error.RuntimeError? && r.error.page in order
                           && !fetch(PageUrl(P, r.error.page)).Ok()
    ensures r.Failure? ==> exists k :: 0 <= k < |order| && order[k] == r.error.page
                                       && forall i :: 0 <= i < k ==> fetch(PageUrl(P, order[i])).Ok()
  {
    var jobs := PageJobs(P);
    var pageImageMap: map<int, Bytes> := map[];
    var k := 0;
    while k < |order|
      invariant 0 <= k <= |order|
      invariant pageImageMap == Collect(order[..k], data)
      invariant forall i :: 0 <= i < k ==> fetch(PageUrl(P, order[i])).Ok()
    {
      var page := order[k];
      var done := DownloadSingleImage(page, jobs[page - 1].1, fetch);
      if done.Failure? {
        assert order[k] == page;
        return Failure(RuntimeError(page));
      }
      var (pg, img) := done.value;
      CollectOneMore(order, k, data);
      pageImageMap := pageImageMap[pg := img];
      k := k + 1;
    }
    assert order[..k] == order;
    forall p | p in pageImageMap
      ensures 1 <= p <= P.pages
    {
      var i :| 0 <= i < |order| && order[i] == p;
    }
    r := Success(pageImageMap);
  }

  /** The part of the download after the link is resolved. */
  method CollectAndSort(P: Params, fetch: Fetcher, order: seq<int>) returns (r: Result<seq<Bytes>>)
    requires P.pages != 0
    requires IsCompletionOrder(order, P.pages)
    ensures P.pages < 0 ==> r == Failure(IndexError)
    ensures Merged(P, fetch, order, r)
  {
    var n: nat := if P.pages < 0 then 0 else P.pages;
    assert IsCompletionOrder(order, n);
    var data := p => if p >= 1 then fetch(PageUrl(P, p)).content else [];
    var collected := FetchAll(P, fetch, order, data);
    if collected.Failure? {
      FailureMerged(P, fetch, order, collected.error);
      return Failure(collected.error);
    }
    var pageImageMap := collected.value;
    OrderedCollect(order, n, data);
    var orderedImages := Ordered(pageImageMap, order);
    if |orderedImages| == 0 {
      return Failure(IndexError);
    }
    SuccessMerged(P, fetch, order, data, orderedImages);
    r := Success(orderedImages);
  }

  /** The pool's first failure is the outcome `Merged` describes. */
  lemma FailureMerged(P: Params, fetch: Fetcher, order: seq<int>, e: Error)
    requires IsCompletionOrder(order, P.pages)
    requires e.RuntimeError? && e.page in order && !fetch(PageUrl(P, e.page)).Ok()
    requires exists k :: 0 <= k < |order| && order[k] == e.page
                         && forall i :: 0 <= i < k ==> fetch(PageUrl(P, order[i])).Ok()
    ensures Merged(P, fetch, order, Failure(e))
  {
    var k :| 0 <= k < |order| && order[k] == e.page
             && forall i :: 0 <= i < k ==> fetch(PageUrl(P, order[i])).Ok();
    forall i | 0 <= i < k
      ensures 1 <= order[i]
    {
      assert order[i] in order;
    }
    assert 1 <= e.page <= P.pages;
  }

  /** With every completion ok, the ordered images are the outcome `Merged` describes. */
  lemma SuccessMerged(P: Params, fetch: Fetcher, order: seq<int>, data: int -> Bytes, images: seq<Bytes>)
    requires IsCompletionOrder(order, P.pages)
    requires forall i :: 0 <= i < |order| ==> fetch(PageUrl(P, order[i])).Ok()
    requires forall p :: p >= 1 ==> data(p) == fetch(PageUrl(P, p)).content
    requires P.pages > 0 ==> images == seq(P.pages, i => data(i + 1))
    ensures Merged(P, fetch, order, Success(images))
  {
    if P.pages > 0 {
      assert images == seq(P.pages, i requires 0 <= i < P.pages => fetch(PageUrl(P, i + 1)).content);
    }
    forall p: nat | 1 <= p <= P.pages
      ensures fetch(PageUrl(P, p)).Ok()
    {
      assert p in order;
    }
  }
}
