/**
 The streaming downloader of `download_optimised.py`: resolve the reader
 link, fetch every page concurrently, and draw the pages onto one PDF
 canvas in page order as soon as the next page in line has arrived. The
 thread pool is replaced by the order in which the downloads complete, any
 permutation of the pages; a page that fails makes `fut.result()` raise, so
 the canvas is never saved and no buffer is returned.
 */
module Optimised {
  import opened Common
  import opened Strings
  import opened Numerals
  import opened Ranges
  import opened Resolver
  import opened Reassembler

  /**
   `_parse_reader_url`: the validating resolver with the extension
   lower-cased, `jpg` when absent.
   */
  function ParseReaderUrl(u: ReaderUrl): (r: Result<Params>)
    ensures r.Failure? <==> BadTotalPage(u.Query()) || MissingUrl(u.Query()) || ZeroTotalPage(u.Query())
    ensures r.Failure? ==> r.error.ValueError?
    ensures r.Success? ==> r.value.pages != 0 && NoUpper(r.value.ext)
    ensures r.Success? ==> "TotalPage" in u.Query() && ParseInt(u.Query()["TotalPage"]) == Some(r.value.pages)
    ensures r.Success? && "ext" !in u.Query() ==> r.value.ext == "jpg"
    ensures r.Success? && "ext" in u.Query() ==> r.value.ext == Lower(u.Query()["ext"])
    ensures r.Success? ==>
      && r.value.root == SiteRoot(u)
      && r.value.Base() == MakeBaseImgUrl(SiteRoot(u), NormRelPath(u.Query()["Url"]))
      && StartsWith(r.value.dir, "/") && EndsWith(r.value.dir, "/")
  {
    LoweredExtension(u);
    Resolve(u, true)
  }

  lemma LoweredExtension(u: ReaderUrl)
    ensures Resolve(u, true).Success? ==> NoUpper(Resolve(u, true).value.ext)
    ensures Resolve(u, true).Success? && "ext" !in u.Query() ==> Resolve(u, true).value.ext == "jpg"
  {
    LowerIdempotent(if "ext" in u.Query() then u.Query()["ext"] else "jpg");
    LowerOfLower("jpg");
  }

  /**
   What a failed request for `page` raises. A status in the session's
   `status_forcelist` is retried by the transport, and once the retries
   run out `s.get` itself raises RetryError; any other non-ok status
   reaches the RuntimeError naming the page.
   */
  function PageError(page: int, resp: Response): (r: Error)
    ensures r == RetryError <==> resp.Retried()
    ensures r != RetryError ==> r == RuntimeError(page)
  {
    if resp.Retried() then RetryError else RuntimeError(page)
  }

  /**
   `_fetch_page`: request `urljoin(base, f"{page:06d}.{ext}")`; a non-ok
   status raises, otherwise the page comes back with the response bytes.
   */
  function FetchPage(page: nat, P: Params, fetch: Fetcher): (r: Result<(int, Bytes)>)
    ensures r.Success? <==> fetch(PageUrl(P, page)).Ok()
    ensures r.Success? ==> r.value == (page, fetch(PageUrl(P, page)).content)
    ensures r.Failure? && fetch(PageUrl(P, page)).Retried() ==> r.error == RetryError
    ensures r.Failure? && !fetch(PageUrl(P, page)).Retried() ==> r.error == RuntimeError(page)
  {
    var resp := fetch(JoinName(P, PageName(page, P.ext)));
    if resp.Retried() then Failure(RetryError)
    else if !resp.Ok() then Failure(RuntimeError(page))
    else Success((page, resp.content))
  }

  /** The bytes the server returns for page `p`. */
  function PageBytes(fetch: Fetcher, P: Params, p: int): Bytes {
    if p >= 1 then fetch(PageUrl(P, p)).content else []
  }

  /**
   `e` is what the first page in completion order that is not served ok
   raises, every page before it having been served ok.
   */
  predicate FirstFailure(P: Params, fetch: Fetcher, order: seq<int>, e: Error) {
    exists k :: 0 <= k < |order| && 1 <= order[k] <= P.pages
                && !fetch(PageUrl(P, order[k])).Ok()
                && e == PageError(order[k], fetch(PageUrl(P, order[k])))
                && forall i :: 0 <= i < k ==> 1 <= order[i] && fetch(PageUrl(P, order[i])).Ok()
  }

  /**
   The body of `download_and_stream_to_pdf_concurrent` once the link is
   resolved: one download per page of `1..pages`, completing in `order`,
   each completion handed to the reassembler. The result is a PDF exactly
   when every page is served ok, and then it holds pages `1..pages` in
   ascending order, each drawn from its own bytes; otherwise the error is
   the one raised by the first page, in completion order, that failed.
   */
  method StreamPages(P: Params, fetch: Fetcher, order: seq<int>)
    returns (r: Result<seq<Bytes>>)
    requires IsCompletionOrder(order, P.pages)
    ensures r.Success? <==> AllPagesOk(fetch, P)
    ensures r.Success? ==>
      var n := if P.pages < 0 then 0 else P.pages;
      r.value == seq(n, i requires 0 <= i < n => fetch(PageUrl(P, i + 1)).content)
    ensures r.Failure? ==> FirstFailure(P, fetch, order, r.error)
  {
    var n: nat := if P.pages < 0 then 0 else P.pages;
    assert IsCompletionOrder(order, n);
    var data := p => PageBytes(fetch, P, p);
    var s := Start;
    var k := 0;
    while k < |order|
      invariant 0 <= k <= |order|
      invariant s == Run(order[..k], data)
      invariant forall i :: 0 <= i < k ==> fetch(PageUrl(P, order[i])).Ok()
    {
      var page := order[k];
      assert 1 <= page <= P.pages;
      var done := FetchPage(page, P, fetch);
      if done.Failure? {
        FailsFirst(P, fetch, order, k);
        return Failure(done.error);
      }
      var (pageNum, bytes) := done.value;
      RunOneMore(order, k, data);
      s := Receive(s, pageNum, bytes);
      k := k + 1;
    }
    assert order[..k] == order;
    StreamsAll(P, fetch, order, data);
    r := Success(s.pdf);
  }

  /** The first failure in completion order is what the stream raises, and not every page is ok. */
  lemma FailsFirst(P: Params, fetch: Fetcher, order: seq<int>, k: nat)
    requires IsCompletionOrder(order, P.pages)
    requires k < |order| && !fetch(PageUrl(P, order[k])).Ok()
    requires forall i :: 0 <= i < k ==> fetch(PageUrl(P, order[i])).Ok()
    ensures !AllPagesOk(fetch, P)
    ensures FirstFailure(P, fetch, order, PageError(order[k], fetch(PageUrl(P, order[k]))))
  {
    var page := order[k];
    assert 1 <= page <= P.pages;
    assert forall i :: 0 <= i < k ==> 1 <= order[i] && fetch(PageUrl(P, order[i])).Ok();
  }

  /** Every completion served ok: every page is ok, and the canvas holds them in page order. */
  lemma StreamsAll(P: Params, fetch: Fetcher, order: seq<int>, data: int -> Bytes)
    requires IsCompletionOrder(order, P.pages)
    requires forall p :: data(p) == PageBytes(fetch, P, p)
    requires forall i :: 0 <= i < |order| ==> fetch(PageUrl(P, order[i])).Ok()
    ensures AllPagesOk(fetch, P)
    ensures var n := if P.pages < 0 then 0 else P.pages;
      Run(order, data).pdf == seq(n, i requires 0 <= i < n => fetch(PageUrl(P, i + 1)).content)
  {
    OkInOrderIsAllOk(P, fetch, order);
    var n: nat := if P.pages < 0 then 0 else P.pages;
    assert IsCompletionOrder(order, n);
    RunCompletionOrder(order, n, data);
    DrawnPages(P, fetch, n, data);
  }

  /** Drawing page `i + 1`'s data at position `i` draws each page's bytes. */
  lemma DrawnPages(P: Params, fetch: Fetcher, n: nat, data: int -> Bytes)
    requires forall p :: data(p) == PageBytes(fetch, P, p)
    ensures seq(n, i => data(i + 1)) == seq(n, i requires 0 <= i < n => fetch(PageUrl(P, i + 1)).content)
  {
    var drawn := seq(n, i => data(i + 1));
    var pages := seq(n, i requires 0 <= i < n => fetch(PageUrl(P, i + 1)).content);
    forall i | 0 <= i < n
      ensures drawn[i] == pages[i]
    {
      assert drawn[i] == data(i + 1) == PageBytes(fetch, P, i + 1);
    }
  }

  lemma OkInOrderIsAllOk(P: Params, fetch: Fetcher, order: seq<int>)
    requires IsCompletionOrder(order, P.pages)
    requires forall i :: 0 <= i < |order| ==> fetch(PageUrl(P, order[i])).Ok()
    ensures AllPagesOk(fetch, P)
  {
    forall p: nat | 1 <= p <= P.pages
      ensures fetch(PageUrl(P, p)).Ok()
    {
      assert p in order;
    }
  }

  /**
   What streaming the pages of `P` yields: a PDF exactly when every page is
   ok, holding pages `1..N` in order with their bytes; otherwise the error
   of the first failing page in completion order.
   */
  predicate Streamed(P: Params, fetch: Fetcher, order: seq<int>, r: Result<seq<Bytes>>) {
    && (r.Success? <==> AllPagesOk(fetch, P))
    && (r.Success? ==>
          var n := if P.pages < 0 then 0 else P.pages;
          r.value == seq(n, i requires 0 <= i < n => fetch(PageUrl(P, i + 1)).content))
    && (r.Failure? ==> FirstFailure(P, fetch, order, r.error))
  }

  /**
   `download_and_stream_to_pdf_concurrent`: a bad link fails with the
   resolver's ValueError before any download; otherwise the outcome is that
   of streaming the resolved pages.
   */
  method DownloadAndStream(u: ReaderUrl, fetch: Fetcher, order: seq<int>) returns (r: Result<seq<Bytes>>)
    requires ParseReaderUrl(u).Success? ==> IsCompletionOrder(order, ParseReaderUrl(u).value.pages)
    ensures ParseReaderUrl(u).Failure? ==> r.Failure? && r.error.ValueError?
    ensures ParseReaderUrl(u).Success? ==> Streamed(ParseReaderUrl(u).value, fetch, order, r)
  {
    var parsed := ParseReaderUrl(u);
    if parsed.Failure? {
      return Failure(parsed.error);
    }
    var P := parsed.value;
    r := StreamPages(P, fetch, order);
  }
}
