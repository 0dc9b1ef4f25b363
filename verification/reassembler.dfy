/**
 The ordered reassembler of the streaming downloader: page downloads
 complete in any order, each completed page goes into the `ready` buffer,
 and then every page from `next_page_to_write` onwards that is present is
 popped and drawn onto the PDF canvas. Drawing a page is modelled as
 appending its number to `written` and its image bytes to `pdf`.
 */
module Reassembler {
  import opened Common
  import opened Ranges

  /** `next_page_to_write`, the `ready` dict, and what has been drawn so far. */
  datatype Assembler = Assembler(next: int, ready: map<int, Bytes>, written: seq<int>, pdf: seq<Bytes>)

  /** Before any download has completed. */
  const Start: Assembler := Assembler(1, map[], [], [])

  /**
   `r` is what draining from `s` leaves: the cursor moved from `s.next` to
   `r.next` over pages all present in `s.ready`; exactly those pages left
   the buffer, the other buffered bytes are untouched; they were drawn in
   ascending order, each with its own buffered bytes, after what `s` had
   drawn.
   */
  ghost predicate DrainedFrom(s: Assembler, r: Assembler) {
    && s.next <= r.next
    && (forall k :: s.next <= k < r.next ==> k in s.ready)
    && (forall k :: k in r.ready <==> k in s.ready && !(s.next <= k < r.next))
    && (forall k :: k in r.ready ==> r.ready[k] == s.ready[k])
    && r.written == s.written + Range(s.next, r.next)
    && |r.pdf| == |s.pdf| + (r.next - s.next)
    && r.pdf[..|s.pdf|] == s.pdf
    && (forall i :: |s.pdf| <= i < |r.pdf| ==>
          s.next + (i - |s.pdf|) in s.ready && r.pdf[i] == s.ready[s.next + (i - |s.pdf|)])
  }

  /**
   `while next_page_to_write in ready`: pop that page, draw it, advance.
   The pages drawn are the contiguous run present from the cursor on, in
   ascending order, and the loop stops at the first missing page.
   */
  function Drain(s: Assembler): (r: Assembler)
    ensures DrainedFrom(s, r)
    ensures r.next !in r.ready
    decreases |s.ready|
  {
    if s.next in s.ready then
      var rest := s.ready - {s.next};
      assert |rest| < |s.ready| by {
        assert rest.Keys == s.ready.Keys - {s.next};
      }
      var t := Assembler(s.next + 1, rest, s.written + [s.next], s.pdf + [s.ready[s.next]]);
      var r := Drain(t);
      DrainPopped(s, t, r);
      r
    else
      assert s.pdf[..|s.pdf|] == s.pdf;
      s
  }

  /** Popping the cursor's page and then draining the rest drains from the cursor. */
  lemma DrainPopped(s: Assembler, t: Assembler, r: Assembler)
    requires s.next in s.ready
    requires t == Assembler(s.next + 1, s.ready - {s.next}, s.written + [s.next], s.pdf + [s.ready[s.next]])
    requires DrainedFrom(t, r)
    ensures DrainedFrom(s, r)
  {
    assert Range(s.next, r.next) == [s.next] + Range(t.next, r.next);
    assert r.pdf[..|s.pdf|] == r.pdf[..|t.pdf|][..|s.pdf|];
    forall k | s.next <= k < r.next
      ensures k in s.ready
    {
      if k > s.next {
        assert k in t.ready;
      }
    }
    forall i | |s.pdf| <= i < |r.pdf|
      ensures s.next + (i - |s.pdf|) in s.ready && r.pdf[i] == s.ready[s.next + (i - |s.pdf|)]
    {
      if i == |s.pdf| {
        assert r.pdf[i] == r.pdf[..|t.pdf|][i];
      } else {
        var k := t.next + (i - |t.pdf|);
        assert k == s.next + (i - |s.pdf|);
        assert k in t.ready && r.pdf[i] == t.ready[k];
      }
    }
  }

  /** One completed download: `ready[page_num] = img_bytes`, then drain. */
  function Receive(s: Assembler, page: int, image: Bytes): (r: Assembler)
    ensures s.next <= r.next && r.next !in r.ready
    ensures r.written == s.written + Range(s.next, r.next)
    ensures |r.pdf| == |s.pdf| + (r.next - s.next) && r.pdf[..|s.pdf|] == s.pdf
    ensures page in r.ready ==> r.ready[page] == image
    ensures page >= s.next ==> page in r.ready || page < r.next
  {
    Drain(s.(ready := s.ready[page := image]))
  }

  /**
   The reassembler's invariant after the pages in `seen` have completed,
   page `p` carrying the bytes `data(p)`: the pages drawn are exactly
   `1..next-1`, ascending, each with its own bytes; `ready` holds exactly
   the completed pages from the cursor on; and the cursor is not in
   `ready`, so every buffered page lies strictly beyond it.
   */
  ghost predicate Good(s: Assembler, seen: set<int>, data: int -> Bytes) {
    && s.next >= 1
    && (forall p :: p in seen ==> p >= 1)
    && s.written == Range(1, s.next)
    && |s.pdf| == s.next - 1
    && (forall i :: 0 <= i < |s.pdf| ==> s.pdf[i] == data(i + 1))
    && (forall p :: 1 <= p < s.next ==> p in seen)
    && (forall p :: p in s.ready <==> p in seen && p >= s.next)
    && (forall p :: p in s.ready ==> s.ready[p] == data(p))
    && s.next !in s.ready
  }

  /**
   Handling one more completion keeps the invariant. The new page is at or
   beyond the cursor, so it was never drawn before and is never drawn
   twice; the cursor only moves forward.
   */
  lemma ReceiveKeepsGood(s: Assembler, seen: set<int>, data: int -> Bytes, page: int)
    requires Good(s, seen, data)
    requires page >= 1 && page !in seen
    ensures page >= s.next && page !in s.written
    ensures Good(Receive(s, page, data(page)), seen + {page}, data)
    ensures Receive(s, page, data(page)).next >= s.next
    ensures forall k :: k in Receive(s, page, data(page)).ready ==> k > Receive(s, page, data(page)).next
  {
    var t := s.(ready := s.ready[page := data(page)]);
    var r := Drain(t);
    var seen' := seen + {page};
    assert page >= s.next;
    assert forall p :: p in t.ready <==> p in seen' && p >= t.next;
    assert forall p :: p in t.ready ==> t.ready[p] == data(p);
    DrainKeepsGood(t, r, seen', data);
  }

  /**
   Draining a state whose buffer holds exactly the completed pages from the
   cursor on restores the full invariant.
   */
  lemma DrainKeepsGood(t: Assembler, r: Assembler, seen: set<int>, data: int -> Bytes)
    requires DrainedFrom(t, r) && r.next !in r.ready
    requires t.next >= 1
    requires forall p :: p in seen ==> p >= 1
    requires t.written == Range(1, t.next)
    requires |t.pdf| == t.next - 1
    requires forall i :: 0 <= i < |t.pdf| ==> t.pdf[i] == data(i + 1)
    requires forall p :: 1 <= p < t.next ==> p in seen
    requires forall p :: p in t.ready <==> p in seen && p >= t.next
    requires forall p :: p in t.ready ==> t.ready[p] == data(p)
    ensures Good(r, seen, data)
  {
    RangeAppend(1, t.next, r.next);
    DrainedPagesCarryData(t, r, data);
    DrainedPagesSeen(t, r, seen);
    DrainedReady(t, r, seen);
  }

  /** After a drain the buffer holds exactly the completed pages beyond the new cursor. */
  lemma DrainedReady(t: Assembler, r: Assembler, seen: set<int>)
    requires t.next <= r.next
    requires forall p :: p in t.ready <==> p in seen && p >= t.next
    requires forall k :: k in r.ready <==> k in t.ready && !(t.next <= k < r.next)
    ensures forall p :: p in r.ready <==> p in seen && p >= r.next
  {
  }

  /** The pages drawn by a drain carry their own bytes. */
  lemma DrainedPagesCarryData(t: Assembler, r: Assembler, data: int -> Bytes)
    requires |t.pdf| == t.next - 1
    requires forall i :: 0 <= i < |t.pdf| ==> t.pdf[i] == data(i + 1)
    requires forall p :: p in t.ready ==> t.ready[p] == data(p)
    requires t.next <= r.next
    requires |r.pdf| == |t.pdf| + (r.next - t.next)
    requires r.pdf[..|t.pdf|] == t.pdf
    requires forall i :: |t.pdf| <= i < |r.pdf| ==>
               t.next + (i - |t.pdf|) in t.ready && r.pdf[i] == t.ready[t.next + (i - |t.pdf|)]
    ensures forall i :: 0 <= i < |r.pdf| ==> r.pdf[i] == data(i + 1)
  {
    forall i | 0 <= i < |r.pdf|
      ensures r.pdf[i] == data(i + 1)
    {
      if i < |t.pdf| {
        assert r.pdf[i] == r.pdf[..|t.pdf|][i];
      } else {
        var drawn := r.pdf[i];
        var k := t.next + (i - |t.pdf|);
        assert k == i + 1 && k in t.ready;
        assert drawn == t.ready[k];
      }
    }
  }

  /** Every page drawn so far has completed. */
  lemma DrainedPagesSeen(t: Assembler, r: Assembler, seen: set<int>)
    requires forall p :: 1 <= p < t.next ==> p in seen
    requires forall p :: p in t.ready <==> p in seen && p >= t.next
    requires forall k :: t.next <= k < r.next ==> k in t.ready
    ensures forall p :: 1 <= p < r.next ==> p in seen
  {
    forall p | 1 <= p < r.next
      ensures p in seen
    {
      if p >= t.next {
        assert p in t.ready;
      }
    }
  }

  /** The state after the completions in `order` have been handled, in that order. */
  function Run(order: seq<int>, data: int -> Bytes): (r: Assembler)
    ensures r.next >= 1 && r.next !in r.ready
    ensures r.written == Range(1, r.next) && |r.pdf| == r.next - 1
  {
    if order == [] then Start
    else
      var last := order[|order| - 1];
      var s := Run(order[..|order| - 1], data);
      var r := Receive(s, last, data(last));
      RangeAppend(1, s.next, r.next);
      r
  }

  lemma RunOneMore(order: seq<int>, k: nat, data: int -> Bytes)
    requires k < |order|
    ensures Run(order[..k + 1], data) == Receive(Run(order[..k], data), order[k], data(order[k]))
  {
    assert order[..k + 1][..k] == order[..k];
  }

  /** Any sequence of distinct pages keeps the invariant. */
  lemma {:induction false} RunKeepsGood(order: seq<int>, data: int -> Bytes)
    requires forall i :: 0 <= i < |order| ==> order[i] >= 1
    requires forall i, j :: 0 <= i < j < |order| ==> order[i] != order[j]
    ensures Good(Run(order, data), Seen(order), data)
  {
    if order == [] {
      assert Seen(order) == {};
    } else {
      var front := order[..|order| - 1];
      var last := order[|order| - 1];
      assert Seen(order) == Seen(front) + {last} by {
        assert order == front + [last];
      }
      RunKeepsGood(front, data);
      assert last !in Seen(front);
      ReceiveKeepsGood(Run(front, data), Seen(front), data, last);
    }
  }

  /**
   The ordering theorem: whatever order the downloads of pages `1..n`
   complete in, handling all of them draws exactly pages `1..n`, ascending,
   each once with its own bytes, empties `ready`, and leaves the cursor at
   `n + 1`.
   */
  lemma RunCompletionOrder(order: seq<int>, n: nat, data: int -> Bytes)
    requires IsCompletionOrder(order, n)
    ensures Run(order, data) == Assembler(n + 1, map[], Range(1, n + 1), seq(n, i => data(i + 1)))
  {
    RunKeepsGood(order, data);
    var r := Run(order, data);
    forall p ensures p in Seen(order) <==> 1 <= p <= n {
      if 1 <= p <= n {
        assert p in order;
      }
    }
    assert n + 1 !in Seen(order);
    assert r.next in Seen(order) <==> r.next <= n;
    assert r.next == n + 1;
    assert r.ready == map[] by {
      assert forall p :: p !in r.ready;
    }
    assert r.pdf == seq(n, i => data(i + 1));
  }
}
