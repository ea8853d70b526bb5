/**
 * The JavaScript client's paging generators, run against a reply oracle: each
 * request is answered by the oracle applied to the request's arguments. A
 * request budget bounds every run; a run that spends it without meeting a
 * stop condition is reported as unfinished.
 */
module ClientStreams {
  import opened Options
  import opened Windows

  /** A paging reply: `items` may be missing, and so may `nextSince`. */
  datatype Reply<T> = Reply(items: Option<seq<T>>, nextSince: Option<string>)

  /** `items && items.length`: present and non-empty. */
  predicate Present<T>(items: Option<seq<T>>) {
    items.Some? && |items.value| > 0
  }

  /** JavaScript truthiness of an optional string: present and non-empty. */
  predicate Truthy(s: Option<string>) {
    s.Some? && s.value != ""
  }

  /** The pages one after the other. */
  function Flatten<T>(pages: seq<seq<T>>): (r: seq<T>)
  {
    if |pages| == 0 then [] else Flatten(pages[..|pages| - 1]) + pages[|pages| - 1]
  }

  /** Offsets advance by exactly the number of items each page yielded. */
  predicate Contiguous<T>(offsets: seq<int>, pages: seq<seq<T>>) {
    && |pages| <= |offsets| <= |pages| + 1
    && forall k :: 0 <= k < |offsets| ==> offsets[k] == |Flatten(pages[..k])|
  }

  /** The first `nextSince` that is not missing, if any: what the persisted stream pins as its session token. */
  function FirstProposal(proposals: seq<Option<string>>): (r: Option<string>)
    ensures r.Some? <==> exists k :: 0 <= k < |proposals| && proposals[k].Some?
    ensures r.Some? ==> r in proposals
    ensures r.Some? ==> exists k :: 0 <= k < |proposals| && proposals[k] == r && forall j :: 0 <= j < k ==> proposals[j].None?
  {
    if |proposals| == 0 then None
    else if proposals[0].Some? then proposals[0]
    else
      var r := FirstProposal(proposals[1..]);
      assert forall k :: 0 < k < |proposals| ==> proposals[k] == proposals[1..][k - 1];
      if r.Some? then
        var k :| 0 <= k < |proposals| - 1 && proposals[1..][k] == r && forall j :: 0 <= j < k ==> proposals[1..][j].None?;
        assert proposals[k + 1] == r && forall j :: 0 <= j < k + 1 ==> proposals[j].None?;
        r
      else r
  }

  /** The latest truthy proposal, else `fallback`: what `nextSince = proposed || nextSince` leaves behind. */
  function LatestTruthy(fallback: string, proposals: seq<Option<string>>): string {
    if |proposals| == 0 then fallback
    else if Truthy(proposals[|proposals| - 1]) then proposals[|proposals| - 1].value
    else LatestTruthy(fallback, proposals[..|proposals| - 1])
  }

  /** The `nextSince` proposals of the replies to the given requests. */
  function Proposals<Q, T>(serve: Q -> Reply<T>, requests: seq<Q>): (r: seq<Option<string>>)
    ensures |r| == |requests| && forall k :: 0 <= k < |r| ==> r[k] == serve(requests[k]).nextSince
  {
    seq(|requests|, k requires 0 <= k < |requests| => serve(requests[k]).nextSince)
  }

  lemma FlattenSnoc<T>(pages: seq<seq<T>>, page: seq<T>)
    ensures Flatten(pages + [page]) == Flatten(pages) + page
  {
    assert (pages + [page])[..|pages|] == pages;
  }

  lemma ContiguousSnoc<T>(offsets: seq<int>, pages: seq<seq<T>>, page: seq<T>)
    requires Contiguous(offsets, pages) && |offsets| == |pages| + 1
    ensures Contiguous(offsets, pages + [page])
  {
    forall k | 0 <= k < |offsets|
      ensures offsets[k] == |Flatten((pages + [page])[..k])|
    {
      assert (pages + [page])[..k] == pages[..k];
    }
  }

  lemma ContiguousNext<T>(offsets: seq<int>, pages: seq<seq<T>>)
    requires Contiguous(offsets, pages) && |offsets| == |pages|
    ensures Contiguous(offsets + [|Flatten(pages)|], pages)
  {
    var o := offsets + [|Flatten(pages)|];
    forall k | 0 <= k < |o|
      ensures o[k] == |Flatten(pages[..k])|
    {
      if k == |offsets| {
        assert pages[..k] == pages;
      }
    }
  }

  /**
   * `streamAll`: requests pages at offset 0, then at the running item count,
   * until a reply is missing or empty; every non-empty page is yielded.
   */
  method StreamAll<T>(serve: int -> Option<seq<T>>, budget: nat) returns (offsets: seq<int>, pages: seq<seq<T>>, finished: bool)
    ensures Contiguous(offsets, pages)
    ensures forall k :: 0 <= k < |pages| ==> serve(offsets[k]) == Some(pages[k]) && |pages[k]| > 0
    ensures finished ==> |offsets| == |pages| + 1 && !Present(serve(offsets[|pages|]))
    ensures !finished ==> |offsets| == |pages| == budget
  {
    offsets, pages, finished := [], [], false;
    var offset := 0;
    while |offsets| < budget && !finished
      invariant |offsets| <= budget
      invariant Contiguous(offsets, pages)
      invariant offset == |Flatten(pages)|
      invariant forall k :: 0 <= k < |pages| ==> serve(offsets[k]) == Some(pages[k]) && |pages[k]| > 0
      invariant finished ==> |offsets| == |pages| + 1 && !Present(serve(offsets[|pages|]))
      invariant !finished ==> |offsets| == |pages|
      decreases budget - |offsets|
    {
      var page := serve(offset);
      ContiguousNext(offsets, pages);
      offsets := offsets + [offset];
      if !Present(page) {
        finished := true;
      } else {
        ContiguousSnoc(offsets, pages, page.value);
        FlattenSnoc(pages, page.value);
        pages := pages + [page.value];
        offset := offset + |page.value|;
      }
    }
  }

  /** The offsets of a run's requests. */
  function Offsets(requests: seq<(string, int)>): (r: seq<int>)
    ensures |r| == |requests| && forall k :: 0 <= k < |r| ==> r[k] == requests[k].1
  {
    seq(|requests|, k requires 0 <= k < |requests| => requests[k].1)
  }

  lemma LatestTruthySnoc(fallback: string, proposals: seq<Option<string>>, p: Option<string>)
    ensures LatestTruthy(fallback, proposals + [p]) == if Truthy(p) then p.value else LatestTruthy(fallback, proposals)
  {
    assert (proposals + [p])[..|proposals|] == proposals;
  }

  /** What holds of a `streamUpdatedSince` run after each reply. */
  ghost predicate SinceRun<T>(serve: ((string, int)) -> Reply<T>, since: string, requests: seq<(string, int)>, pages: seq<seq<T>>, finished: bool) {
    && (forall k :: 0 <= k < |requests| ==> requests[k].0 == since)
    && Contiguous(Offsets(requests), pages)
    && (forall k :: 0 <= k < |pages| ==> serve(requests[k]).items == Some(pages[k]) && |pages[k]| > 0)
    && (finished ==> |requests| == |pages| + 1 && !Present(serve(requests[|pages|]).items))
    && (!finished ==> |requests| == |pages|)
  }

  lemma SinceRunStep<T>(serve: ((string, int)) -> Reply<T>, since: string, requests: seq<(string, int)>, pages: seq<seq<T>>)
    requires SinceRun(serve, since, requests, pages, false)
    ensures var request := (since, |Flatten(pages)|);
      var reply := serve(request);
      if Present(reply.items) then SinceRun(serve, since, requests + [request], pages + [reply.items.value], false)
      else SinceRun(serve, since, requests + [request], pages, true)
  {
    var request := (since, |Flatten(pages)|);
    var reply := serve(request);
    ContiguousNext(Offsets(requests), pages);
    assert Offsets(requests + [request]) == Offsets(requests) + [request.1];
    if Present(reply.items) {
      ContiguousSnoc(Offsets(requests + [request]), pages, reply.items.value);
    }
  }

  /**
   * `streamUpdatedSince`: every request carries the caller's token; paging
   * stops only at a missing or empty reply. The returned token is the latest
   * truthy proposal among all replies, else the caller's token. It never commits.
   */
  method StreamUpdatedSince<T>(serve: ((string, int)) -> Reply<T>, since: string, budget: nat)
    returns (requests: seq<(string, int)>, pages: seq<seq<T>>, finished: bool, token: string)
    ensures forall k :: 0 <= k < |requests| ==> requests[k].0 == since
    ensures Contiguous(Offsets(requests), pages)
    ensures forall k :: 0 <= k < |pages| ==> serve(requests[k]).items == Some(pages[k]) && |pages[k]| > 0
    ensures finished ==> |requests| == |pages| + 1 && !Present(serve(requests[|pages|]).items)
    ensures !finished ==> |requests| == |pages| == budget
    ensures token == LatestTruthy(since, Proposals(serve, requests))
  {
    requests, pages, finished, token := [], [], false, since;
    var offset := 0;
    while |requests| < budget && !finished
      invariant |requests| <= budget
      invariant SinceRun(serve, since, requests, pages, finished)
      invariant offset == |Flatten(pages)|
      invariant token == LatestTruthy(since, Proposals(serve, requests))
      decreases budget - |requests|
    {
      var request := (since, offset);
      var reply := serve(request);
      SinceRunStep(serve, since, requests, pages);
      LatestTruthySnoc(since, Proposals(serve, requests), reply.nextSince);
      assert Proposals(serve, requests + [request]) == Proposals(serve, requests) + [reply.nextSince];
      requests := requests + [request];
      token := if Truthy(reply.nextSince) then reply.nextSince.value else token;
      if !Present(reply.items) {
        finished := true;
      } else {
        FlattenSnoc(pages, reply.items.value);
        pages := pages + [reply.items.value];
        offset := offset + |reply.items.value|;
      }
    }
  }

  /** What holds of a `streamUpdatedFromPersisted` run after each reply. */
  ghost predicate PersistedRun<T>(serve: int -> Reply<T>, pageSize: int, offsets: seq<int>, pages: seq<seq<T>>, finished: bool) {
    && Contiguous(offsets, pages)
    && (forall k :: 0 <= k < |pages| ==> serve(offsets[k]).items == Some(pages[k]) && |pages[k]| > 0)
    && (forall k :: 0 <= k < |pages| - 1 ==> |pages[k]| >= pageSize)
    && (finished ==>
         || (|offsets| == |pages| + 1 && !Present(serve(offsets[|pages|]).items))
         || (|offsets| == |pages| > 0 && |pages[|pages| - 1]| < pageSize))
    && (!finished ==> |offsets| == |pages| && forall k :: 0 <= k < |pages| ==> |pages[k]| >= pageSize)
  }

  lemma PersistedRunStep<T>(serve: int -> Reply<T>, pageSize: int, offsets: seq<int>, pages: seq<seq<T>>)
    requires PersistedRun(serve, pageSize, offsets, pages, false)
    ensures var o := |Flatten(pages)|;
      var reply := serve(o);
      if Present(reply.items) then PersistedRun(serve, pageSize, offsets + [o], pages + [reply.items.value], |reply.items.value| < pageSize)
      else PersistedRun(serve, pageSize, offsets + [o], pages, true)
  {
    var o := |Flatten(pages)|;
    var reply := serve(o);
    ContiguousNext(offsets, pages);
    if Present(reply.items) {
      ContiguousSnoc(offsets + [o], pages, reply.items.value);
    }
  }

  /**
   * `streamUpdatedFromPersisted`: pages from offset 0 until a missing or empty
   * reply or a page shorter than `pageSize`; the session token is the first
   * reply's `nextSince` that is not missing, never replaced. Once paging ends
   * the token is committed if truthy, and the run returns it, or the persisted
   * token read afterwards (`persisted`) when it is not truthy.
   */
  method StreamUpdatedFromPersisted<T>(serve: int -> Reply<T>, pageSize: int, persisted: string, budget: nat)
    returns (offsets: seq<int>, pages: seq<seq<T>>, finished: bool, session: Option<string>, committed: Option<string>, result: Option<string>)
    ensures Contiguous(offsets, pages)
    ensures forall k :: 0 <= k < |pages| ==> serve(offsets[k]).items == Some(pages[k]) && |pages[k]| > 0
    ensures forall k :: 0 <= k < |pages| - 1 ==> |pages[k]| >= pageSize
    ensures finished ==>
      || (|offsets| == |pages| + 1 && !Present(serve(offsets[|pages|]).items))
      || (|offsets| == |pages| > 0 && |pages[|pages| - 1]| < pageSize)
    ensures !finished ==> |offsets| == |pages| == budget && forall k :: 0 <= k < |pages| ==> |pages[k]| >= pageSize
    ensures session == FirstProposal(Proposals(serve, offsets))
    ensures committed == if finished && Truthy(session) then session else None
    ensures result == if !finished then None else if Truthy(session) then session else Some(persisted)
  {
    offsets, pages, finished, session := PagePersisted(serve, pageSize, budget);
    committed := if finished && Truthy(session) then session else None;
    result := if !finished then None else if Truthy(session) then session else Some(persisted);
  }

  /** The paging loop of `streamUpdatedFromPersisted`, up to `budget` requests. */
  method PagePersisted<T>(serve: int -> Reply<T>, pageSize: int, budget: nat)
    returns (offsets: seq<int>, pages: seq<seq<T>>, finished: bool, session: Option<string>)
    ensures PersistedRun(serve, pageSize, offsets, pages, finished)
    ensures !finished ==> |offsets| == budget
    ensures session == FirstProposal(Proposals(serve, offsets))
  {
    offsets, pages, finished, session := [], [], false, None;
    var offset := 0;
    while |offsets| < budget && !finished
      invariant |offsets| <= budget
      invariant PersistedRun(serve, pageSize, offsets, pages, finished)
      invariant offset == |Flatten(pages)|
      invariant session == FirstProposal(Proposals(serve, offsets))
      decreases budget - |offsets|
    {
      var reply := serve(offset);
      PersistedRunStep(serve, pageSize, offsets, pages);
      SessionSnoc(serve, offsets, offset);
      offsets := offsets + [offset];
      if session.None? {
        session := reply.nextSince;
      }
      if !Present(reply.items) {
        finished := true;
      } else {
        FlattenSnoc(pages, reply.items.value);
        pages := pages + [reply.items.value];
        offset := offset + |reply.items.value|;
        finished := |reply.items.value| < pageSize;
      }
    }
  }

  /** The session token after one more reply: the earlier one if any, else the new reply's proposal. */
  lemma SessionSnoc<Q, T>(serve: Q -> Reply<T>, requests: seq<Q>, q: Q)
    ensures var before := FirstProposal(Proposals(serve, requests));
      FirstProposal(Proposals(serve, requests + [q])) == if before.Some? then before else serve(q).nextSince
  {
    FirstProposalSnoc(Proposals(serve, requests), serve(q).nextSince);
    assert Proposals(serve, requests + [q]) == Proposals(serve, requests) + [serve(q).nextSince];
  }

  lemma {:induction false} FirstProposalSnoc(proposals: seq<Option<string>>, p: Option<string>)
    ensures FirstProposal(proposals + [p]) == if FirstProposal(proposals).Some? then FirstProposal(proposals) else p
  {
    if |proposals| > 0 {
      assert (proposals + [p])[1..] == proposals[1..] + [p];
      FirstProposalSnoc(proposals[1..], p);
    } else {
      assert proposals + [p] == [p];
    }
  }

  /** Every page holds at least one item, so there are no more pages than items. */
  lemma {:induction false} FlattenAtLeastPages<T>(pages: seq<seq<T>>)
    requires forall k :: 0 <= k < |pages| ==> |pages[k]| > 0
    ensures |Flatten(pages)| >= |pages|
  {
    if |pages| > 0 {
      FlattenAtLeastPages(pages[..|pages| - 1]);
    }
  }

  /**
   * Pages that are the windows of `list` at the running item count, each
   * non-empty, spell out a prefix of `list`.
   */
  lemma {:induction false} WindowPagesArePrefix<T>(list: seq<T>, pageSize: int, pages: seq<seq<T>>)
    requires pageSize > 0
    requires WindowRun(list, pageSize, pages)
    ensures |Flatten(pages)| <= |list| && Flatten(pages) == list[..|Flatten(pages)|]
  {
    if |pages| > 0 {
      var n := |pages| - 1;
      WindowRunPrefix(list, pageSize, pages, n);
      WindowPagesArePrefix(list, pageSize, pages[..n]);
      PrefixExtends(list, pageSize, Flatten(pages[..n]), pages[n]);
    }
  }

  /** Every page is the window of `list` at the number of items before it, and is non-empty. */
  ghost predicate WindowRun<T>(list: seq<T>, pageSize: int, pages: seq<seq<T>>) {
    forall k :: 0 <= k < |pages| ==> pages[k] == Window(list, |Flatten(pages[..k])|, pageSize) && |pages[k]| > 0
  }

  lemma WindowRunPrefix<T>(list: seq<T>, pageSize: int, pages: seq<seq<T>>, n: nat)
    requires WindowRun(list, pageSize, pages) && n <= |pages|
    ensures WindowRun(list, pageSize, pages[..n])
    ensures n < |pages| ==> pages[n] == Window(list, |Flatten(pages[..n])|, pageSize)
  {
    forall k | 0 <= k < n
      ensures pages[..n][k] == Window(list, |Flatten(pages[..n][..k])|, pageSize) && |pages[..n][k]| > 0
    {
      assert pages[..n][..k] == pages[..k];
    }
  }

  /** A prefix of `list` followed by the window right after it is a longer prefix. */
  lemma PrefixExtends<T>(list: seq<T>, pageSize: int, done: seq<T>, page: seq<T>)
    requires pageSize > 0
    requires |done| <= |list| && done == list[..|done|]
    requires page == Window(list, |done|, pageSize)
    ensures |done + page| <= |list| && done + page == list[..|done + page|]
  {
    WindowSlice(list, |done|, pageSize);
  }

  /** The pages of a contiguous run, each the reply at its own offset. */
  lemma RunPagesAreWindows<T>(list: seq<T>, pageSize: int, offsets: seq<int>, pages: seq<seq<T>>)
    requires Contiguous(offsets, pages)
    requires forall k :: 0 <= k < |pages| ==> pages[k] == Window(list, offsets[k], pageSize) && |pages[k]| > 0
    ensures WindowRun(list, pageSize, pages)
  {
  }

  /**
   * `streamAll` against a provider whose replies are the pages of a fixed
   * list: with a positive page size and a budget larger than the list, the run
   * finishes and its pages, in order, are exactly the list.
   */
  lemma StreamAllCoversList<T>(list: seq<T>, pageSize: int, serve: int -> Option<seq<T>>, budget: nat,
                               offsets: seq<int>, pages: seq<seq<T>>, finished: bool)
    requires pageSize > 0 && budget > |list|
    requires forall o :: serve(o) == Some(Window(list, o, pageSize))
    requires Contiguous(offsets, pages)
    requires forall k :: 0 <= k < |pages| ==> serve(offsets[k]) == Some(pages[k]) && |pages[k]| > 0
    requires finished ==> |offsets| == |pages| + 1 && !Present(serve(offsets[|pages|]))
    requires !finished ==> |offsets| == |pages| == budget
    ensures finished && Flatten(pages) == list
  {
    RunPagesAreWindows(list, pageSize, offsets, pages);
    WindowPagesArePrefix(list, pageSize, pages);
    FlattenAtLeastPages(pages);
    var o := offsets[|pages|];
    assert o == |Flatten(pages)| by {
      assert pages[..|pages|] == pages;
    }
    WindowElements(list, o, pageSize);
  }

  /**
   * `streamUpdatedFromPersisted` against replies that are the pages of a fixed
   * list: the run finishes, having made at least one request, and its pages
   * are exactly the list, whether it stopped on an empty reply or a short page.
   */
  lemma PersistedStreamCoversList<T>(list: seq<T>, pageSize: int, serve: int -> Reply<T>, budget: nat,
                                     offsets: seq<int>, pages: seq<seq<T>>, finished: bool)
    requires pageSize > 0 && budget > |list|
    requires forall o :: serve(o).items == Some(Window(list, o, pageSize))
    requires Contiguous(offsets, pages)
    requires forall k :: 0 <= k < |pages| ==> serve(offsets[k]).items == Some(pages[k]) && |pages[k]| > 0
    requires finished ==>
      || (|offsets| == |pages| + 1 && !Present(serve(offsets[|pages|]).items))
      || (|offsets| == |pages| > 0 && |pages[|pages| - 1]| < pageSize)
    requires !finished ==> |offsets| == |pages| == budget
    ensures finished && Flatten(pages) == list
    ensures |offsets| > 0
  {
    RunPagesAreWindows(list, pageSize, offsets, pages);
    WindowRunEnds(list, pageSize, pages);
    if |offsets| == |pages| + 1 {
      assert offsets[|pages|] == |Flatten(pages)| by {
        assert pages[..|pages|] == pages;
      }
    }
  }

  /**
   * A run of windows ends on the whole list when the window after it is empty
   * or its last page is short; and it has no more pages than the list has items.
   */
  lemma WindowRunEnds<T>(list: seq<T>, pageSize: int, pages: seq<seq<T>>)
    requires pageSize > 0 && WindowRun(list, pageSize, pages)
    ensures |pages| <= |list|
    ensures Window(list, |Flatten(pages)|, pageSize) == [] ==> Flatten(pages) == list
    ensures |pages| > 0 && |pages[|pages| - 1]| < pageSize ==> Flatten(pages) == list
  {
    WindowPagesArePrefix(list, pageSize, pages);
    FlattenAtLeastPages(pages);
    WindowSlice(list, |Flatten(pages)|, pageSize);
    if |pages| > 0 {
      var n := |pages| - 1;
      WindowRunPrefix(list, pageSize, pages, n);
      WindowPagesArePrefix(list, pageSize, pages[..n]);
      WindowSlice(list, |Flatten(pages[..n])|, pageSize);
    }
  }

  /**
   * A persisted-token run that made at least one request pins the first
   * reply's proposal as its session token whenever that reply has one.
   */
  lemma PersistedSessionFromFirstReply<T>(serve: int -> Reply<T>, offsets: seq<int>, pages: seq<seq<T>>, session: Option<string>)
    requires Contiguous(offsets, pages) && |offsets| > 0
    requires session == FirstProposal(Proposals(serve, offsets))
    ensures serve(0).nextSince.Some? ==> session == serve(0).nextSince
  {
    assert offsets[0] == 0 by {
      assert |Flatten(pages[..0])| == 0;
    }
  }
}
