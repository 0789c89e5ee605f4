/**
 The page-accumulation loop shared by both versions of `get_urls`: send a
 request, read the continuation link, decode the page, append its items and
 follow the link until there is none. The catalog server is a finite script
 of replies: the k-th reply answers the k-th request sent. A request that the
 script has no reply for is an unanswered request, a network error.
 */
module Pagination {
  import opened Wrappers
  import opened Text
  import opened LinkHeader

  /** A GET request: a URL plus the query pairs `reqwest` appends to it. */
  datatype Request = Request(url: string, query: seq<(string, string)>)

  /** Why a fetch failed; either failure aborts the whole walk. */
  datatype FetchError = NetworkError | DecodeError

  /**
   What the server does with one request: it does not answer (`send` fails),
   or it answers with an optional raw `link` header and a body that is a JSON
   array of elements (`Some`) or is not (`None`). Whether the elements have
   the fields a decoder needs is up to that decoder, the `read` function.
   */
  datatype Reply<T> = Unreachable | Delivered(link: Option<seq<Byte>>, body: Option<seq<T>>)

  /** The requests the walk sent, in order, and its outcome. */
  datatype Crawl<U> = Crawl(requests: seq<Request>, result: Result<seq<U>, FetchError>)

  /** The continuation a reply carries, if any. */
  function Continuation<T>(p: Reply<T>): Option<string> {
    if p.Delivered? then GetLinkHeader(p.link) else None
  }

  /** The reply arrived and its body was read successfully. */
  predicate Readable<T, U>(p: Reply<T>, read: Option<seq<T>> -> Result<seq<U>, FetchError>) {
    p.Delivered? && read(p.body).Ok?
  }

  /** The first `n` replies all arrived and were read successfully. */
  predicate AllReadable<T, U>(pages: seq<Reply<T>>, n: nat, read: Option<seq<T>> -> Result<seq<U>, FetchError>) {
    n <= |pages| && forall j :: 0 <= j < n ==> Readable(pages[j], read)
  }

  /**
   The reference meaning of a successful walk: the items of the first `n`
   pages, each page's items appended after those of the pages before it.
   */
  function Gathered<T, U>(pages: seq<Reply<T>>, n: nat, read: Option<seq<T>> -> Result<seq<U>, FetchError>): seq<U>
    requires AllReadable(pages, n, read)
  {
    if n == 0 then [] else Gathered(pages, n - 1, read) + read(pages[n - 1].body).value
  }

  /**
   A complete walk of `n` pages: every page was read, each of the first
   `n - 1` pages links to a next page and the `n`-th one does not.
   */
  predicate CompleteWalk<T, U>(pages: seq<Reply<T>>, n: nat, read: Option<seq<T>> -> Result<seq<U>, FetchError>) {
    && 1 <= n
    && AllReadable(pages, n, read)
    && (forall j :: 0 <= j < n - 1 ==> Continuation(pages[j]).Some?)
    && Continuation(pages[n - 1]).None?
  }

  /**
   Request `j` was sent because page `j - 1` was read and linked onward, and
   it goes to that link with no query.
   */
  predicate LinkedStep<T, U>(pages: seq<Reply<T>>, requests: seq<Request>, read: Option<seq<T>> -> Result<seq<U>, FetchError>, j: int) {
    && 1 <= j < |requests|
    && j - 1 < |pages|
    && Readable(pages[j - 1], read)
    && Continuation(pages[j - 1]).Some?
    && requests[j] == Request(Continuation(pages[j - 1]).value, [])
  }

  /** Every request after the first follows the link of the page before it. */
  predicate FollowsLinks<T, U>(pages: seq<Reply<T>>, requests: seq<Request>, read: Option<seq<T>> -> Result<seq<U>, FetchError>) {
    forall j :: 1 <= j < |requests| ==> LinkedStep(pages, requests, read, j)
  }

  /** Only the first request of a walk that follows links carries a query. */
  lemma FollowUpsHaveNoQuery<T, U>(pages: seq<Reply<T>>, requests: seq<Request>, read: Option<seq<T>> -> Result<seq<U>, FetchError>)
    requires FollowsLinks(pages, requests, read)
    ensures forall j :: 1 <= j < |requests| ==> requests[j].query == []
  {
    forall j | 1 <= j < |requests|
      ensures requests[j].query == []
    {
      assert LinkedStep(pages, requests, read, j);
    }
  }

  /** The failure the last request of a walk runs into. */
  predicate FailsAt<T, U>(pages: seq<Reply<T>>, k: nat, read: Option<seq<T>> -> Result<seq<U>, FetchError>, e: FetchError) {
    if k >= |pages| || pages[k].Unreachable? then e == NetworkError
    else read(pages[k].body) == Err(e)
  }

  /** Prepending a first page to a gathered prefix of later pages. */
  lemma {:induction false} GatheredCons<T, U>(pages: seq<Reply<T>>, n: nat, read: Option<seq<T>> -> Result<seq<U>, FetchError>)
    requires 1 <= n && AllReadable(pages, n, read)
    ensures AllReadable(pages[1..], n - 1, read)
    ensures Gathered(pages, n, read) == read(pages[0].body).value + Gathered(pages[1..], n - 1, read)
  {
    assert forall j :: 0 <= j < n - 1 ==> pages[1..][j] == pages[j + 1];
    if n > 1 {
      GatheredCons(pages, n - 1, read);
      assert pages[1..][n - 2] == pages[n - 1];
    }
  }

  /** A first page that was read and links onward extends a walk that follows links. */
  lemma FollowsLinksCons<T, U>(pages: seq<Reply<T>>, req: Request, rest: seq<Request>, read: Option<seq<T>> -> Result<seq<U>, FetchError>)
    requires |pages| > 0 && Readable(pages[0], read) && Continuation(pages[0]).Some?
    requires |rest| > 0 && rest[0] == Request(Continuation(pages[0]).value, [])
    requires FollowsLinks(pages[1..], rest, read)
    ensures FollowsLinks(pages, [req] + rest, read)
  {
    var requests := [req] + rest;
    forall j | 1 <= j < |requests|
      ensures LinkedStep(pages, requests, read, j)
    {
      if j == 1 {
        assert requests[1] == rest[0];
      } else {
        var k := j - 1;
        assert LinkedStep(pages[1..], rest, read, k);
        assert requests[j] == rest[k];
        assert pages[1..][k - 1] == pages[j - 1];
      }
    }
  }

  /** A first page that was read and links onward extends a complete walk of the later pages. */
  lemma CompleteWalkCons<T, U>(pages: seq<Reply<T>>, n: nat, read: Option<seq<T>> -> Result<seq<U>, FetchError>)
    requires 2 <= n && |pages| > 0 && Readable(pages[0], read) && Continuation(pages[0]).Some?
    requires CompleteWalk(pages[1..], n - 1, read)
    ensures CompleteWalk(pages, n, read)
  {
    assert forall j :: 0 <= j < n - 1 ==> pages[1..][j] == pages[j + 1];
  }

  /** A failure of the walk over the later pages is a failure one page further on. */
  lemma FailsAtCons<T, U>(pages: seq<Reply<T>>, k: nat, read: Option<seq<T>> -> Result<seq<U>, FetchError>, e: FetchError)
    requires |pages| > 0 && FailsAt(pages[1..], k, read, e)
    ensures FailsAt(pages, k + 1, read, e)
  {
    if k < |pages| - 1 {
      assert pages[1..][k] == pages[k + 1];
    }
  }

  /**
   The `while let Some(url) = next_url` loop, unrolled over the server's
   replies: `req` is sent and answered by `pages[0]`; a reply's continuation
   becomes the next request; the first failure aborts the walk with no
   partial result.
   */
  function Follow<T, U>(pages: seq<Reply<T>>, req: Request, read: Option<seq<T>> -> Result<seq<U>, FetchError>): (r: Crawl<U>)
    ensures 1 <= |r.requests| && r.requests[0] == req
    ensures FollowsLinks(pages, r.requests, read)
    ensures r.result.Ok? ==> CompleteWalk(pages, |r.requests|, read)
    ensures r.result.Ok? ==> r.result.value == Gathered(pages, |r.requests|, read)
    ensures r.result.Err? ==> FailsAt(pages, |r.requests| - 1, read, r.result.error)
    decreases |pages|
  {
    if pages == [] then Crawl([req], Err(NetworkError))
    else match pages[0]
      case Unreachable => Crawl([req], Err(NetworkError))
      case Delivered(link, body) =>
        var next := GetLinkHeader(link);
        match read(body)
        case Err(e) => Crawl([req], Err(e))
        case Ok(items) =>
          if next.None? then
            Crawl([req], Ok(items))
          else
            var rest := Follow(pages[1..], Request(next.value, []), read);
            var requests := [req] + rest.requests;
            var n := |requests|;
            FollowsLinksCons(pages, req, rest.requests, read);
            match rest.result
            case Err(e) =>
              FailsAtCons(pages, n - 2, read, e);
              Crawl(requests, Err(e))
            case Ok(later) =>
              CompleteWalkCons(pages, n, read);
              GatheredCons(pages, n, read);
              Crawl(requests, Ok(items + later))
  }

  /**
   The converse: whenever the replies form a complete walk of `n` pages,
   the walk sends exactly `n` requests and succeeds with the gathered items.
   */
  lemma {:induction false} FollowComplete<T, U>(pages: seq<Reply<T>>, req: Request, n: nat, read: Option<seq<T>> -> Result<seq<U>, FetchError>)
    requires CompleteWalk(pages, n, read)
    ensures |Follow(pages, req, read).requests| == n
    ensures Follow(pages, req, read).result == Ok(Gathered(pages, n, read))
    decreases n
  {
    GatheredCons(pages, n, read);
    if n > 1 {
      assert forall j :: 0 <= j < n - 1 ==> pages[1..][j] == pages[j + 1];
      FollowComplete(pages[1..], Request(Continuation(pages[0]).value, []), n - 1, read);
    }
  }

  /** Replies beyond the terminal page are never requested. */
  lemma FollowIgnoresLaterReplies<T, U>(pages: seq<Reply<T>>, extra: seq<Reply<T>>, req: Request, n: nat, read: Option<seq<T>> -> Result<seq<U>, FetchError>)
    requires CompleteWalk(pages, n, read)
    ensures Follow(pages + extra, req, read) == Follow(pages, req, read)
  {
    assert forall j :: 0 <= j < |pages| ==> (pages + extra)[j] == pages[j];
    assert CompleteWalk(pages + extra, n, read);
    FollowComplete(pages, req, n, read);
    FollowComplete(pages + extra, req, n, read);
    GatheredPrefix(pages, extra, n, read);
    RequestsDetermined(pages, pages + extra, req, n, read);
  }

  /** Gathering depends only on the pages gathered. */
  lemma {:induction false} GatheredPrefix<T, U>(pages: seq<Reply<T>>, extra: seq<Reply<T>>, n: nat, read: Option<seq<T>> -> Result<seq<U>, FetchError>)
    requires AllReadable(pages, n, read)
    ensures AllReadable(pages + extra, n, read)
    ensures Gathered(pages + extra, n, read) == Gathered(pages, n, read)
  {
    assert forall j :: 0 <= j < |pages| ==> (pages + extra)[j] == pages[j];
    if n > 0 {
      GatheredPrefix(pages, extra, n - 1, read);
    }
  }

  /** Two scripts that agree on the pages a complete walk visits send the same requests. */
  lemma {:induction false} RequestsDetermined<T, U>(a: seq<Reply<T>>, b: seq<Reply<T>>, req: Request, n: nat, read: Option<seq<T>> -> Result<seq<U>, FetchError>)
    requires CompleteWalk(a, n, read) && n <= |b|
    requires forall j :: 0 <= j < n ==> b[j] == a[j]
    ensures Follow(a, req, read).requests == Follow(b, req, read).requests
    decreases n
  {
    assert b[0] == a[0];
    if n == 1 {
      FollowLast(a, req, read);
      FollowLast(b, req, read);
    } else {
      var next := Request(Continuation(a[0]).value, []);
      FollowStep(a, req, read);
      FollowStep(b, req, read);
      assert forall j :: 0 <= j < n - 1 ==> a[1..][j] == a[j + 1] && b[1..][j] == b[j + 1];
      RequestsDetermined(a[1..], b[1..], next, n - 1, read);
    }
  }

  /** A page that was read and links nowhere ends the walk after one request. */
  lemma FollowLast<T, U>(pages: seq<Reply<T>>, req: Request, read: Option<seq<T>> -> Result<seq<U>, FetchError>)
    requires |pages| > 0 && Readable(pages[0], read) && Continuation(pages[0]).None?
    ensures Follow(pages, req, read).requests == [req]
  {
  }

  /** A page that was read and links onward leads to a request for its link. */
  lemma FollowStep<T, U>(pages: seq<Reply<T>>, req: Request, read: Option<seq<T>> -> Result<seq<U>, FetchError>)
    requires |pages| > 0 && Readable(pages[0], read) && Continuation(pages[0]).Some?
    ensures Follow(pages, req, read).requests
         == [req] + Follow(pages[1..], Request(Continuation(pages[0]).value, []), read).requests
  {
  }
}
