/**
 The older fetcher of `src/main.rs`: the query always has four pairs, the
 first being the approval filter or an empty pair, and the pages' records
 are kept whole (`id` and `url`) rather than reduced to their URLs. Its
 `get_link_header` is the same code as in `src/api.rs` and is modelled by
 `LinkHeader.GetLinkHeader`.
 */
module LegacyMain {
  import opened Wrappers
  import opened Pagination
  import Api

  /** One decoded catalog record with both fields kept. */
  datatype Thing = Thing(id: string, url: string)

  /** The empty pair sent in place of the filter when all levels are wanted. */
  const EmptyPair: (string, string) := ("", "")

  /**
   The first request's query pairs: always four, led by the approval filter
   or by the empty pair, followed by the three fixed pairs.
   */
  function Queries(verifiedOnly: bool): (q: seq<(string, string)>)
    ensures |q| == 4
    ensures q[0] == if verifiedOnly then Api.VerifiedFilter else EmptyPair
    ensures q[1..] == Api.BaseQuery
  {
    [if verifiedOnly then Api.VerifiedFilter else EmptyPair] + Api.BaseQuery
  }

  /** Both versions send the same pairs when filtering, only in another order. */
  lemma QueriesAgreeWhenVerified()
    ensures multiset(Queries(true)) == multiset(Api.Queries(true))
    ensures Queries(false)[1..] == Api.Queries(false)
  {
    assert Queries(true) == [Api.VerifiedFilter] + Api.BaseQuery;
    assert Api.Queries(true) == Api.BaseQuery + [Api.VerifiedFilter];
  }

  /**
   `Vec<Thing>` from a page's elements: every element needs both a string
   `id` and a string `url`.
   */
  function DecodeThings(records: seq<Api.Record>): (r: Option<seq<Thing>>)
    ensures r.Some? <==> forall i :: 0 <= i < |records| ==> records[i].id.Some? && records[i].url.Some?
    ensures r.Some? ==> |r.value| == |records|
    ensures r.Some? ==> forall i :: 0 <= i < |records| ==>
      r.value[i] == Thing(records[i].id.value, records[i].url.value)
  {
    if records == [] then Some([])
    else if records[0].id.None? || records[0].url.None? then None
    else
      var rest := DecodeThings(records[1..]);
      assert forall i :: 1 <= i < |records| ==> records[i] == records[1..][i - 1];
      if rest.None? then None
      else Some([Thing(records[0].id.value, records[0].url.value)] + rest.value)
  }

  /** `response.json::<Vec<Thing>>()`: the records, or a decode error. */
  function ReadThings(body: Option<seq<Api.Record>>): (r: Result<seq<Thing>, FetchError>)
    ensures r.Ok? <==> body.Some? && forall i :: 0 <= i < |body.value| ==>
      body.value[i].id.Some? && body.value[i].url.Some?
    ensures r.Err? ==> r.error == DecodeError
    ensures r.Ok? ==> |r.value| == |body.value|
    ensures r.Ok? ==> forall i :: 0 <= i < |body.value| ==>
      r.value[i] == Thing(body.value[i].id.value, body.value[i].url.value)
  {
    match body
    case None => Err(DecodeError)
    case Some(records) =>
      match DecodeThings(records)
      case None => Err(DecodeError)
      case Some(things) => Ok(things)
  }

  /** `get_urls` of `src/main.rs`: the same walk, gathering whole records. */
  function GetUrls(verifiedOnly: bool, pages: seq<Reply<Api.Record>>): (r: Crawl<Thing>)
    ensures 1 <= |r.requests|
    ensures r.requests[0] == Request(Api.Endpoint, Queries(verifiedOnly))
    ensures forall j :: 1 <= j < |r.requests| ==> r.requests[j].query == []
    ensures r.result.Ok? ==> CompleteWalk(pages, |r.requests|, ReadThings)
    ensures r.result.Ok? ==> r.result.value == Gathered(pages, |r.requests|, ReadThings)
  {
    var r := Follow(pages, Request(Api.Endpoint, Queries(verifiedOnly)), ReadThings);
    FollowUpsHaveNoQuery(pages, r.requests, ReadThings);
    r
  }

  /** The records a `Thing` page decodes to when only `url` is read. */
  function AsSiteData(things: seq<Thing>): (r: seq<Api.SiteData>)
    ensures |r| == |things|
    ensures forall i :: 0 <= i < |things| ==> r[i].url == things[i].url
  {
    if things == [] then [] else [Api.SiteData(things[0].url)] + AsSiteData(things[1..])
  }

  /** The URLs of a result of whole records. */
  function ResultUrls(r: Result<seq<Thing>, FetchError>): Result<seq<string>, FetchError> {
    match r
    case Err(e) => Err(e)
    case Ok(things) => Ok(Api.Urls(AsSiteData(things)))
  }

  /** Every element of the body, if it is an array, carries a string `id`. */
  predicate IdsPresent(body: Option<seq<Api.Record>>) {
    body.Some? ==> forall i :: 0 <= i < |body.value| ==> body.value[i].id.Some?
  }

  /** Every delivered page of the script has an `id` on each element. */
  predicate AllIdsPresent(pages: seq<Reply<Api.Record>>) {
    forall j :: 0 <= j < |pages| ==> pages[j].Delivered? ==> IdsPresent(pages[j].body)
  }

  /**
   The two decoders on one page: whatever the older one accepts, the newer
   one accepts with the same URLs; when every element has an `id`, they
   succeed and fail together.
   */
  lemma ReadersAgree(body: Option<seq<Api.Record>>)
    ensures ReadThings(body).Ok? ==> Api.GetData(body) == ResultUrls(ReadThings(body))
    ensures IdsPresent(body) ==> Api.GetData(body) == ResultUrls(ReadThings(body))
  {
    var older := ReadThings(body);
    var newer := Api.GetData(body);
    if older.Ok? {
      assert newer.Ok?;
      var l := Api.Urls(AsSiteData(older.value));
      assert |l| == |newer.value|;
      assert forall i :: 0 <= i < |l| ==> l[i] == newer.value[i];
      assert l == newer.value;
    }
  }

  /** Taking the URLs of a concatenation of records. */
  lemma UrlsAppend(a: seq<Thing>, b: seq<Thing>)
    ensures Api.Urls(AsSiteData(a + b)) == Api.Urls(AsSiteData(a)) + Api.Urls(AsSiteData(b))
  {
    var l := Api.Urls(AsSiteData(a + b));
    var r := Api.Urls(AsSiteData(a)) + Api.Urls(AsSiteData(b));
    assert |l| == |r|;
    forall i | 0 <= i < |l|
      ensures l[i] == r[i]
    {
      if i < |a| {
        assert (a + b)[i] == a[i];
      } else {
        assert (a + b)[i] == b[i - |a|];
      }
    }
  }

  /**
   Against the same replies, the two versions of the walk agree whenever
   the older one succeeds: its records reduced to their URLs are the newer
   one's result. When every element of every page has an `id`, they agree
   outright, failures included.
   */
  lemma {:induction false} FollowAgrees(pages: seq<Reply<Api.Record>>, req: Request, req': Request)
    ensures Follow(pages, req, ReadThings).result.Ok? ==>
      Follow(pages, req', Api.GetData).result == ResultUrls(Follow(pages, req, ReadThings).result)
    ensures AllIdsPresent(pages) ==>
      Follow(pages, req', Api.GetData).result == ResultUrls(Follow(pages, req, ReadThings).result)
    decreases |pages|
  {
    if pages != [] && pages[0].Delivered? {
      ReadersAgree(pages[0].body);
      var next := Continuation(pages[0]);
      var first := ReadThings(pages[0].body);
      if next.Some? && first.Ok? {
        var req1 := Request(next.value, []);
        assert AllIdsPresent(pages) ==> AllIdsPresent(pages[1..]) by {
          assert forall j :: 0 <= j < |pages| - 1 ==> pages[1..][j] == pages[j + 1];
        }
        FollowAgrees(pages[1..], req1, req1);
        var rest := Follow(pages[1..], req1, ReadThings).result;
        if rest.Ok? {
          UrlsAppend(first.value, rest.value);
        }
      }
    }
  }

  /**
   Elements without an `id` split the versions: such a page is a decode
   error for the older `get_urls` and a list of URLs for the newer one.
   */
  lemma IdlessPageSplits(verifiedOnly: bool)
    ensures Api.GetUrls(verifiedOnly, [Delivered(None, Some([Api.Record(None, Some("u"))]))]).result == Ok(["u"])
    ensures GetUrls(verifiedOnly, [Delivered(None, Some([Api.Record(None, Some("u"))]))]).result == Err(DecodeError)
  {
    var page: Reply<Api.Record> := Delivered(None, Some([Api.Record(None, Some("u"))]));
    assert Continuation(page).None?;
    var urls := Api.GetData(page.body);
    assert urls.Ok?;
    assert |urls.value| == 1 && urls.value[0] == "u";
    assert urls.value == ["u"];
    assert ReadThings(page.body) == Err(DecodeError);
  }

  /**
   With the same filter flag, the newer `get_urls` returns the URLs of the
   older one's records whenever the older one succeeds, and exactly its
   result when every element carries an `id`.
   */
  lemma GetUrlsAgree(verifiedOnly: bool, pages: seq<Reply<Api.Record>>)
    ensures GetUrls(verifiedOnly, pages).result.Ok? ==>
      Api.GetUrls(verifiedOnly, pages).result == ResultUrls(GetUrls(verifiedOnly, pages).result)
    ensures AllIdsPresent(pages) ==>
      Api.GetUrls(verifiedOnly, pages).result == ResultUrls(GetUrls(verifiedOnly, pages).result)
  {
    FollowAgrees(pages, Request(Api.Endpoint, Queries(verifiedOnly)), Request(Api.Endpoint, Api.Queries(verifiedOnly)));
  }
}
