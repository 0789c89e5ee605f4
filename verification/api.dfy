/**
 The catalog fetcher of `src/api.rs`: the first request carries the fixed
 query (plus the approval filter when only verified levels are wanted), each
 page is decoded into records with a `url` field, and the pages' URLs are
 appended in page order.
 */
module Api {
  import opened Wrappers
  import opened Pagination

  /** The catalog endpoint every walk starts from. */
  const Endpoint: string := "https://api.rhythm.cafe/datasette/combined/levels.json"

  /** The query every first request carries: flat array, `url` column only, largest page. */
  const BaseQuery: seq<(string, string)> := [("_shape", "array"), ("_col", "url"), ("_size", "max")]

  /** The filter that keeps only levels with at least one approval. */
  const VerifiedFilter: (string, string) := ("approval__gt", "0")

  /**
   The first request's query pairs: the three fixed pairs first, then the
   approval filter exactly when only verified levels are wanted.
   */
  function Queries(verifiedOnly: bool): (q: seq<(string, string)>)
    ensures |q| == if verifiedOnly then 4 else 3
    ensures q[..3] == BaseQuery
    ensures VerifiedFilter in q <==> verifiedOnly
  {
    BaseQuery + if verifiedOnly then [VerifiedFilter] else []
  }

  /**
   One element of a page's JSON array, a JSON object, as the decoders see
   it: its `id` and `url` fields, each present as a string or not (missing,
   `null` or of another JSON type). Any other field is ignored by both
   decoders.
   */
  datatype Record = Record(id: Option<string>, url: Option<string>)

  /** One decoded catalog record; only its `url` is read. */
  datatype SiteData = SiteData(url: string)

  /**
   `Vec<SiteData>` from a page's elements: every element needs a string
   `url`, and its other fields do not matter.
   */
  function DecodeSiteData(records: seq<Record>): (r: Option<seq<SiteData>>)
    ensures r.Some? <==> forall i :: 0 <= i < |records| ==> records[i].url.Some?
    ensures r.Some? ==> |r.value| == |records|
    ensures r.Some? ==> forall i :: 0 <= i < |records| ==> r.value[i] == SiteData(records[i].url.value)
  {
    if records == [] then Some([])
    else if records[0].url.None? then None
    else
      var rest := DecodeSiteData(records[1..]);
      assert forall i :: 1 <= i < |records| ==> records[i] == records[1..][i - 1];
      if rest.None? then None
      else Some([SiteData(records[0].url.value)] + rest.value)
  }

  /** The `url` field of each record, in order. */
  function Urls(records: seq<SiteData>): (r: seq<string>)
    ensures |r| == |records|
    ensures forall i :: 0 <= i < |records| ==> r[i] == records[i].url
  {
    if records == [] then [] else [records[0].url] + Urls(records[1..])
  }

  /**
   `get_data`: decodes a page body and keeps each record's URL, in order. A
   body that is no JSON array, or an element without a string `url`, is a
   decode error.
   */
  function GetData(body: Option<seq<Record>>): (r: Result<seq<string>, FetchError>)
    ensures r.Ok? <==> body.Some? && forall i :: 0 <= i < |body.value| ==> body.value[i].url.Some?
    ensures r.Err? ==> r.error == DecodeError
    ensures r.Ok? ==> |r.value| == |body.value|
    ensures r.Ok? ==> forall i :: 0 <= i < |body.value| ==> r.value[i] == body.value[i].url.value
  {
    match body
    case None => Err(DecodeError)
    case Some(records) =>
      match DecodeSiteData(records)
      case None => Err(DecodeError)
      case Some(data) => Ok(Urls(data))
  }

  /**
   `get_urls`: the first request goes to the endpoint with `Queries`; every
   later request goes to the previous page's link with no added query.
   */
  function GetUrls(verifiedOnly: bool, pages: seq<Reply<Record>>): (r: Crawl<string>)
    ensures 1 <= |r.requests|
    ensures r.requests[0] == Request(Endpoint, Queries(verifiedOnly))
    ensures forall j :: 1 <= j < |r.requests| ==> r.requests[j].query == []
    ensures r.result.Ok? ==> CompleteWalk(pages, |r.requests|, GetData)
    ensures r.result.Ok? ==> r.result.value == Gathered(pages, |r.requests|, GetData)
  {
    var r := Follow(pages, Request(Endpoint, Queries(verifiedOnly)), GetData);
    FollowUpsHaveNoQuery(pages, r.requests, GetData);
    r
  }

  /**
   For every server whose replies form a complete walk of `n` pages, the
   fetch makes `n` requests and returns all URLs of those pages in page
   order; this holds for any `n`, including a single empty page.
   */
  lemma GetUrlsComplete(verifiedOnly: bool, pages: seq<Reply<Record>>, n: nat)
    requires CompleteWalk(pages, n, GetData)
    ensures |GetUrls(verifiedOnly, pages).requests| == n
    ensures GetUrls(verifiedOnly, pages).result == Ok(Gathered(pages, n, GetData))
  {
    FollowComplete(pages, Request(Endpoint, Queries(verifiedOnly)), n, GetData);
  }

  /** A failed fetch of any page the walk reaches makes the whole call fail. */
  lemma GetUrlsFailure(verifiedOnly: bool, pages: seq<Reply<Record>>, k: nat)
    requires AllReadable(pages, k, GetData)
    requires forall j :: 0 <= j < k ==> Continuation(pages[j]).Some?
    requires k >= |pages| || !Readable(pages[k], GetData)
    ensures GetUrls(verifiedOnly, pages).result.Err?
  {
  }
}
