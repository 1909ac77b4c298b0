/**
 * `Scraper.extract_bicycle_racks_data`: one request to the bicycle-parking
 * endpoint per sample point, strictly in point order, collecting each
 * response's `value` array as a batch, then dropping the empty batches.
 * The request is the parameter `fetch`; a failure it reports (a transport
 * error, a non-JSON body, or a JSON body without `value`) is the exception
 * that aborts the whole collection. An HTTP error status by itself raises
 * nothing: its body's `value` array, if present, is collected as a batch.
 */
module FacilityFetcher {
  import opened Wrappers
  import opened Sequences

  /** Every point's request succeeds. */
  predicate AllSucceed<P, E, X>(points: seq<P>, fetch: P -> Result<seq<E>, X>) {
    forall k :: 0 <= k < |points| ==> fetch(points[k]).Success?
  }

  /** The batches before filtering: batch `k` is the response for point `k`. */
  function Responses<P, E, X>(points: seq<P>, fetch: P -> Result<seq<E>, X>): seq<seq<E>>
    requires AllSucceed(points, fetch)
  {
    seq(|points|, k requires 0 <= k < |points| => fetch(points[k]).value)
  }

  /** The empty-batch filter: the non-empty batches, in order. */
  function DropEmpty<E>(batches: seq<seq<E>>): (r: seq<seq<E>>)
    ensures |r| <= |batches|
    ensures forall k :: 0 <= k < |r| ==> r[k] != []
    ensures forall b :: b in batches ==> multiset(r)[b] == if b == [] then 0 else multiset(batches)[b]
    ensures IsSubsequence(r, batches)
  {
    var r := Keep(batches, (b: seq<E>) => b != []);
    KeepIsSubsequence(batches, (b: seq<E>) => b != []);
    assert forall k :: 0 <= k < |r| ==> r[k] in r;
    r
  }

  /**
   * The collection loop and the filter. On success the result is the
   * filtered list of per-point responses; otherwise it is the error of the
   * first point whose request failed, and no later point was requested.
   */
  method ExtractBicycleRacksData<P, E, X>(points: seq<P>, fetch: P -> Result<seq<E>, X>)
    returns (r: Result<seq<seq<E>>, X>)
    ensures r.Success? <==> AllSucceed(points, fetch)
    ensures r.Success? ==> r.value == DropEmpty(Responses(points, fetch))
    ensures r.Failure? ==>
      exists k :: 0 <= k < |points| && fetch(points[k]) == Failure(r.error) &&
        forall m :: 0 <= m < k ==> fetch(points[m]).Success?
  {
    var allData: seq<seq<E>> := [];
    var i := 0;
    while i < |points|
      invariant 0 <= i <= |points|
      invariant forall m :: 0 <= m < i ==> fetch(points[m]).Success?
      invariant |allData| == i
      invariant forall m :: 0 <= m < i ==> allData[m] == fetch(points[m]).value
    {
      var response := fetch(points[i]);
      if response.Failure? {
        return Failure(response.error);
      }
      allData := allData + [response.value];
      i := i + 1;
    }
    assert allData == Responses(points, fetch);
    return Success(DropEmpty(allData));
  }
}
