/**
 * The three stages run one after another, as the module-level script does:
 * sample the lattice, fetch one batch per retained point, clean the batches.
 * The account key and the boundary file are not modelled; the polygon test
 * and the request are parameters.
 */
module Pipeline {
  import opened Wrappers
  import opened Sequences
  import opened GridSampler
  import opened FacilityFetcher
  import opened FacilityNormalizer

  /** Why a run produced no table: a request failed, or a first entry lacked a field. */
  datatype ScrapeError<X> = FetchFailed(cause: X) | MissingField(field: string)

  /** The empty-batch filter establishes exactly what `extract_field` needs: every batch has a first entry. */
  lemma FilteredBatchesHaveFirstEntries(batches: seq<Batch>)
    ensures AllNonEmpty(DropEmpty(batches))
  {
  }

  /** A batch that survives the filter is the non-empty response for one of the points. */
  lemma FilteredBatchOrigin<P, E, X>(points: seq<P>, fetch: P -> Result<seq<E>, X>, b: seq<E>)
    requires AllSucceed(points, fetch)
    requires b in DropEmpty(Responses(points, fetch))
    ensures b != [] && exists k :: 0 <= k < |points| && fetch(points[k]) == Success(b)
  {
    var responses := Responses(points, fetch);
    SubsequenceMembers(DropEmpty(responses), responses);
    var k :| 0 <= k < |responses| && responses[k] == b;
  }

  /**
   * The whole run. It fails with a request error iff some retained point's
   * request fails, and with a missing-field error iff cleaning the filtered
   * responses does; otherwise it returns that cleaned table, in which no two
   * records share a (lat, lon) pair and every record copies the first entry
   * of the response for some lattice point inside the boundary.
   */
  method Scrape<X>(inside: Candidate -> bool, fetch: Candidate -> Result<Batch, X>)
    returns (r: Result<seq<Record>, ScrapeError<X>>)
    ensures r.Failure? && r.error.FetchFailed? <==> !AllSucceed(GenerateEquidistantPoints(inside), fetch)
    ensures r.Success? ==>
      AllSucceed(GenerateEquidistantPoints(inside), fetch) &&
      CleanBicycleRacksData(DropEmpty(Responses(GenerateEquidistantPoints(inside), fetch))) == Success(r.value)
    ensures r.Failure? && r.error.MissingField? <==>
      AllSucceed(GenerateEquidistantPoints(inside), fetch) &&
      CleanBicycleRacksData(DropEmpty(Responses(GenerateEquidistantPoints(inside), fetch))).Failure?
    ensures r.Failure? && r.error.MissingField? ==>
      CleanBicycleRacksData(DropEmpty(Responses(GenerateEquidistantPoints(inside), fetch))) == Failure(r.error.field)
    ensures r.Success? ==> DistinctKeys(r.value)
    ensures r.Success? ==>
      forall rec :: rec in r.value ==>
        exists c :: InLattice(c) && inside(c) && fetch(c).Success? && fetch(c).value != [] &&
          CopiesEntry(rec, fetch(c).value[0])
  {
    var points := GenerateEquidistantPoints(inside);
    var fetched := ExtractBicycleRacksData(points, fetch);
    if fetched.Failure? {
      return Failure(FetchFailed(fetched.error));
    }
    var batches := fetched.value;
    FilteredBatchesHaveFirstEntries(Responses(points, fetch));
    var cleaned := CleanBicycleRacksData(batches);
    if cleaned.Failure? {
      return Failure(MissingField(cleaned.error));
    }
    forall rec | rec in cleaned.value
      ensures exists c ::
                InLattice(c) && inside(c) && fetch(c).Success? && fetch(c).value != [] &&
                CopiesEntry(rec, fetch(c).value[0])
    {
      var k :| 0 <= k < |batches| && CopiesEntry(rec, batches[k][0]);
      assert batches[k] in batches;
      FilteredBatchOrigin(points, fetch, batches[k]);
      var n :| 0 <= n < |points| && fetch(points[n]) == Success(batches[k]);
      assert points[n] in points;
    }
    return Success(cleaned.value);
  }
}
