# Bicycle-rack scraper: a verified model of its data-handling rules

The scraper (`scraper.py`, class `Scraper`) collects Singapore's public
bicycle-parking records in three steps:

1. `generate_equidistant_points` lays a 70 × 100 lattice of candidate points
   (latitudes `1.1607 + 0.005*i`, longitudes `103.6081 + 0.005*j`),
   enumerated latitude-major, and keeps those the country polygon contains.
2. `extract_bicycle_racks_data` requests the bicycle-parking endpoint once
   per retained point, strictly in order, collects each response's `value`
   array as a batch, and drops the empty batches.
3. `clean_bicycle_racks_data` builds one row per batch from the batch's
   *first* entry, copying `Description`, `Latitude`, `Longitude`,
   `RackType`, `RackCount` and `ShelterIndicator` unchanged (the nested
   `extract_field`), then removes rows whose `(lat, lon)` pair already
   appeared (`drop_duplicates`, first occurrence kept, order preserved).

The model keeps these rules and abstracts the libraries away:

- a lattice candidate is its index pair `(i, j)` (`GridSampler.Candidate`),
  not floating-point degrees;
- the polygon's `contains` is a parameter `inside: Candidate -> bool`;
- the HTTP request is a parameter `fetch: P -> Result<seq<E>, X>`; a
  `Failure` stands for the exception that aborts the whole collection: a
  transport error, a non-JSON body, or a JSON body without `value`; an HTTP
  error status by itself raises nothing, so an error response whose JSON body
  carries a `value` array is collected like any other;
- a raw entry is a JSON object `map<string, Value>`, where `Value` is an
  abstract type that only supports equality; a missing field is Python's
  `KeyError`, reported as a failure naming the field;
- pandas frames are sequences of `Record`s.

Modules: `Wrappers` (results), `Sequences` (order-preserving filter and
subsequences), `GridSampler`, `FacilityFetcher`, `FacilityNormalizer`, and
`Pipeline` (the three steps run one after another, as the script at the end
of `scraper.py` does).

Facts about `scraper.py` that the model keeps:

- `RackType`, `ShelterIndicator` and `Description` are copied unchanged;
  there is no step that rewrites or enriches any field;
- the lattice size (70 × 100), origin and step are literals in the code;
- an exception raised while collecting escapes the loop, so one failed
  request yields no batches at all.

## Model

| member | source | states |
|---|---|---|
| `GridSampler.RowsAt` | scraper.py:16-18 | entry `k` of the first `n` latitude rows is the candidate `(k / 100, k % 100)` |
| `GridSampler.LatticeShape` | scraper.py:16-18 | the lattice has exactly 70 × 100 = 7000 candidates and candidate `k` has latitude index `k / 100` and longitude index `k % 100` (latitude-major, longitude-minor) |
| `GridSampler.LatticeMembersAndOrder` | scraper.py:16-18 | a candidate is in the lattice iff both indices are in range, and lattice positions strictly increase, so each candidate occurs once |
| `GridSampler.GenerateEquidistantPoints` | scraper.py:13-30 | the retained points are exactly the in-range candidates the containment test accepts, in strictly increasing lattice position, a subsequence of the lattice, at most 7000 of them |
| `Sequences.Keep` | scraper.py:26-28 | boolean-mask selection keeps every element that passes the test as often as it occurs, nothing else, and never grows the sequence |
| `Sequences.KeepIsSubsequence` | scraper.py:26-28 | the selected elements keep their original relative order (the result is a subsequence) |
| `Sequences.KeepIdempotent` | scraper.py:26-28 | selecting twice with the same test is the same as selecting once |
| `FacilityFetcher.DropEmpty` | scraper.py:48 | the filter keeps exactly the non-empty batches with their multiplicities, in order; every output batch is non-empty and there are no more outputs than inputs |
| `FacilityFetcher.ExtractBicycleRacksData` | scraper.py:33-50 | if every request succeeds the result is the empty-batch filter applied to the list whose entry `k` is the response for point `k`; otherwise it fails with the error of the first failing point, all earlier points having succeeded |
| `FacilityNormalizer.ExtractField` | scraper.py:57-58 | succeeds iff every batch's first entry has the field; then value `k` is that field of batch `k`'s first entry; otherwise the failure names the field |
| `FacilityNormalizer.ExtractFieldFirstOnly` | scraper.py:57-58 | the column depends only on the batches' first entries |
| `FacilityNormalizer.ExtractColumns` | scraper.py:61-66 | succeeds iff every field is present in every first entry; on failure, the error names the first field in column order that some first entry lacks, all earlier fields being present |
| `FacilityNormalizer.ExtractColumnsFirstOnly` | scraper.py:61-66 | the columns depend only on the batches' first entries |
| `FacilityNormalizer.ProjectFirstEntries` | scraper.py:60-66 | succeeds iff all six fields are present in every first entry; then row `k` copies the six fields of batch `k`'s first entry unchanged and there is one row per batch; a failure names the first missing field in column order |
| `FacilityNormalizer.LaterEntriesIgnored` | scraper.py:57-66 | two batch lists that agree on every first entry give the same table or the same error: entries after the first are ignored |
| `FacilityNormalizer.DropDuplicatesFrom` | scraper.py:67 | the kept records have pairwise distinct `(lat, lon)` keys, disjoint from the keys already seen, and every other key of the input survives |
| `FacilityNormalizer.DropDuplicates` | scraper.py:67 | no two output records share a `(lat, lon)` pair, the set of pairs is the input's, and the output is no longer than the input |
| `FacilityNormalizer.DropDuplicatesMatchesReference` | scraper.py:67 | deduplication agrees on every input with the reference that drops a record exactly when an earlier record has the same key (pandas' `duplicated(keep='first')`) |
| `FacilityNormalizer.ReferenceKeepsOnlyFirstOccurrences` | scraper.py:67 | every record the reference keeps is the first record of the input with its key |
| `FacilityNormalizer.ReferenceKeepsAllFirstOccurrences` | scraper.py:67 | every first occurrence of a key is kept by the reference |
| `FacilityNormalizer.DropDuplicatesKeepsFirstOccurrences` | scraper.py:67 | every kept record is the first record of the input with its key, and every first occurrence is kept |
| `FacilityNormalizer.DropDuplicatesFromIsSubsequence` | scraper.py:67 | deduplication only deletes records, so relative order is preserved |
| `FacilityNormalizer.DropDuplicatesFromDistinct` | scraper.py:67 | records whose keys are already distinct and unseen pass through unchanged |
| `FacilityNormalizer.DropDuplicatesIdempotent` | scraper.py:67 | deduplicating its own output changes nothing |
| `FacilityNormalizer.DeduplicatedRecordsCopyEntries` | scraper.py:57-67 | every record left after deduplication copies the first entry of some batch |
| `FacilityNormalizer.DeduplicatedKeysCover` | scraper.py:57-67 | the `(lat, lon)` pair of every batch's first entry is still present after deduplication |
| `FacilityNormalizer.DeduplicatedKeepsFirstBatch` | scraper.py:57-67 | the row of the first batch with a given `(lat, lon)` pair survives deduplication |
| `FacilityNormalizer.CleanBicycleRacksData` | scraper.py:54-68 | fails exactly when a field is missing from a first entry, with the projection's error; on success the result is the deduplicated first-entry table, has distinct `(lat, lon)` keys, at most one record per batch, every record copies some batch's first entry, every batch's pair is present, and the first batch with each pair contributes its record |
| `Pipeline.FilteredBatchesHaveFirstEntries` | scraper.py:48-58 | the empty-batch filter establishes that every batch has a first entry, which `extract_field` needs |
| `Pipeline.FilteredBatchOrigin` | scraper.py:35-48 | every batch that survives the filter is non-empty and is the response for one of the input points |
| `Pipeline.Scrape` | scraper.py:71-73 | a run fails with a request error iff some retained point's request fails, and with a missing-field error (the same field) iff cleaning the filtered responses fails; on success it returns exactly the cleaned table of the filtered responses, the records have distinct `(lat, lon)` pairs and each copies the first entry of the response for an accepted lattice point |

## Left out

- Floating-point degrees (`103.6081 + x*0.005`, `1.1607 + x*0.005`): candidates are index pairs, so rounding of the coordinates is not modelled.
- Reading and parsing the GeoJSON boundary file and navigating its nested structure: file I/O; the polygon appears only through the `inside` parameter.
- shapely's `Polygon`, `Point` and `contains`: a foreign geometry library whose edge behaviour on the boundary is its own; `inside` is uninterpreted.
- The HTTP request, the account-key header, JSON decoding and the `print` of each response: network I/O and console output, replaced by the `fetch` parameter. That no request is issued after the first failing one is not expressible with a pure `fetch`; the model states only that every earlier request succeeded.
- pandas frame construction, `reset_index` and `drop(columns=...)`: frames are sequences of records; the extra `coords` and `point_in_sg` columns of the sampling frame are not modelled, and neither are the index labels `drop_duplicates` leaves on the surviving rows of the cleaned table (it does not renumber them, so that index has gaps).
- Value equality in `drop_duplicates` is abstract: pandas' treatment of floating-point values (for example, NaN keys compared equal) is not modelled.
- The script at the bottom of `scraper.py` with its hard-coded account key and boundary-file name: wiring only; `Pipeline.Scrape` models the order of its three calls.
