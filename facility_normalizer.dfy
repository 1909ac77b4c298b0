/**
 * `Scraper.clean_bicycle_racks_data`: one record per batch, built from the
 * batch's first entry by copying six fields, followed by pandas'
 * `drop_duplicates(subset=['lat', 'lon'])`, which keeps the first record of
 * every (latitude, longitude) pair and preserves order.
 */
module FacilityNormalizer {
  import opened Wrappers
  import opened Sequences

  /** A JSON scalar of a response entry; the model only compares values for equality. */
  type Value(==)

  /** One raw facility entry: a JSON object from field name to value. */
  type Entry = map<string, Value>

  /** The entries one request returned. */
  type Batch = seq<Entry>

  /** A row of the cleaned table: columns desc, lat, lon, rack_type, rack_count, shelter. */
  datatype Record = Record(desc: Value, lat: Value, lon: Value, rackType: Value, rackCount: Value, shelter: Value)

  /** The response fields copied into the six columns, in the order the columns are filled. */
  const Fields: seq<string> := ["Description", "Latitude", "Longitude", "RackType", "RackCount", "ShelterIndicator"]

  /** `x[0]` is defined for every batch. */
  predicate AllNonEmpty(batches: seq<Batch>) {
    forall k :: 0 <= k < |batches| ==> batches[k] != []
  }

  /** The first entry of every batch has `field`. */
  predicate FirstEntriesHave(batches: seq<Batch>, field: string)
    requires AllNonEmpty(batches)
  {
    forall k :: 0 <= k < |batches| ==> field in batches[k][0]
  }

  /** `rec` holds the six fields of entry `e`, unchanged. */
  predicate CopiesEntry(rec: Record, e: Entry) {
    && "Description" in e && rec.desc == e["Description"]
    && "Latitude" in e && rec.lat == e["Latitude"]
    && "Longitude" in e && rec.lon == e["Longitude"]
    && "RackType" in e && rec.rackType == e["RackType"]
    && "RackCount" in e && rec.rackCount == e["RackCount"]
    && "ShelterIndicator" in e && rec.shelter == e["ShelterIndicator"]
  }

  /**
   * The nested `extract_field`: the value of `field` in the first entry of
   * each batch, or a failure naming `field` (Python's KeyError) when some
   * first entry lacks it.
   */
  function ExtractField(field: string, batches: seq<Batch>): (r: Result<seq<Value>, string>)
    requires AllNonEmpty(batches)
    ensures r.Success? <==> FirstEntriesHave(batches, field)
    ensures r.Success? ==>
      |r.value| == |batches| && forall k :: 0 <= k < |batches| ==> r.value[k] == batches[k][0][field]
    ensures r.Failure? ==> r.error == field
  {
    if batches == [] then Success([])
    else if field !in batches[0][0] then Failure(field)
    else
      var rest :- ExtractField(field, batches[1..]);
      Success([batches[0][0][field]] + rest)
  }

  /**
   * The columns for `fields`, extracted one after another; the first field
   * in that order that some first entry lacks stops the extraction.
   */
  function ExtractColumns(fields: seq<string>, batches: seq<Batch>): (r: Result<seq<seq<Value>>, string>)
    requires AllNonEmpty(batches)
    ensures r.Success? <==> forall n :: 0 <= n < |fields| ==> FirstEntriesHave(batches, fields[n])
    ensures r.Success? ==>
      |r.value| == |fields| &&
      forall n :: 0 <= n < |fields| ==>
        |r.value[n]| == |batches| && forall k :: 0 <= k < |batches| ==> r.value[n][k] == batches[k][0][fields[n]]
    ensures r.Failure? ==>
      exists n :: 0 <= n < |fields| && r.error == fields[n] && !FirstEntriesHave(batches, fields[n]) &&
        forall m :: 0 <= m < n ==> FirstEntriesHave(batches, fields[m])
  {
    if fields == [] then Success([])
    else
      var column :- ExtractField(fields[0], batches);
      var rest := ExtractColumns(fields[1..], batches);
      if rest.Failure? then
        var n :| 0 <= n < |fields[1..]| && rest.error == fields[1..][n] && !FirstEntriesHave(batches, fields[1..][n]) &&
          forall m :: 0 <= m < n ==> FirstEntriesHave(batches, fields[1..][m]);
        assert forall m :: 0 <= m < n + 1 ==> FirstEntriesHave(batches, fields[m]) by {
          forall m | 0 <= m < n + 1 ensures FirstEntriesHave(batches, fields[m]) {
            if m > 0 {
              assert fields[m] == fields[1..][m - 1];
            }
          }
        }
        Failure(rest.error)
      else
        Success([column] + rest.value)
  }

  /**
   * The table before deduplication: record `k` copies the six fields of the
   * first entry of batch `k`. Columns are filled in `Fields` order, so a
   * failure names the first field in that order that some first entry lacks.
   */
  function ProjectFirstEntries(batches: seq<Batch>): (r: Result<seq<Record>, string>)
    requires AllNonEmpty(batches)
    ensures r.Success? <==> forall n :: 0 <= n < |Fields| ==> FirstEntriesHave(batches, Fields[n])
    ensures r.Success? ==>
      |r.value| == |batches| && forall k :: 0 <= k < |batches| ==> CopiesEntry(r.value[k], batches[k][0])
    ensures r.Failure? ==>
      exists n :: 0 <= n < |Fields| && r.error == Fields[n] && !FirstEntriesHave(batches, Fields[n]) &&
        forall m :: 0 <= m < n ==> FirstEntriesHave(batches, Fields[m])
  {
    var c :- ExtractColumns(Fields, batches);
    Success(seq(|batches|, k requires 0 <= k < |batches| => Record(c[0][k], c[1][k], c[2][k], c[3][k], c[4][k], c[5][k])))
  }

  /** Only the first entry of each batch matters: later entries never reach a column. */
  lemma {:induction false} ExtractFieldFirstOnly(field: string, a: seq<Batch>, b: seq<Batch>)
    requires AllNonEmpty(a) && AllNonEmpty(b)
    requires |a| == |b| && forall k :: 0 <= k < |a| ==> a[k][0] == b[k][0]
    ensures ExtractField(field, a) == ExtractField(field, b)
  {
    if a != [] {
      ExtractFieldFirstOnly(field, a[1..], b[1..]);
    }
  }

  lemma {:induction false} ExtractColumnsFirstOnly(fields: seq<string>, a: seq<Batch>, b: seq<Batch>)
    requires AllNonEmpty(a) && AllNonEmpty(b)
    requires |a| == |b| && forall k :: 0 <= k < |a| ==> a[k][0] == b[k][0]
    ensures ExtractColumns(fields, a) == ExtractColumns(fields, b)
  {
    if fields != [] {
      ExtractFieldFirstOnly(fields[0], a, b);
      ExtractColumnsFirstOnly(fields[1..], a, b);
    }
  }

  /** Two lists of batches that agree on every first entry produce the same table (or the same error). */
  lemma LaterEntriesIgnored(a: seq<Batch>, b: seq<Batch>)
    requires AllNonEmpty(a) && AllNonEmpty(b)
    requires |a| == |b| && forall k :: 0 <= k < |a| ==> a[k][0] == b[k][0]
    ensures ProjectFirstEntries(a) == ProjectFirstEntries(b)
  {
    ExtractColumnsFirstOnly(Fields, a, b);
  }

  /** The deduplication key: the (lat, lon) pair. */
  function Key(rec: Record): (Value, Value) {
    (rec.lat, rec.lon)
  }

  function KeysOf(s: seq<Record>): set<(Value, Value)> {
    set rec | rec in s :: Key(rec)
  }

  lemma KeysOfConcat(a: seq<Record>, b: seq<Record>)
    ensures KeysOf(a + b) == KeysOf(a) + KeysOf(b)
  {
  }

  /** No two records share a (lat, lon) pair. */
  predicate DistinctKeys(s: seq<Record>) {
    forall a, b :: 0 <= a < b < |s| ==> Key(s[a]) != Key(s[b])
  }

  /**
   * Stable deduplication, front to back: a record is kept unless its key is
   * in `seen` (the keys of the records already kept).
   */
  function DropDuplicatesFrom(s: seq<Record>, seen: set<(Value, Value)>): (r: seq<Record>)
    ensures |r| <= |s|
    ensures DistinctKeys(r)
    ensures KeysOf(r) == KeysOf(s) - seen
  {
    if s == [] then []
    else
      assert s == [s[0]] + s[1..];
      if Key(s[0]) in seen then DropDuplicatesFrom(s[1..], seen)
      else
        var rest := DropDuplicatesFrom(s[1..], seen + {Key(s[0])});
        assert forall b :: 0 <= b < |rest| ==> Key(rest[b]) in KeysOf(rest);
        KeysOfConcat([s[0]], rest);
        KeysOfConcat([s[0]], s[1..]);
        [s[0]] + rest
  }

  /** `drop_duplicates(subset=['lat', 'lon'])`. */
  function DropDuplicates(s: seq<Record>): (r: seq<Record>)
    ensures |r| <= |s|
    ensures DistinctKeys(r)
    ensures KeysOf(r) == KeysOf(s)
  {
    DropDuplicatesFrom(s, {})
  }

  /**
   * Reference definition, as pandas computes it with `duplicated(keep='first')`:
   * a record is dropped exactly when an earlier record has the same key.
   */
  function KeepFirstOccurrences(s: seq<Record>): seq<Record> {
    if s == [] then []
    else
      var init, last := s[..|s| - 1], s[|s| - 1];
      if Key(last) in KeysOf(init) then KeepFirstOccurrences(init) else KeepFirstOccurrences(init) + [last]
  }

  lemma {:induction false} DropDuplicatesFromSnoc(s: seq<Record>, x: Record, seen: set<(Value, Value)>)
    ensures DropDuplicatesFrom(s + [x], seen) ==
      DropDuplicatesFrom(s, seen) + (if Key(x) in seen + KeysOf(s) then [] else [x])
    decreases |s|
  {
    if s == [] {
      assert [x][1..] == [];
    } else {
      assert (s + [x])[0] == s[0] && (s + [x])[1..] == s[1..] + [x];
      assert KeysOf(s) == {Key(s[0])} + KeysOf(s[1..]) by {
        assert s == [s[0]] + s[1..];
      }
      if Key(s[0]) in seen {
        DropDuplicatesFromSnoc(s[1..], x, seen);
      } else {
        DropDuplicatesFromSnoc(s[1..], x, seen + {Key(s[0])});
      }
    }
  }

  /** The front-to-back deduplication agrees with the reference on every input. */
  lemma {:induction false} DropDuplicatesMatchesReference(s: seq<Record>)
    ensures DropDuplicates(s) == KeepFirstOccurrences(s)
    decreases |s|
  {
    if s != [] {
      var init, last := s[..|s| - 1], s[|s| - 1];
      assert s == init + [last];
      DropDuplicatesMatchesReference(init);
      DropDuplicatesFromSnoc(init, last, {});
    }
  }

  /** Record `k` of `s` is the first one with its key. */
  predicate IsFirstOccurrence(s: seq<Record>, k: int)
    requires 0 <= k < |s|
  {
    Key(s[k]) !in KeysOf(s[..k])
  }

  /** `x` is the first record of `s` with its key. */
  ghost predicate FirstOccurrenceIn(s: seq<Record>, x: Record) {
    exists k :: 0 <= k < |s| && x == s[k] && IsFirstOccurrence(s, k)
  }

  lemma {:induction false} ReferenceKeepsOnlyFirstOccurrences(s: seq<Record>)
    ensures forall m :: 0 <= m < |KeepFirstOccurrences(s)| ==> FirstOccurrenceIn(s, KeepFirstOccurrences(s)[m])
    decreases |s|
  {
    if s == [] {
      assert KeepFirstOccurrences(s) == [];
    } else {
      var init, last := s[..|s| - 1], s[|s| - 1];
      assert s[..|s| - 1] == init;
      ReferenceKeepsOnlyFirstOccurrences(init);
      var r, r0 := KeepFirstOccurrences(s), KeepFirstOccurrences(init);
      forall x | x in r0 ensures FirstOccurrenceIn(s, x) {
        var m :| 0 <= m < |r0| && r0[m] == x;
        assert FirstOccurrenceIn(init, r0[m]);
        var k :| 0 <= k < |init| && x == init[k] && IsFirstOccurrence(init, k);
        assert s[..k] == init[..k] && init[k] == s[k];
        assert IsFirstOccurrence(s, k);
      }
      if Key(last) in KeysOf(init) {
        assert r == r0;
      } else {
        assert r == r0 + [last];
        assert IsFirstOccurrence(s, |s| - 1);
        assert FirstOccurrenceIn(s, last);
      }
      assert forall m :: 0 <= m < |r| ==> r[m] in r0 || r[m] == last;
    }
  }

  lemma {:induction false} ReferenceKeepsAllFirstOccurrences(s: seq<Record>)
    ensures forall k :: 0 <= k < |s| && IsFirstOccurrence(s, k) ==> s[k] in KeepFirstOccurrences(s)
    decreases |s|
  {
    if s != [] {
      var init, last := s[..|s| - 1], s[|s| - 1];
      ReferenceKeepsAllFirstOccurrences(init);
      forall k | 0 <= k < |s| && IsFirstOccurrence(s, k) ensures s[k] in KeepFirstOccurrences(s) {
        if k < |init| {
          assert s[..k] == init[..k] && s[k] == init[k];
        } else {
          assert s[..k] == init;
        }
      }
    }
  }

  /**
   * Every kept record is the first record of the input with its key, and
   * every first occurrence is kept.
   */
  lemma DropDuplicatesKeepsFirstOccurrences(s: seq<Record>)
    ensures forall m :: 0 <= m < |DropDuplicates(s)| ==> FirstOccurrenceIn(s, DropDuplicates(s)[m])
    ensures forall k :: 0 <= k < |s| && IsFirstOccurrence(s, k) ==> s[k] in DropDuplicates(s)
  {
    DropDuplicatesMatchesReference(s);
    ReferenceKeepsOnlyFirstOccurrences(s);
    ReferenceKeepsAllFirstOccurrences(s);
  }

  /** Deduplication only deletes records: the result is a subsequence of the input. */
  lemma {:induction false} DropDuplicatesFromIsSubsequence(s: seq<Record>, seen: set<(Value, Value)>)
    ensures IsSubsequence(DropDuplicatesFrom(s, seen), s)
    decreases |s|
  {
    if s != [] {
      if Key(s[0]) in seen {
        DropDuplicatesFromIsSubsequence(s[1..], seen);
      } else {
        DropDuplicatesFromIsSubsequence(s[1..], seen + {Key(s[0])});
        var r := DropDuplicatesFrom(s, seen);
        assert r[0] == s[0] && r[1..] == DropDuplicatesFrom(s[1..], seen + {Key(s[0])});
      }
    }
  }

  /** A sequence whose keys are distinct and unseen passes deduplication unchanged. */
  lemma {:induction false} DropDuplicatesFromDistinct(s: seq<Record>, seen: set<(Value, Value)>)
    requires DistinctKeys(s)
    requires KeysOf(s) !! seen
    ensures DropDuplicatesFrom(s, seen) == s
    decreases |s|
  {
    if s != [] {
      assert s == [s[0]] + s[1..];
      assert Key(s[0]) in KeysOf(s);
      assert KeysOf(s[1..]) !! seen + {Key(s[0])} by {
        forall rec | rec in s[1..] ensures Key(rec) != Key(s[0]) && Key(rec) !in seen {
          var b :| 0 <= b < |s[1..]| && s[1..][b] == rec;
          assert rec == s[b + 1];
        }
      }
      DropDuplicatesFromDistinct(s[1..], seen + {Key(s[0])});
    }
  }

  /** Deduplicating twice is the same as deduplicating once. */
  lemma DropDuplicatesIdempotent(s: seq<Record>)
    ensures DropDuplicates(DropDuplicates(s)) == DropDuplicates(s)
  {
    DropDuplicatesFromDistinct(DropDuplicates(s), {});
  }

  /** The (Latitude, Longitude) pair of a raw entry. */
  function EntryKey(e: Entry): (Value, Value)
    requires "Latitude" in e && "Longitude" in e
  {
    (e["Latitude"], e["Longitude"])
  }

  /** The first entries of all batches carry the two key fields. */
  predicate KeyedBatches(batches: seq<Batch>) {
    AllNonEmpty(batches) && FirstEntriesHave(batches, "Latitude") && FirstEntriesHave(batches, "Longitude")
  }

  /** Batch `k` is the first batch whose first entry has its (Latitude, Longitude) pair. */
  predicate FirstWithKey(batches: seq<Batch>, k: int)
    requires KeyedBatches(batches) && 0 <= k < |batches|
  {
    forall k' :: 0 <= k' < k ==> EntryKey(batches[k'][0]) != EntryKey(batches[k][0])
  }

  /** Row `k` of `table` was built from the first entry of batch `k`. */
  predicate BuiltFrom(table: seq<Record>, batches: seq<Batch>)
    requires AllNonEmpty(batches)
  {
    |table| == |batches| && forall k :: 0 <= k < |batches| ==> CopiesEntry(table[k], batches[k][0])
  }

  /** Every record left after deduplication copies the first entry of some batch. */
  lemma DeduplicatedRecordsCopyEntries(batches: seq<Batch>, table: seq<Record>)
    requires AllNonEmpty(batches) && BuiltFrom(table, batches)
    ensures forall rec :: rec in DropDuplicates(table) ==> exists k :: 0 <= k < |batches| && CopiesEntry(rec, batches[k][0])
  {
    DropDuplicatesFromIsSubsequence(table, {});
    SubsequenceMembers(DropDuplicates(table), table);
    forall rec | rec in DropDuplicates(table) ensures exists k :: 0 <= k < |batches| && CopiesEntry(rec, batches[k][0]) {
      var k :| 0 <= k < |table| && table[k] == rec;
    }
  }

  /** Deduplication loses no (lat, lon) pair of any batch. */
  lemma DeduplicatedKeysCover(batches: seq<Batch>, table: seq<Record>)
    requires AllNonEmpty(batches) && BuiltFrom(table, batches)
    ensures KeyedBatches(batches)
    ensures forall k :: 0 <= k < |batches| ==> EntryKey(batches[k][0]) in KeysOf(DropDuplicates(table))
  {
    forall k | 0 <= k < |batches| ensures EntryKey(batches[k][0]) in KeysOf(table) {
      assert Key(table[k]) == EntryKey(batches[k][0]);
      assert table[k] in table;
    }
  }

  /** The record of the first batch with a given (lat, lon) pair survives deduplication. */
  lemma DeduplicatedKeepsFirstBatch(batches: seq<Batch>, table: seq<Record>)
    requires AllNonEmpty(batches) && BuiltFrom(table, batches)
    ensures KeyedBatches(batches)
    ensures forall k :: 0 <= k < |batches| && FirstWithKey(batches, k) ==> table[k] in DropDuplicates(table)
  {
    DropDuplicatesKeepsFirstOccurrences(table);
    forall k | 0 <= k < |batches| && FirstWithKey(batches, k) ensures table[k] in DropDuplicates(table) {
      assert IsFirstOccurrence(table, k) by {
        forall rec | rec in table[..k] ensures Key(rec) != Key(table[k]) {
          var k' :| 0 <= k' < k && table[..k][k'] == rec;
          assert rec == table[k'];
          assert Key(table[k']) == EntryKey(batches[k'][0]);
        }
      }
    }
  }

  /**
   * `clean_bicycle_racks_data`: the first-entry table, deduplicated on
   * (lat, lon). It fails exactly when the projection does, with the same
   * error. On success no two records share a (lat, lon) pair, every record
   * copies the first entry of some batch, every batch's pair is still
   * present, and the first batch with a given pair contributes its record.
   */
  function CleanBicycleRacksData(batches: seq<Batch>): (r: Result<seq<Record>, string>)
    requires AllNonEmpty(batches)
    ensures r.Success? <==> forall n :: 0 <= n < |Fields| ==> FirstEntriesHave(batches, Fields[n])
    ensures r.Failure? ==> r == ProjectFirstEntries(batches)
    ensures r.Success? ==> r.value == DropDuplicates(ProjectFirstEntries(batches).value)
    ensures r.Success? ==> KeyedBatches(batches) && DistinctKeys(r.value) && |r.value| <= |batches|
    ensures r.Success? ==>
      forall rec :: rec in r.value ==> exists k :: 0 <= k < |batches| && CopiesEntry(rec, batches[k][0])
    ensures r.Success? ==>
      forall k :: 0 <= k < |batches| ==> EntryKey(batches[k][0]) in KeysOf(r.value)
    ensures r.Success? ==>
      forall k :: 0 <= k < |batches| && FirstWithKey(batches, k) ==>
        exists rec :: rec in r.value && CopiesEntry(rec, batches[k][0])
  {
    var table :- ProjectFirstEntries(batches);
    DeduplicatedRecordsCopyEntries(batches, table);
    DeduplicatedKeysCover(batches, table);
    DeduplicatedKeepsFirstBatch(batches, table);
    Success(DropDuplicates(table))
  }
}
