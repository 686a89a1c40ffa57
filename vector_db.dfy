/**
 * The baseline store (`BaseVectorDatabase`) and the two detection policies
 * layered on it (`AnomalyVectorDatabase`, `MaliciousVectorDatabase`).
 *
 * The embedding model is the store's `embed` parameter; the index's k-NN
 * query is foreign, so its answer (neighbour records with their cosine
 * distances, ascending) is an input of the functions that consume it.
 */
module VectorDb {
  import opened Common
  import opened DistanceStats

  /** The two collections of a deployment. */
  datatype Kind = Domain | Malicious

  function CollectionName(kind: Kind): string {
    match kind
    case Domain => "traffic_baseline"
    case Malicious => "malicious_baseline"
  }

  /** Thresholds used when the environment does not set ANOMALY_THRESHOLD / MALICIOUS_THRESHOLD. */
  function DefaultThreshold(kind: Kind): real {
    match kind
    case Domain => 0.7
    case Malicious => 0.25
  }

  /** Neighbour count used when ANOMALY_COMPARE_TO / MALICIOUS_COMPARE_TO are unset. */
  const DefaultCompareTo: nat := 10

  /** The value of a stored timestamp field: absent or empty, not ISO-8601, or a parsed instant. */
  datatype Stamp = Missing | Invalid | At(t: Instant)

  /** A request dictionary as stored in a document; `timestamp == None` means the key is absent. */
  datatype Payload = Payload(text: string, timestamp: Option<Stamp>)

  /** Chroma metadata of a record: `add_entry` stores the request itself, `add_baseline_data` a timestamp and text length. */
  datatype Metadata = Metadata(timestamp: Stamp, textLength: Option<nat>, text: Option<string>)

  type Embedding = seq<real>

  /** A stored record; the id stands for the `uuid4` the source draws. */
  datatype Record = Record(id: nat, embedding: Embedding, document: Payload, metadata: Metadata)

  /** One row of a k-NN answer. */
  datatype Neighbour = Neighbour(record: Record, distance: real)

  /** A neighbour closer than the threshold: its decoded document with its metadata. */
  datatype Similar = Similar(document: Payload, metadata: Metadata)

  /** An entry listed by `get_baseline_entries`. */
  datatype Entry = Entry(text: string, timestamp: Instant)

  // ----------------------------------------------------------------------
  // Time windows, shared by clear and get

  /** `after` is inclusive, `before` exclusive; no bound admits everything. */
  predicate InWindow(t: Instant, before: Option<Instant>, after: Option<Instant>) {
    if before.Some? && after.Some? then after.value <= t < before.value
    else if before.Some? then t < before.value
    else if after.Some? then t >= after.value
    else true
  }

  /** The branch chain is the conjunction of the two independent bounds. */
  lemma InWindowIsConjunction(t: Instant, before: Option<Instant>, after: Option<Instant>)
    ensures InWindow(t, before, after) <==>
            (before.None? || t < before.value) && (after.None? || after.value <= t)
  {
  }

  // ----------------------------------------------------------------------
  // Record identities

  predicate IdsIncreasing(rs: seq<Record>) {
    forall i, j :: 0 <= i < j < |rs| ==> rs[i].id < rs[j].id
  }

  predicate IdsBelow(rs: seq<Record>, bound: nat) {
    forall i :: 0 <= i < |rs| ==> rs[i].id < bound
  }

  // ----------------------------------------------------------------------
  // Inserts

  /** `add_entry` stores the request dictionary itself as metadata. */
  function EntryMetadata(req: Payload): Metadata {
    Metadata(req.timestamp.GetOr(Missing), None, Some(req.text))
  }

  /** `add_baseline_data` stores the request's timestamp, or the time of the call when the key is absent, and the text length. */
  function BatchMetadata(req: Payload, now: Instant): Metadata {
    Metadata(req.timestamp.GetOr(At(now)), Some(|req.text|), None)
  }

  /**
   * The loop of `add_baseline_data` that builds the vectors, documents,
   * metadata and ids before the single `collection.add`. `clock(k)` is the
   * reading of `datetime.now()` in the k-th iteration.
   */
  method PrepareBatch(reqs: seq<Payload>, firstId: nat, clock: nat -> Instant, embed: string -> Embedding)
    returns (batch: seq<Record>)
    ensures |batch| == |reqs|
    ensures forall k :: 0 <= k < |reqs| ==>
              batch[k] == Record(firstId + k, embed(reqs[k].text), reqs[k], BatchMetadata(reqs[k], clock(k)))
  {
    batch := [];
    for k := 0 to |reqs|
      invariant |batch| == k
      invariant forall j :: 0 <= j < k ==>
                  batch[j] == Record(firstId + j, embed(reqs[j].text), reqs[j], BatchMetadata(reqs[j], clock(j)))
    {
      var meta := BatchMetadata(reqs[k], clock(k));
      batch := batch + [Record(firstId + k, embed(reqs[k].text), reqs[k], meta)];
    }
  }

  // ----------------------------------------------------------------------
  // clear_baseline with bounds

  /** A record the bounded clear deletes: its metadata timestamp parses and lies in the window. */
  predicate Removable(r: Record, before: Option<Instant>, after: Option<Instant>) {
    r.metadata.timestamp.At? && InWindow(r.metadata.timestamp.t, before, after)
  }

  /** `ids_to_remove`: the ids of the removable records, in store order. */
  function MatchingIds(rs: seq<Record>, before: Option<Instant>, after: Option<Instant>): seq<nat> {
    if rs == [] then []
    else
      var last := rs[|rs| - 1];
      MatchingIds(rs[..|rs| - 1], before, after) + (if Removable(last, before, after) then [last.id] else [])
  }

  /** The records the bounded clear leaves, in store order. */
  function Kept(rs: seq<Record>, before: Option<Instant>, after: Option<Instant>): seq<Record> {
    if rs == [] then []
    else
      var last := rs[|rs| - 1];
      Kept(rs[..|rs| - 1], before, after) + (if Removable(last, before, after) then [] else [last])
  }

  /** `collection.delete(ids=...)`: drops every record whose id is listed. */
  function DeleteIds(rs: seq<Record>, ids: seq<nat>): seq<Record> {
    if rs == [] then []
    else
      var last := rs[|rs| - 1];
      DeleteIds(rs[..|rs| - 1], ids) + (if last.id in ids then [] else [last])
  }

  /** The loop of `clear_baseline` that collects `ids_to_remove`. */
  method SelectForRemoval(rs: seq<Record>, before: Option<Instant>, after: Option<Instant>)
    returns (ids: seq<nat>)
    ensures ids == MatchingIds(rs, before, after)
  {
    ids := [];
    for i := 0 to |rs|
      invariant ids == MatchingIds(rs[..i], before, after)
    {
      assert rs[..i + 1][..i] == rs[..i];
      var stamp := rs[i].metadata.timestamp;
      if stamp.Missing? {
        continue;
      }
      if stamp.Invalid? {
        continue;
      }
      if InWindow(stamp.t, before, after) {
        ids := ids + [rs[i].id];
      }
    }
    assert rs[..|rs|] == rs;
  }

  lemma {:induction false} MatchingIdsBelow(rs: seq<Record>, before: Option<Instant>, after: Option<Instant>, bound: nat)
    requires IdsBelow(rs, bound)
    ensures forall k :: 0 <= k < |MatchingIds(rs, before, after)| ==> MatchingIds(rs, before, after)[k] < bound
  {
    if rs != [] {
      MatchingIdsBelow(rs[..|rs| - 1], before, after, bound);
    }
  }

  lemma {:induction false} DeleteIgnoresForeignIds(rs: seq<Record>, ids: seq<nat>, extra: seq<nat>)
    requires forall i :: 0 <= i < |rs| ==> rs[i].id !in extra
    ensures DeleteIds(rs, ids + extra) == DeleteIds(rs, ids)
  {
    if rs != [] {
      DeleteIgnoresForeignIds(rs[..|rs| - 1], ids, extra);
    }
  }

  /** With unique ids, deleting the matching ids is exactly filtering out the removable records. */
  lemma {:induction false} DeleteMatchingIsKept(rs: seq<Record>, before: Option<Instant>, after: Option<Instant>)
    requires IdsIncreasing(rs)
    ensures DeleteIds(rs, MatchingIds(rs, before, after)) == Kept(rs, before, after)
  {
    if rs != [] {
      var init, last := rs[..|rs| - 1], rs[|rs| - 1];
      var extra := if Removable(last, before, after) then [last.id] else [];
      DeleteMatchingIsKept(init, before, after);
      DeleteIgnoresForeignIds(init, MatchingIds(init, before, after), extra);
      MatchingIdsBelow(init, before, after, last.id);
      assert last.id !in MatchingIds(init, before, after);
    }
  }

  /** Every record is either removed or kept, never both. */
  lemma {:induction false} RemovedPlusKept(rs: seq<Record>, before: Option<Instant>, after: Option<Instant>)
    ensures |MatchingIds(rs, before, after)| + |Kept(rs, before, after)| == |rs|
  {
    if rs != [] {
      RemovedPlusKept(rs[..|rs| - 1], before, after);
    }
  }

  /** The bounded clear keeps precisely the records that are not removable, and nothing else. */
  lemma {:induction false} KeptIsUnmatched(rs: seq<Record>, before: Option<Instant>, after: Option<Instant>)
    ensures forall r :: r in Kept(rs, before, after) <==> r in rs && !Removable(r, before, after)
  {
    if rs != [] {
      var init := rs[..|rs| - 1];
      KeptIsUnmatched(init, before, after);
      assert rs == init + [rs[|rs| - 1]];
    }
  }

  // ----------------------------------------------------------------------
  // get_baseline_entries

  /** `metadata.get("timestamp") or request_data.get("timestamp")`: the document is consulted only when metadata has none. */
  function ListingStamp(r: Record): Stamp {
    if !r.metadata.timestamp.Missing? then r.metadata.timestamp else r.document.timestamp.GetOr(Missing)
  }

  predicate Listable(r: Record, before: Option<Instant>, after: Option<Instant>) {
    ListingStamp(r).At? && InWindow(ListingStamp(r).t, before, after)
  }

  /** The entries `get_baseline_entries` returns, in store order. */
  function Listed(rs: seq<Record>, before: Option<Instant>, after: Option<Instant>): seq<Entry> {
    if rs == [] then []
    else
      var last := rs[|rs| - 1];
      Listed(rs[..|rs| - 1], before, after)
        + (if Listable(last, before, after) then [Entry(last.document.text, ListingStamp(last).t)] else [])
  }

  /** The loop of `get_baseline_entries`. */
  method ListEntries(rs: seq<Record>, before: Option<Instant>, after: Option<Instant>)
    returns (entries: seq<Entry>)
    ensures entries == Listed(rs, before, after)
  {
    entries := [];
    for i := 0 to |rs|
      invariant entries == Listed(rs[..i], before, after)
    {
      assert rs[..i + 1][..i] == rs[..i];
      var stamp := rs[i].metadata.timestamp;
      if stamp.Missing? {
        stamp := rs[i].document.timestamp.GetOr(Missing);
      }
      if stamp.Missing? || stamp.Invalid? {
        continue;
      }
      if InWindow(stamp.t, before, after) {
        entries := entries + [Entry(rs[i].document.text, stamp.t)];
      }
    }
    assert rs[..|rs|] == rs;
  }

  /** Every listed entry lies in the window, and there are never more entries than records. */
  lemma {:induction false} ListedWithinWindow(rs: seq<Record>, before: Option<Instant>, after: Option<Instant>)
    ensures |Listed(rs, before, after)| <= |rs|
    ensures forall k :: 0 <= k < |Listed(rs, before, after)| ==>
              InWindow(Listed(rs, before, after)[k].timestamp, before, after)
  {
    if rs != [] {
      ListedWithinWindow(rs[..|rs| - 1], before, after);
    }
  }

  /** The listing of a prefix of the records is a prefix of the listing of them all. */
  lemma {:induction false} ListedPrefix(rs: seq<Record>, i: nat, before: Option<Instant>, after: Option<Instant>)
    requires i <= |rs|
    ensures |Listed(rs[..i], before, after)| <= |Listed(rs, before, after)|
    ensures Listed(rs, before, after)[..|Listed(rs[..i], before, after)|] == Listed(rs[..i], before, after)
  {
    if i < |rs| {
      var init := rs[..|rs| - 1];
      assert init[..i] == rs[..i];
      ListedPrefix(init, i, before, after);
    } else {
      assert rs[..i] == rs;
    }
  }

  /**
   * The converse of `ListedWithinWindow`: every listable record's entry is
   * listed, at the position given by the listable records before it, so the
   * listing keeps store order.
   */
  lemma {:induction false} ListedComplete(rs: seq<Record>, before: Option<Instant>, after: Option<Instant>)
    ensures forall i :: 0 <= i < |rs| && Listable(rs[i], before, after) ==>
              && |Listed(rs[..i], before, after)| < |Listed(rs, before, after)|
              && Listed(rs, before, after)[|Listed(rs[..i], before, after)|]
                 == Entry(rs[i].document.text, ListingStamp(rs[i]).t)
    ensures forall i, j :: 0 <= i < j < |rs| && Listable(rs[i], before, after) ==>
              |Listed(rs[..i], before, after)| < |Listed(rs[..j], before, after)|
  {
    forall i | 0 <= i < |rs| && Listable(rs[i], before, after)
      ensures |Listed(rs[..i], before, after)| < |Listed(rs, before, after)|
      ensures Listed(rs, before, after)[|Listed(rs[..i], before, after)|]
              == Entry(rs[i].document.text, ListingStamp(rs[i]).t)
    {
      assert rs[..i + 1][..i] == rs[..i];
      ListedPrefix(rs, i + 1, before, after);
    }
    forall i, j | 0 <= i < j < |rs| && Listable(rs[i], before, after)
      ensures |Listed(rs[..i], before, after)| < |Listed(rs[..j], before, after)|
    {
      assert rs[..i + 1][..i] == rs[..i];
      assert rs[..j][..i + 1] == rs[..i + 1];
      ListedPrefix(rs[..j], i + 1, before, after);
    }
  }

  /** For a record whose metadata timestamp parses, clear removes it exactly when get lists it. */
  lemma ClearAndGetAgree(r: Record, before: Option<Instant>, after: Option<Instant>)
    requires r.metadata.timestamp.At?
    ensures Removable(r, before, after) <==> Listable(r, before, after)
  {
  }

  /** When every metadata timestamp parses, get lists as many entries as the bounded clear removes. */
  lemma {:induction false} ListedCountsRemoved(rs: seq<Record>, before: Option<Instant>, after: Option<Instant>)
    requires forall i :: 0 <= i < |rs| ==> rs[i].metadata.timestamp.At?
    ensures |Listed(rs, before, after)| == |MatchingIds(rs, before, after)|
  {
    if rs != [] {
      ListedCountsRemoved(rs[..|rs| - 1], before, after);
    }
  }

  // ----------------------------------------------------------------------
  // The store

  /** One named Chroma collection with its detection defaults. */
  class BaselineStore {
    const kind: Kind
    const name: string
    const embed: string -> Embedding
    const threshold: real
    const compareTo: nat
    var records: seq<Record>
    var nextId: nat

    ghost predicate Valid()
      reads this
    {
      name == CollectionName(kind) && IdsIncreasing(records) && IdsBelow(records, nextId)
    }

    constructor (kind: Kind, embed: string -> Embedding, threshold: real, compareTo: nat)
      ensures Valid() && records == []
      ensures this.kind == kind && this.embed == embed
      ensures this.threshold == threshold && this.compareTo == compareTo
    {
      this.kind := kind;
      this.name := CollectionName(kind);
      this.embed := embed;
      this.threshold := threshold;
      this.compareTo := compareTo;
      records := [];
      nextId := 0;
    }

    /** `add_entry`: one record, with the request as its metadata; reports 1. */
    method AddEntry(req: Payload) returns (added: nat)
      requires Valid()
      modifies this
      ensures Valid() && added == 1
      ensures records == old(records) + [Record(old(nextId), embed(req.text), req, EntryMetadata(req))]
      ensures nextId == old(nextId) + 1
    {
      var r := Record(nextId, embed(req.text), req, EntryMetadata(req));
      records := records + [r];
      nextId := nextId + 1;
      added := 1;
    }

    /** `add_baseline_data`: one record per request, added in a single call; reports `len(requests)`. */
    method AddBaselineData(reqs: seq<Payload>, clock: nat -> Instant) returns (added: nat)
      requires Valid()
      modifies this
      ensures Valid() && added == |reqs|
      ensures |records| == |old(records)| + |reqs| && records[..|old(records)|] == old(records)
      ensures forall k :: 0 <= k < |reqs| ==>
                records[|old(records)| + k]
                == Record(old(nextId) + k, embed(reqs[k].text), reqs[k], BatchMetadata(reqs[k], clock(k)))
      ensures nextId == old(nextId) + |reqs|
    {
      var batch := PrepareBatch(reqs, nextId, clock, embed);
      records := records + batch;
      nextId := nextId + |reqs|;
      added := |reqs|;
      assert records[..|old(records)|] == old(records);
    }

    /** `get_collection_stats`. */
    method GetCollectionStats() returns (totalRecords: nat, collectionName: string)
      requires Valid()
      ensures totalRecords == |records| && collectionName == CollectionName(kind)
    {
      totalRecords := |records|;
      collectionName := name;
    }

    /**
     * `clear_baseline`. Without bounds the collection is dropped and
     * recreated under the same name and the prior count reported; with
     * bounds exactly the removable records are deleted and their number
     * reported.
     */
    method ClearBaseline(before: Option<Instant>, after: Option<Instant>) returns (removed: nat)
      requires Valid()
      modifies this
      ensures Valid() && nextId == old(nextId)
      ensures before.None? && after.None? ==> removed == |old(records)| && records == []
      ensures before.Some? || after.Some? ==>
                records == Kept(old(records), before, after)
                && removed == |old(records)| - |records|
    {
      if before.None? && after.None? {
        removed := |records|;
        records := [];
        return;
      }
      if records == [] {
        return 0;
      }
      var ids := SelectForRemoval(records, before, after);
      DeleteMatchingIsKept(records, before, after);
      RemovedPlusKept(records, before, after);
      KeptIsUnmatched(records, before, after);
      ghost var was := records;
      if ids != [] {
        records := DeleteIds(records, ids);
      } else {
        DeleteNothing(records);
      }
      removed := |ids|;
      KeptPreservesIds(was, before, after, nextId);
    }

    /**
     * `calculate_detection_score` of the store's policy (with both
     * corrections listed under Findings), given the index's answer to the
     * query for the resolved number of neighbours. The empty-baseline default
     * applies exactly when that answer is empty: an empty collection, or a
     * query for no neighbours.
     */
    method CalculateDetectionScore(ns: seq<Neighbour>, requestedThreshold: Option<real>, requestedCompareTo: Option<nat>)
      returns (scored: Score)
      requires Valid() && IsNearestAnswer(records, ns, requestedCompareTo.GetOr(compareTo))
      ensures var stats := BaseStatsOf(ns, ResolveThreshold(requestedThreshold, threshold));
              scored == if kind == Domain then AnomalyScore(stats) else MaliciousScore(stats)
      ensures scored.detection.None? <==> records == [] || requestedCompareTo.GetOr(compareTo) == 0
      ensures scored.stats.threshold == ResolveThreshold(requestedThreshold, threshold)
      ensures scored.detection.None? ==> scored.flagged == (kind == Domain)
    {
      var t := ResolveThreshold(requestedThreshold, threshold);
      var stats := BaseStatsOf(ns, t);
      scored := if kind == Domain then AnomalyScore(stats) else MaliciousScore(stats);
    }

    /** `get_baseline_entries`. */
    method GetBaselineEntries(before: Option<Instant>, after: Option<Instant>) returns (entries: seq<Entry>)
      requires Valid()
      ensures entries == Listed(records, before, after)
    {
      entries := ListEntries(records, before, after);
    }
  }

  lemma {:induction false} KeptPreservesIds(rs: seq<Record>, before: Option<Instant>, after: Option<Instant>, bound: nat)
    requires IdsIncreasing(rs) && IdsBelow(rs, bound)
    ensures IdsIncreasing(Kept(rs, before, after)) && IdsBelow(Kept(rs, before, after), bound)
  {
    if rs != [] {
      var init, last := rs[..|rs| - 1], rs[|rs| - 1];
      assert IdsIncreasing(init) && IdsBelow(init, bound);
      KeptPreservesIds(init, before, after, bound);
      KeptIsUnmatched(init, before, after);
      var k := Kept(init, before, after);
      assert forall i :: 0 <= i < |k| ==> k[i].id < last.id by {
        forall i | 0 <= i < |k| ensures k[i].id < last.id {
          assert k[i] in init;
          var j :| 0 <= j < |init| && init[j] == k[i];
          assert rs[j] == init[j];
        }
      }
    }
  }

  lemma {:induction false} DeleteNothing(rs: seq<Record>)
    ensures DeleteIds(rs, []) == rs
  {
    if rs != [] {
      DeleteNothing(rs[..|rs| - 1]);
      assert rs == rs[..|rs| - 1] + [rs[|rs| - 1]];
    }
  }

  // ----------------------------------------------------------------------
  // find_similar and _calculate_base_stats

  /** The distances of a k-NN answer, in the index's order. */
  function DistancesOf(ns: seq<Neighbour>): (ds: seq<real>)
    ensures |ds| == |ns| && forall i :: 0 <= i < |ns| ==> ds[i] == ns[i].distance
  {
    seq(|ns|, i requires 0 <= i < |ns| => ns[i].distance)
  }

  /** The neighbours strictly closer than the threshold, with their metadata; none when no threshold is given. */
  function SimilarOf(ns: seq<Neighbour>, threshold: Option<real>): seq<Similar> {
    if ns == [] then []
    else
      var last := ns[|ns| - 1];
      SimilarOf(ns[..|ns| - 1], threshold)
        + (if threshold.Some? && last.distance < threshold.value
           then [Similar(last.record.document, last.record.metadata)] else [])
  }

  /**
   * The answer of the index to a query for `k` neighbours over `records`:
   * as many neighbours as there are records, up to k, drawn from the
   * collection, in ascending order, at cosine distances in [0, 2].
   */
  ghost predicate IsNearestAnswer(records: seq<Record>, ns: seq<Neighbour>, k: nat) {
    && |ns| == (if k <= |records| then k else |records|)
    && (forall i :: 0 <= i < |ns| ==> ns[i].record in records)
    && Ascending(DistancesOf(ns))
    && AllWithin(DistancesOf(ns), 0.0, 2.0)
  }

  /** `find_similar` after the query: every distance, and the documents closer than the threshold. */
  method FindSimilar(ns: seq<Neighbour>, threshold: Option<real>) returns (similar: seq<Similar>, distances: seq<real>)
    ensures distances == DistancesOf(ns)
    ensures similar == SimilarOf(ns, threshold)
  {
    similar, distances := [], [];
    for i := 0 to |ns|
      invariant distances == DistancesOf(ns[..i])
      invariant similar == SimilarOf(ns[..i], threshold)
    {
      assert ns[..i + 1][..i] == ns[..i];
      distances := distances + [ns[i].distance];
      if threshold.Some? && ns[i].distance < threshold.value {
        similar := similar + [Similar(ns[i].record.document, ns[i].record.metadata)];
      }
    }
    assert ns[..|ns|] == ns;
  }

  /** The number of similar records is the number of distances strictly below the threshold. */
  lemma {:induction false} SimilarCountIsCountBelow(ns: seq<Neighbour>, threshold: real)
    ensures |SimilarOf(ns, Some(threshold))| == CountBelow(DistancesOf(ns), threshold)
  {
    if ns != [] {
      var init := ns[..|ns| - 1];
      SimilarCountIsCountBelow(init, threshold);
      assert DistancesOf(ns)[..|ns| - 1] == DistancesOf(init);
    }
  }

  /** The statistics dictionary of `_calculate_base_stats`. */
  datatype BaseStats =
    | NoBaseline(threshold: real)
    | Baseline(threshold: real, median: real, mean: real, min: real, max: real,
               similarCount: nat, similar: seq<Similar>, distances: seq<real>)

  /** `threshold if threshold is not None else self.threshold`. */
  function ResolveThreshold(requested: Option<real>, configured: real): real {
    requested.GetOr(configured)
  }

  /** `_calculate_base_stats` once the index has answered. */
  function BaseStatsOf(ns: seq<Neighbour>, threshold: real): (s: BaseStats)
    requires Ascending(DistancesOf(ns))
    ensures s.threshold == threshold
    ensures s.NoBaseline? <==> ns == []
    ensures s.Baseline? ==>
              && s.distances == DistancesOf(ns)
              && s.min <= s.median <= s.max
              && s.min <= s.mean <= s.max
              && s.similarCount == CountBelow(s.distances, threshold) <= |ns|
  {
    var ds := DistancesOf(ns);
    if ds == [] then NoBaseline(threshold)
    else
      MedianBetweenMinAndMax(ds);
      MeanBetweenMinAndMax(ds);
      SimilarCountIsCountBelow(ns, threshold);
      CountBelowBounds(ds, threshold);
      var similar := SimilarOf(ns, Some(threshold));
      Baseline(threshold, Median(ds), Mean(ds), Min(ds), Max(ds), |similar|, similar, ds)
  }

  /** A nearest-neighbour answer is empty exactly when the collection is. */
  lemma EmptyAnswerIffEmptyCollection(records: seq<Record>, ns: seq<Neighbour>, k: nat, threshold: real)
    requires k >= 1 && IsNearestAnswer(records, ns, k)
    ensures BaseStatsOf(ns, threshold).NoBaseline? <==> records == []
  {
  }

  // ----------------------------------------------------------------------
  // calculate_detection_score

  datatype Metric = MedianDistance | MinDistance

  /** `detection_distance` and `detection_metric`, added to the stats by a policy. */
  datatype Detection = Detection(distance: real, metric: Metric)

  /** The triple a policy returns: decision, confidence and the (annotated) stats. */
  datatype Score = Score(flagged: bool, confidence: real, stats: BaseStats, detection: Option<Detection>)

  /** The exception raised by `stats["distances"]` on a dictionary without that key. */
  datatype ScoreError = MissingKey(key: string)

  /**
   * The anomaly policy as written: the empty-baseline test reads
   * `stats["distances"]`, which the no-baseline dictionary lacks.
   */
  function AnomalyScoreAsWritten(stats: BaseStats): Result<Score, ScoreError> {
    match stats
    case NoBaseline(_) => Failure(MissingKey("distances"))
    case Baseline(_, _, _, _, _, _, _, _) => Success(AnomalyScore(stats))
  }

  /**
   * The malicious policy as written: the same missing key, and a confidence
   * that is the closest distance itself rather than its inversion.
   */
  function MaliciousScoreAsWritten(stats: BaseStats): Result<Score, ScoreError> {
    match stats
    case NoBaseline(_) => Failure(MissingKey("distances"))
    case Baseline(t, _, _, min, _, _, _, _) => Success(Score(min < t, min, stats, Some(Detection(min, MinDistance))))
  }

  /**
   * The anomaly policy with its written empty-baseline default reachable:
   * no distances give (True, 1.0), otherwise the decision is
   * `median > threshold` with confidence `1 - median`.
   */
  function AnomalyScore(stats: BaseStats): Score {
    if stats.NoBaseline? || stats.distances == [] then Score(true, 1.0, stats, None)
    else Score(stats.median > stats.threshold, 1.0 - stats.median, stats, Some(Detection(stats.median, MedianDistance)))
  }

  /**
   * The malicious policy with its written empty-baseline default reachable:
   * no distances give (False, 0.0), otherwise the decision is
   * `min < threshold` with the similarity `1 - min` as confidence.
   */
  function MaliciousScore(stats: BaseStats): Score {
    if stats.NoBaseline? || stats.distances == [] then Score(false, 0.0, stats, None)
    else Score(stats.min < stats.threshold, 1.0 - stats.min, stats, Some(Detection(stats.min, MinDistance)))
  }

  /** As written, an empty baseline makes both policies raise instead of returning their defaults. */
  lemma EmptyBaselineRaisesAsWritten(threshold: real)
    ensures AnomalyScoreAsWritten(BaseStatsOf([], threshold)) == Failure(MissingKey("distances"))
    ensures MaliciousScoreAsWritten(BaseStatsOf([], threshold)) == Failure(MissingKey("distances"))
  {
  }

  /** With the default reachable: an empty Domain baseline is anomalous with confidence 1.0, an empty Malicious one benign with 0.0. */
  lemma EmptyBaselineDefaults(threshold: real)
    ensures var s := AnomalyScore(BaseStatsOf([], threshold)); s.flagged && s.confidence == 1.0 && s.detection.None?
    ensures var s := MaliciousScore(BaseStatsOf([], threshold)); !s.flagged && s.confidence == 0.0 && s.detection.None?
  {
  }

  /**
   * On a non-empty answer the written anomaly policy and the corrected one
   * agree; the written malicious policy takes the same decision and reports
   * the same detection distance, with the complement of the corrected confidence.
   */
  lemma AsWrittenAgreesOnNonEmpty(ns: seq<Neighbour>, threshold: real)
    requires ns != [] && Ascending(DistancesOf(ns))
    ensures AnomalyScoreAsWritten(BaseStatsOf(ns, threshold)) == Success(AnomalyScore(BaseStatsOf(ns, threshold)))
    ensures var w, c := MaliciousScoreAsWritten(BaseStatsOf(ns, threshold)), MaliciousScore(BaseStatsOf(ns, threshold));
            && w.Success? && w.value.flagged == c.flagged && w.value.detection == c.detection
            && w.value.confidence == 1.0 - c.confidence && w.value.stats == c.stats
  {
  }

  /**
   * Anomaly decision on the neighbour distances: anomalous iff the median is
   * strictly above the threshold (equality is not anomalous); confidence is
   * `1 - median` and the median is reported as the detection distance.
   */
  lemma AnomalyDecision(ns: seq<Neighbour>, threshold: real)
    requires ns != [] && Ascending(DistancesOf(ns))
    ensures var s := AnomalyScore(BaseStatsOf(ns, threshold));
            && (s.flagged <==> Median(DistancesOf(ns)) > threshold)
            && s.confidence == 1.0 - Median(DistancesOf(ns))
            && s.detection == Some(Detection(Median(DistancesOf(ns)), MedianDistance))
  {
  }

  /**
   * What an anomaly means for the neighbours: when flagged, every neighbour
   * from the middle on is farther than the threshold (at least half of
   * them); when not, every neighbour up to the middle is within it.
   */
  lemma AnomalyMeansUpperHalfFar(ns: seq<Neighbour>, threshold: real)
    requires ns != [] && Ascending(DistancesOf(ns))
    ensures var ds := DistancesOf(ns);
            AnomalyScore(BaseStatsOf(ns, threshold)).flagged ==>
              forall i :: |ds| / 2 <= i < |ds| ==> ds[i] > threshold
    ensures var ds := DistancesOf(ns);
            !AnomalyScore(BaseStatsOf(ns, threshold)).flagged ==>
              forall i :: 0 <= i <= (|ds| - 1) / 2 ==> ds[i] <= threshold
  {
    var ds := DistancesOf(ns);
    var n := |ds|;
    if n % 2 == 0 {
      assert ds[n / 2 - 1] <= ds[n / 2];
    }
  }

  /**
   * Malicious decision on the neighbour distances: malicious iff the closest
   * neighbour is strictly below the threshold, which is iff at least one
   * similar record was found; confidence is the similarity `1 - min`, in
   * [0, 1] whenever the distances are.
   */
  lemma MaliciousDecision(ns: seq<Neighbour>, threshold: real)
    requires ns != [] && Ascending(DistancesOf(ns))
    ensures var s := MaliciousScore(BaseStatsOf(ns, threshold));
            && (s.flagged <==> DistancesOf(ns)[0] < threshold)
            && (s.flagged <==> s.stats.similarCount > 0)
            && s.confidence == 1.0 - DistancesOf(ns)[0] && DistancesOf(ns)[0] == Min(DistancesOf(ns))
            && s.detection == Some(Detection(Min(DistancesOf(ns)), MinDistance))
            && (AllWithin(DistancesOf(ns), 0.0, 1.0) ==> 0.0 <= s.confidence <= 1.0)
  {
    var ds := DistancesOf(ns);
    AscendingEnds(ds);
    CountBelowBounds(ds, threshold);
  }

  /** A neighbour at distance 0 (the text is stored verbatim) is malicious for every positive threshold. */
  lemma ExactMatchIsMalicious(ns: seq<Neighbour>, threshold: real)
    requires ns != [] && Ascending(DistancesOf(ns)) && AllWithin(DistancesOf(ns), 0.0, 2.0)
    requires exists i :: 0 <= i < |ns| && ns[i].distance == 0.0
    requires threshold > 0.0
    ensures MaliciousScore(BaseStatsOf(ns, threshold)).flagged
  {
    MaliciousDecision(ns, threshold);
  }

  /** Lowering the anomaly threshold never clears a flag; raising the malicious threshold never clears one. */
  lemma ThresholdMonotone(ns: seq<Neighbour>, low: real, high: real)
    requires Ascending(DistancesOf(ns)) && low <= high
    ensures AnomalyScore(BaseStatsOf(ns, high)).flagged ==> AnomalyScore(BaseStatsOf(ns, low)).flagged
    ensures MaliciousScore(BaseStatsOf(ns, low)).flagged ==> MaliciousScore(BaseStatsOf(ns, high)).flagged
  {
  }
}
