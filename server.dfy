/**
 * The response shaping of the guardrails service endpoints: risk bucket,
 * reason, reported confidence and result validation of the two detection
 * endpoints; the clear messages; the conversion of uploads and adds into
 * request dictionaries; and the retrieval response.
 */
module Server {
  import opened Common
  import opened DistanceStats
  import opened VectorDb
  import opened Models

  // ----------------------------------------------------------------------
  // Risk level

  datatype Risk = Low | Medium | High

  /** The same bucketing is applied to the anomaly score and to the malicious score. */
  function RiskLevel(score: real): Risk {
    if score > 0.8 then High else if score > 0.6 then Medium else Low
  }

  function RiskRank(r: Risk): nat {
    match r
    case Low => 0
    case Medium => 1
    case High => 2
  }

  /** A higher score never gets a lower bucket. */
  lemma RiskLevelMonotone(a: real, b: real)
    requires a <= b
    ensures RiskRank(RiskLevel(a)) <= RiskRank(RiskLevel(b))
  {
  }

  /**
   * The anomaly score is `1 - median`, so the bucket falls as the request
   * moves away from the baseline: high exactly when the median is below 0.2.
   */
  lemma AnomalyRiskFallsWithDistance(nearer: real, farther: real)
    requires nearer <= farther
    ensures RiskRank(RiskLevel(1.0 - farther)) <= RiskRank(RiskLevel(1.0 - nearer))
    ensures RiskLevel(1.0 - nearer) == High <==> nearer < 0.2
  {
  }

  // ----------------------------------------------------------------------
  // Reasons

  const AnomalyFarReason: string := "Request text significantly differs from baseline patterns"
  const AnomalyFewReason: string := "Very few similar requests found in baseline"
  const AnomalyUnusualReason: string := "Request appears unusual compared to baseline"
  const MaliciousCloseReason: string := "Request text closely matches known malicious patterns"
  const MaliciousManyReason: string := "Multiple similar malicious requests found in baseline"
  const MaliciousSimilarReason: string := "Request appears similar to known malicious content"

  /** `anomaly_reasons` of `detect_anomaly`. */
  function AnomalyReasons(flagged: bool, score: real, similarCount: nat): seq<string> {
    if !flagged then []
    else if score > 0.8 then [AnomalyFarReason]
    else if similarCount < 3 then [AnomalyFewReason]
    else [AnomalyUnusualReason]
  }

  /** `malicious_reasons` of `detect_malicious`. */
  function MaliciousReasons(flagged: bool, score: real, similarCount: nat): seq<string> {
    if !flagged then []
    else if score > 0.8 then [MaliciousCloseReason]
    else if similarCount >= 3 then [MaliciousManyReason]
    else [MaliciousSimilarReason]
  }

  /**
   * Reasons are empty exactly when the request is not flagged, and hold one
   * string otherwise; the score test comes before the count test, and the
   * two endpoints test the count in opposite directions.
   */
  lemma ReasonsChoice(flagged: bool, score: real, similarCount: nat)
    ensures AnomalyReasons(flagged, score, similarCount) == [] <==> !flagged
    ensures MaliciousReasons(flagged, score, similarCount) == [] <==> !flagged
    ensures |AnomalyReasons(flagged, score, similarCount)| <= 1 && |MaliciousReasons(flagged, score, similarCount)| <= 1
    ensures flagged && score > 0.8 ==>
              AnomalyReasons(flagged, score, similarCount) == [AnomalyFarReason]
              && MaliciousReasons(flagged, score, similarCount) == [MaliciousCloseReason]
    ensures flagged && score <= 0.8 ==>
              (AnomalyReasons(flagged, score, similarCount) == [AnomalyFewReason] <==> similarCount < 3)
              && (MaliciousReasons(flagged, score, similarCount) == [MaliciousManyReason] <==> similarCount >= 3)
  {
  }

  // ----------------------------------------------------------------------
  // Detection endpoints

  datatype HttpError = Unprocessable | ServerError

  /** `AnomalyResult` / `MaliciousResult`. */
  datatype DetectionResult = DetectionResult(flagged: bool, confidence: real, reasons: seq<string>,
                                             risk: Risk, similarCount: nat)

  /** The response body without its request id and response time. */
  datatype DetectionResponse = DetectionResponse(result: DetectionResult, score: Score)

  /** `stats.get("similar_records_count", 0)`. */
  function SimilarCountOf(stats: BaseStats): nat {
    if stats.Baseline? then stats.similarCount else 0
  }

  /** `max(malicious_score, 0.01)`. */
  function MaliciousConfidence(score: real): (c: real)
    ensures c >= 0.01 && c >= score
    ensures c == score || c == 0.01
  {
    MaxReal(score, 0.01)
  }

  /**
   * `detect_anomaly` around `calculate_detection_score`: an exception from
   * the policy or a result that fails validation becomes HTTP 500.
   */
  function DetectAnomaly(scored: Result<Score, ScoreError>): Result<DetectionResponse, HttpError> {
    match scored
    case Failure(_) => Failure(ServerError)
    case Success(s) =>
      var count := SimilarCountOf(s.stats);
      var result := DetectionResult(s.flagged, s.confidence, AnomalyReasons(s.flagged, s.confidence, count),
                                    RiskLevel(s.confidence), count);
      if ValidResult(result.confidence, count) then Success(DetectionResponse(result, s)) else Failure(ServerError)
  }

  /** `detect_malicious`: as above, with the reported confidence raised to at least 0.01. */
  function DetectMalicious(scored: Result<Score, ScoreError>): Result<DetectionResponse, HttpError> {
    match scored
    case Failure(_) => Failure(ServerError)
    case Success(s) =>
      var count := SimilarCountOf(s.stats);
      var result := DetectionResult(s.flagged, MaliciousConfidence(s.confidence),
                                    MaliciousReasons(s.flagged, s.confidence, count),
                                    RiskLevel(s.confidence), count);
      if ValidResult(result.confidence, count) then Success(DetectionResponse(result, s)) else Failure(ServerError)
  }

  /**
   * Request validation happens before either detection handler runs: a body
   * outside the field constraints is answered with HTTP 422.
   */
  function DetectEndpoint(req: IncomingRequest, handled: Result<DetectionResponse, HttpError>)
    : (r: Result<DetectionResponse, HttpError>)
    ensures r == Failure(Unprocessable) <==> !ValidIncomingRequest(req) || handled == Failure(Unprocessable)
    ensures ValidIncomingRequest(req) ==> r == handled
  {
    if ValidIncomingRequest(req) then handled else Failure(Unprocessable)
  }

  /** The `compare_to` a request that passed validation hands to the store. */
  function HandlerCompareTo(req: IncomingRequest): Option<nat>
    requires ValidIncomingRequest(req)
  {
    if req.compareTo.Some? then Some(req.compareTo.value as nat) else None
  }

  /**
   * A request that passes validation hands the store a threshold in [0, 1]
   * and asks the index for at least one neighbour (given a store whose own
   * settings are in range), so the empty-baseline branch is taken exactly
   * when the collection is empty; `compare_to = 0`, the one value that
   * would ask for nothing, is answered 422 before the store is reached.
   */
  lemma ValidRequestQueriesNeighbours(req: IncomingRequest, configuredThreshold: real, configuredCompareTo: nat,
                                      records: seq<Record>, ns: seq<Neighbour>)
    requires ValidIncomingRequest(req)
    requires 0.0 <= configuredThreshold <= 1.0 && configuredCompareTo >= 1
    requires IsNearestAnswer(records, ns, HandlerCompareTo(req).GetOr(configuredCompareTo))
    ensures 0.0 <= ResolveThreshold(req.threshold, configuredThreshold) <= 1.0
    ensures HandlerCompareTo(req).GetOr(configuredCompareTo) >= 1
    ensures BaseStatsOf(ns, ResolveThreshold(req.threshold, configuredThreshold)).NoBaseline? <==> records == []
    ensures forall handled :: DetectEndpoint(req.(compareTo := Some(0)), handled) == Failure(Unprocessable)
  {
    EmptyAnswerIffEmptyCollection(records, ns, HandlerCompareTo(req).GetOr(configuredCompareTo),
                                  ResolveThreshold(req.threshold, configuredThreshold));
  }

  /**
   * The anomaly endpoint on a non-empty baseline: it answers exactly when
   * the median distance is at most 1 (otherwise the confidence `1 - median`
   * is negative and fails validation); the flag, the pass-through
   * confidence, the one-reason-iff-flagged rule and the count follow the
   * distances.
   */
  lemma AnomalyEndpointOnDistances(ns: seq<Neighbour>, threshold: real)
    requires ns != [] && Ascending(DistancesOf(ns)) && AllWithin(DistancesOf(ns), 0.0, 2.0)
    ensures var ds := DistancesOf(ns);
            var r := DetectAnomaly(Success(AnomalyScore(BaseStatsOf(ns, threshold))));
            && (r.Success? <==> Median(ds) <= 1.0)
            && (r.Success? ==>
                  && (r.value.result.flagged <==> Median(ds) > threshold)
                  && r.value.result.confidence == 1.0 - Median(ds)
                  && (r.value.result.reasons == [] <==> !r.value.result.flagged)
                  && r.value.result.similarCount == CountBelow(ds, threshold)
                  && r.value.result.risk == RiskLevel(1.0 - Median(ds)))
  {
    StatsWithin(DistancesOf(ns), 0.0, 2.0);
    AnomalyDecision(ns, threshold);
  }

  /**
   * The malicious endpoint on a non-empty baseline always answers: the
   * reported confidence is the similarity `1 - min` raised to 0.01, and the
   * risk is high exactly when the closest neighbour is nearer than 0.2.
   */
  lemma MaliciousEndpointOnDistances(ns: seq<Neighbour>, threshold: real)
    requires ns != [] && Ascending(DistancesOf(ns)) && AllWithin(DistancesOf(ns), 0.0, 2.0)
    ensures var ds := DistancesOf(ns);
            var r := DetectMalicious(Success(MaliciousScore(BaseStatsOf(ns, threshold))));
            && r.Success?
            && (r.value.result.flagged <==> ds[0] < threshold)
            && r.value.result.confidence == MaxReal(1.0 - ds[0], 0.01)
            && 0.01 <= r.value.result.confidence <= 1.0
            && (r.value.result.reasons == [] <==> !r.value.result.flagged)
            && r.value.result.risk == RiskLevel(1.0 - ds[0])
            && (r.value.result.risk == High <==> ds[0] < 0.2)
  {
    StatsWithin(DistancesOf(ns), 0.0, 2.0);
    MaliciousDecision(ns, threshold);
  }

  /**
   * As written, the reported malicious confidence is `max(min, 0.01)`, which
   * fails the result's upper bound of 1 whenever the closest malicious
   * neighbour is farther than 1: such a request is answered with HTTP 500.
   */
  lemma FarMaliciousMatchFailsAsWritten(ns: seq<Neighbour>, threshold: real)
    requires ns != [] && Ascending(DistancesOf(ns)) && AllWithin(DistancesOf(ns), 0.0, 2.0)
    requires DistancesOf(ns)[0] > 1.0
    ensures DetectMalicious(MaliciousScoreAsWritten(BaseStatsOf(ns, threshold))) == Failure(ServerError)
  {
    AscendingEnds(DistancesOf(ns));
  }

  /**
   * As written, a request identical to a stored malicious text (distance 0)
   * is flagged, yet reported with the lowest confidence, low risk and never
   * the "closely matches" reason, for any threshold up to 0.8.
   */
  lemma ExactMatchLowRiskAsWritten(ns: seq<Neighbour>, threshold: real)
    requires ns != [] && Ascending(DistancesOf(ns)) && AllWithin(DistancesOf(ns), 0.0, 2.0)
    requires DistancesOf(ns)[0] == 0.0 && 0.0 < threshold <= 0.8
    ensures var r := DetectMalicious(MaliciousScoreAsWritten(BaseStatsOf(ns, threshold)));
            && r.Success? && r.value.result.flagged
            && r.value.result.confidence == 0.01 && r.value.result.risk == Low
            && r.value.result.reasons != [MaliciousCloseReason]
  {
    AscendingEnds(DistancesOf(ns));
  }

  /**
   * With the confidence inverted, the same exact match is reported with
   * confidence 1, high risk and the "closely matches" reason.
   */
  lemma ExactMatchHighRisk(ns: seq<Neighbour>, threshold: real)
    requires ns != [] && Ascending(DistancesOf(ns)) && AllWithin(DistancesOf(ns), 0.0, 2.0)
    requires DistancesOf(ns)[0] == 0.0 && 0.0 < threshold
    ensures var r := DetectMalicious(Success(MaliciousScore(BaseStatsOf(ns, threshold))));
            && r.Success? && r.value.result.flagged
            && r.value.result.confidence == 1.0 && r.value.result.risk == High
            && r.value.result.reasons == [MaliciousCloseReason]
  {
    MaliciousEndpointOnDistances(ns, threshold);
  }

  /**
   * The anomaly score `1 - median` falls as the request moves away from the
   * baseline, so with a threshold of at least 0.2 a flagged request is never
   * high risk and never gets the "significantly differs" reason.
   */
  lemma FlaggedAnomalyNeverHigh(ns: seq<Neighbour>, threshold: real)
    requires ns != [] && Ascending(DistancesOf(ns)) && AllWithin(DistancesOf(ns), 0.0, 2.0)
    requires threshold >= 0.2
    ensures var r := DetectAnomaly(Success(AnomalyScore(BaseStatsOf(ns, threshold))));
            r.Success? && r.value.result.flagged ==>
              r.value.result.risk != High && r.value.result.reasons != [AnomalyFarReason]
  {
    AnomalyEndpointOnDistances(ns, threshold);
  }

  // ----------------------------------------------------------------------
  // Clear messages

  /** Which bounds a clear request carries. */
  datatype ClearScope = All | Between(after: Instant, before: Instant) | Before(before: Instant) | After(after: Instant)

  function ScopeOf(before: Option<Instant>, after: Option<Instant>): ClearScope {
    if before.None? && after.None? then All
    else if before.Some? && after.Some? then Between(after.value, before.value)
    else if before.Some? then Before(before.value)
    else After(after.value)
  }

  /** What the bounded clear messages call the collection. */
  function ClearSubject(kind: Kind): string {
    if kind == Domain then "Baseline data" else "Malicious baseline data"
  }

  /** The message of the clear endpoints; `iso` renders an instant as `isoformat()` does. */
  function ClearMessage(kind: Kind, scope: ClearScope, iso: Instant -> string): string {
    match scope
    case All => (if kind == Domain then "All baseline data" else "All malicious baseline data") + " cleared successfully"
    case Between(a, b) => ClearSubject(kind) + " between " + iso(a) + " and " + iso(b) + " cleared successfully"
    case Before(b) => ClearSubject(kind) + " before " + iso(b) + " cleared successfully"
    case After(a) => ClearSubject(kind) + " after " + iso(a) + " cleared successfully"
  }

  predicate StartsWith(s: string, prefix: string) {
    |prefix| <= |s| && s[..|prefix|] == prefix
  }

  /** The endpoint picks its message with the same branch order the store uses to pick its filter. */
  lemma ScopeMatchesWindow(t: Instant, before: Option<Instant>, after: Option<Instant>)
    ensures ScopeOf(before, after).All? <==> before.None? && after.None?
    ensures InWindow(t, before, after) <==>
            match ScopeOf(before, after)
            case All => true
            case Between(a, b) => a <= t < b
            case Before(b) => t < b
            case After(a) => a <= t
  {
  }

  /** Past a common subject, a message opens with `subject + w` exactly when its remainder opens with `w`. */
  lemma StartsWithAfterSubject(subject: string, tail: string, w: string)
    ensures StartsWith(subject + tail, subject + w) <==> StartsWith(tail, w)
  {
    var m := subject + tail;
    if StartsWith(tail, w) {
      assert m[..|subject + w|] == subject + tail[..|w|];
    }
    if StartsWith(m, subject + w) {
      assert tail[..|w|] == m[..|subject + w|][|subject|..];
    }
  }

  /** The three bound words of the clear messages cannot be mistaken for one another. */
  lemma BoundWordsDiffer(word: string, rest: string)
    requires word == " between " || word == " before " || word == " after "
    ensures StartsWith(word + rest, " between ") <==> word == " between "
    ensures StartsWith(word + rest, " before ") <==> word == " before "
    ensures StartsWith(word + rest, " after ") <==> word == " after "
  {
    var m := word + rest;
    assert m[..|word|] == word;
    assert m[1] == word[1] && m[3] == word[3];
    if StartsWith(m, " between ") { assert m[3] == " between "[3]; }
    if StartsWith(m, " before ") { assert m[3] == " before "[3]; }
    if StartsWith(m, " after ") { assert m[1] == " after "[1]; }
  }

  /** The unbounded message opens with "All ", and no bounded message does. */
  lemma AllOpensOnlyUnbounded(kind: Kind, scope: ClearScope, iso: Instant -> string)
    ensures StartsWith(ClearMessage(kind, scope, iso), "All ") <==> scope.All?
    ensures !scope.All? ==> ClearMessage(kind, scope, iso)[0] == ClearSubject(kind)[0] != 'A'
  {
    var m := ClearMessage(kind, scope, iso);
    var subject := ClearSubject(kind);
    assert subject[0] != 'A';
    if scope.All? {
      var head := if kind == Domain then "All baseline data" else "All malicious baseline data";
      assert m == head + " cleared successfully";
      assert head[0] == 'A' && head[1] == 'l' && head[2] == 'l' && head[3] == ' ';
      assert m[..4] == head[..4] == "All ";
    } else {
      assert m[0] == subject[0];
    }
  }

  function BoundWord(scope: ClearScope): string {
    match scope
    case All => ""
    case Between(_, _) => " between "
    case Before(_) => " before "
    case After(_) => " after "
  }

  function BoundRest(scope: ClearScope, iso: Instant -> string): string {
    match scope
    case All => ""
    case Between(a, b) => iso(a) + " and " + iso(b) + " cleared successfully"
    case Before(b) => iso(b) + " cleared successfully"
    case After(a) => iso(a) + " cleared successfully"
  }

  /** A bounded message is the subject, the bound word and the rendered bounds. */
  lemma BoundedMessageParts(kind: Kind, scope: ClearScope, iso: Instant -> string)
    requires !scope.All?
    ensures ClearMessage(kind, scope, iso) == ClearSubject(kind) + (BoundWord(scope) + BoundRest(scope, iso))
  {
  }

  /**
   * Only the unbounded request is told that all data was cleared; every
   * other message opens with the collection and the one bound word (between,
   * before or after) that matches the bounds given, whatever the rendered
   * instants are.
   */
  lemma {:induction false} ClearMessageNamesScope(kind: Kind, scope: ClearScope, iso: Instant -> string)
    ensures var m := ClearMessage(kind, scope, iso);
            && (StartsWith(m, "All ") <==> scope.All?)
            && (StartsWith(m, ClearSubject(kind) + " between ") <==> scope.Between?)
            && (StartsWith(m, ClearSubject(kind) + " before ") <==> scope.Before?)
            && (StartsWith(m, ClearSubject(kind) + " after ") <==> scope.After?)
  {
    var m := ClearMessage(kind, scope, iso);
    var subject := ClearSubject(kind);
    AllOpensOnlyUnbounded(kind, scope, iso);
    if scope.All? {
      assert m[0] == 'A' != subject[0];
    } else {
      var word, rest := BoundWord(scope), BoundRest(scope, iso);
      BoundedMessageParts(kind, scope, iso);
      StartsWithAfterSubject(subject, word + rest, " between ");
      StartsWithAfterSubject(subject, word + rest, " before ");
      StartsWithAfterSubject(subject, word + rest, " after ");
      BoundWordsDiffer(word, rest);
    }
  }

  // ----------------------------------------------------------------------
  // Uploads and adds

  /**
   * The loop of the anomaly upload endpoint: one request dictionary per
   * record, with `clock(k)` (the k-th `datetime.now()`) standing in for a
   * null timestamp.
   */
  method ConvertUpload(records: seq<TrafficRecord>, clock: nat -> Instant) returns (data: seq<Payload>)
    ensures |data| == |records|
    ensures forall k :: 0 <= k < |records| ==>
              data[k] == Payload(records[k].text, Some(At(records[k].timestamp.GetOr(clock(k)))))
  {
    data := [];
    for k := 0 to |records|
      invariant |data| == k
      invariant forall j :: 0 <= j < k ==>
                  data[j] == Payload(records[j].text, Some(At(records[j].timestamp.GetOr(clock(j)))))
    {
      var t := if records[k].timestamp.Some? then records[k].timestamp.value else clock(k);
      data := data + [Payload(records[k].text, Some(At(t)))];
    }
  }

  /**
   * The loop of the malicious upload endpoint, which has no default: a null
   * timestamp raises (`None.isoformat()`), which the endpoint reports as
   * HTTP 500 before anything is stored.
   */
  method ConvertMaliciousUpload(records: seq<TrafficRecord>) returns (data: Result<seq<Payload>, HttpError>)
    ensures data.Success? <==> forall k :: 0 <= k < |records| ==> records[k].timestamp.Some?
    ensures data.Failure? ==> data.error == ServerError
    ensures data.Success? ==>
              |data.value| == |records|
              && forall k :: 0 <= k < |records| ==>
                   data.value[k] == Payload(records[k].text, Some(At(records[k].timestamp.value)))
  {
    var out: seq<Payload> := [];
    for k := 0 to |records|
      invariant |out| == k
      invariant forall j :: 0 <= j < k ==> records[j].timestamp.Some?
      invariant forall j :: 0 <= j < k ==> out[j] == Payload(records[j].text, Some(At(records[j].timestamp.value)))
    {
      if records[k].timestamp.None? {
        return Failure(ServerError);
      }
      out := out + [Payload(records[k].text, Some(At(records[k].timestamp.value)))];
    }
    data := Success(out);
  }

  /** The body of both add endpoints: `request.timestamp.isoformat()`, which raises on a null timestamp. */
  function AddPayload(record: TrafficRecord): (r: Result<Payload, HttpError>)
    ensures r.Success? <==> record.timestamp.Some?
  {
    if record.timestamp.None? then Failure(ServerError)
    else Success(Payload(record.text, Some(At(record.timestamp.value))))
  }

  /** The request bodies after pydantic has filled in the default timestamp. */
  function ParseRecords(body: seq<TrafficRecordBody>, definedAt: Instant): (records: seq<TrafficRecord>)
    ensures |records| == |body|
    ensures forall k :: 0 <= k < |body| ==> records[k] == ParseTrafficRecord(body[k], definedAt)
  {
    seq(|body|, k requires 0 <= k < |body| => ParseTrafficRecord(body[k], definedAt))
  }

  /** What `add_baseline_data` stores for a request dictionary carrying the instant `t`. */
  function UploadedRecord(id: nat, embed: string -> Embedding, text: string, t: Instant): Record {
    Record(id, embed(text), Payload(text, Some(At(t))), Metadata(At(t), Some(|text|), None))
  }

  /**
   * `/anomaly/baseline/upload`: every record is stored and counted, after
   * the records already there. An omitted timestamp is stored as the one
   * instant the model class was defined at; only an explicit null gets a
   * fresh clock reading.
   */
  method UploadAnomalyBaseline(store: BaselineStore, body: seq<TrafficRecordBody>, definedAt: Instant,
                               clock: nat -> Instant)
    returns (added: nat)
    requires store.Valid()
    modifies store
    ensures store.Valid() && added == |body|
    ensures |store.records| == |old(store.records)| + |body|
    ensures store.records[..|old(store.records)|] == old(store.records)
    ensures forall k :: 0 <= k < |body| ==>
              store.records[|old(store.records)| + k]
              == UploadedRecord(old(store.nextId) + k, store.embed, body[k].text,
                                match body[k].timestamp
                                case Omitted => definedAt
                                case Null => clock(k)
                                case Given(t) => t)
  {
    var records := ParseRecords(body, definedAt);
    var data := ConvertUpload(records, clock);
    added := store.AddBaselineData(data, clock);
  }

  /**
   * `/malicious/baseline/upload`: all records are stored after the existing
   * ones, or none with HTTP 500 when one has an explicit null timestamp; an
   * omitted timestamp is stored as the class-definition instant.
   */
  method UploadMaliciousBaseline(store: BaselineStore, body: seq<TrafficRecordBody>, definedAt: Instant,
                                 clock: nat -> Instant)
    returns (added: Result<nat, HttpError>)
    requires store.Valid()
    modifies store
    ensures store.Valid()
    ensures added.Success? <==> forall k :: 0 <= k < |body| ==> !body[k].timestamp.Null?
    ensures added.Failure? ==> added.error == ServerError && store.records == old(store.records)
    ensures added.Success? ==>
              && added.value == |body|
              && |store.records| == |old(store.records)| + |body|
              && store.records[..|old(store.records)|] == old(store.records)
              && forall k :: 0 <= k < |body| ==>
                   store.records[|old(store.records)| + k]
                   == UploadedRecord(old(store.nextId) + k, store.embed, body[k].text,
                                     if body[k].timestamp.Given? then body[k].timestamp.value else definedAt)
  {
    var records := ParseRecords(body, definedAt);
    var data := ConvertMaliciousUpload(records);
    if data.Failure? {
      return Failure(data.error);
    }
    var n := store.AddBaselineData(data.value, clock);
    added := Success(n);
  }

  /**
   * `/anomaly/baseline/add` and `/malicious/baseline/add`: one record is
   * appended, with the given timestamp or the class-definition instant when
   * it was omitted; an explicit null raises and nothing changes.
   */
  method AddToBaseline(store: BaselineStore, body: TrafficRecordBody, definedAt: Instant)
    returns (added: Result<nat, HttpError>)
    requires store.Valid()
    modifies store
    ensures store.Valid()
    ensures added.Success? <==> !body.timestamp.Null?
    ensures added.Success? ==>
              var t := if body.timestamp.Given? then body.timestamp.value else definedAt;
              var p := Payload(body.text, Some(At(t)));
              added.value == 1
              && store.records == old(store.records) + [Record(old(store.nextId), store.embed(body.text), p, EntryMetadata(p))]
    ensures added.Failure? ==> added.error == ServerError && store.records == old(store.records)
  {
    var payload := AddPayload(ParseTrafficRecord(body, definedAt));
    if payload.Failure? {
      return Failure(payload.error);
    }
    var n := store.AddEntry(payload.value);
    added := Success(n);
  }

  /** The clear endpoints: the store's count and the message for the bounds given. */
  method ClearBaselineEndpoint(store: BaselineStore, before: Option<Instant>, after: Option<Instant>,
                               iso: Instant -> string)
    returns (message: string, removed: nat)
    requires store.Valid()
    modifies store
    ensures store.Valid()
    ensures message == ClearMessage(store.kind, ScopeOf(before, after), iso)
    ensures ScopeOf(before, after).All? ==> removed == |old(store.records)| && store.records == []
    ensures !ScopeOf(before, after).All? ==>
              store.records == Kept(old(store.records), before, after)
              && removed == |old(store.records)| - |store.records|
  {
    removed := store.ClearBaseline(before, after);
    message := ClearMessage(store.kind, ScopeOf(before, after), iso);
  }

  // ----------------------------------------------------------------------
  // Retrieval

  predicate SortedByTime(es: seq<Entry>) {
    forall i, j :: 0 <= i < j < |es| ==> es[i].timestamp <= es[j].timestamp
  }

  /** Places an entry after every entry that is not later than it. */
  function InsertByTime(sorted: seq<Entry>, e: Entry): seq<Entry> {
    if sorted == [] then [e]
    else if sorted[|sorted| - 1].timestamp <= e.timestamp then sorted + [e]
    else InsertByTime(sorted[..|sorted| - 1], e) + [sorted[|sorted| - 1]]
  }

  /** `entries.sort(key=lambda x: x.timestamp)`, on values. */
  function SortByTime(es: seq<Entry>): seq<Entry> {
    if es == [] then [] else InsertByTime(SortByTime(es[..|es| - 1]), es[|es| - 1])
  }

  lemma {:induction false} InsertByTimePermutes(sorted: seq<Entry>, e: Entry)
    ensures multiset(InsertByTime(sorted, e)) == multiset(sorted) + multiset{e}
  {
    if sorted != [] && sorted[|sorted| - 1].timestamp > e.timestamp {
      var init, last := sorted[..|sorted| - 1], sorted[|sorted| - 1];
      assert sorted == init + [last];
      InsertByTimePermutes(init, e);
    }
  }

  lemma {:induction false} InsertByTimeCorrect(sorted: seq<Entry>, e: Entry)
    requires SortedByTime(sorted)
    ensures SortedByTime(InsertByTime(sorted, e))
    ensures multiset(InsertByTime(sorted, e)) == multiset(sorted) + multiset{e}
  {
    InsertByTimePermutes(sorted, e);
    if sorted == [] {
    } else if sorted[|sorted| - 1].timestamp <= e.timestamp {
      var r := sorted + [e];
      forall i, j | 0 <= i < j < |r| ensures r[i].timestamp <= r[j].timestamp {
        if j == |sorted| {
          assert r[i] == sorted[i];
        }
      }
    } else {
      var init, last := sorted[..|sorted| - 1], sorted[|sorted| - 1];
      assert SortedByTime(init);
      InsertByTimeCorrect(init, e);
      var ins := InsertByTime(init, e);
      forall i | 0 <= i < |ins| ensures ins[i].timestamp <= last.timestamp {
        assert ins[i] in multiset(ins);
        assert ins[i] in multiset(init) + multiset{e};
        if ins[i] != e {
          assert ins[i] in init;
        }
      }
      var r := ins + [last];
      assert InsertByTime(sorted, e) == r;
      forall i, j | 0 <= i < j < |r| ensures r[i].timestamp <= r[j].timestamp {
        if j == |ins| {
          assert r[i] == ins[i];
        }
      }
    }
  }

  /** The retrieval order: sorted by timestamp and a permutation of the listed entries. */
  lemma {:induction false} SortByTimeCorrect(es: seq<Entry>)
    ensures SortedByTime(SortByTime(es))
    ensures multiset(SortByTime(es)) == multiset(es)
    ensures |SortByTime(es)| == |es|
  {
    if es != [] {
      var init := es[..|es| - 1];
      SortByTimeCorrect(init);
      InsertByTimeCorrect(SortByTime(init), es[|es| - 1]);
      assert es == init + [es[|es| - 1]];
    }
    assert |multiset(SortByTime(es))| == |multiset(es)|;
  }

  /** `BaselineGetResponse`. */
  datatype BaselineGetResponse = BaselineGetResponse(entries: seq<TrafficRecord>, totalCount: nat, filtered: bool)

  function ToTrafficRecord(e: Entry): TrafficRecord {
    TrafficRecord(Some(e.timestamp), e.text)
  }

  /** The retrieval endpoints after `get_baseline_entries`. */
  function GetResponse(es: seq<Entry>, before: Option<Instant>, after: Option<Instant>): BaselineGetResponse {
    var sorted := SortByTime(es);
    BaselineGetResponse(seq(|sorted|, i requires 0 <= i < |sorted| => ToTrafficRecord(sorted[i])),
                        |es|, before.Some? || after.Some?)
  }

  /**
   * The retrieval response lists the entries in timestamp order, counts
   * exactly the entries it lists, and says it was filtered iff a bound was
   * given.
   */
  lemma GetResponseShape(es: seq<Entry>, before: Option<Instant>, after: Option<Instant>)
    ensures var r := GetResponse(es, before, after);
            && r.totalCount == |r.entries| == |es|
            && (r.filtered <==> before.Some? || after.Some?)
            && (forall i :: 0 <= i < |r.entries| ==> r.entries[i].timestamp.Some?)
            && (forall i, j :: 0 <= i < j < |r.entries| ==> r.entries[i].timestamp.value <= r.entries[j].timestamp.value)
            && multiset(SortByTime(es)) == multiset(es)
  {
    SortByTimeCorrect(es);
  }

  /** `/anomaly/baseline` and `/malicious/baseline` with their optional bounds. */
  method GetBaselineEndpoint(store: BaselineStore, before: Option<Instant>, after: Option<Instant>)
    returns (response: BaselineGetResponse)
    requires store.Valid()
    ensures response == GetResponse(Listed(store.records, before, after), before, after)
    ensures response.totalCount == |response.entries| <= |store.records|
  {
    var entries := store.GetBaselineEntries(before, after);
    GetResponseShape(entries, before, after);
    ListedWithinWindow(store.records, before, after);
    response := GetResponse(entries, before, after);
  }
}
