/**
 * How the agent's checks see the guardrails service: a detection endpoint's
 * answer on the wire, read by the agent's check nodes, and whole chats over
 * empty baselines.
 */
module Integration {
  import opened Common
  import opened DistanceStats
  import opened VectorDb
  import opened Models
  import opened Server
  import opened ChatService

  /** The HTTP answer of a detection endpoint, with `baseline_stats` rendered as `details`. */
  function ToWire(r: Result<DetectionResponse, HttpError>, details: Details): ApiOutcome {
    match r
    case Failure(Unprocessable) => Answered(422, ResponseBody(None, None))
    case Failure(ServerError) => Answered(500, ResponseBody(None, None))
    case Success(resp) =>
      Answered(200, ResponseBody(Some(ResultBody(Some(resp.result.flagged), Some(resp.result.reasons))), Some(details)))
  }

  /** The agent detects exactly what the service answers with a flag, and takes its reasons and stats. */
  lemma WireCarriesDecision(r: Result<DetectionResponse, HttpError>, details: Details)
    ensures Interpret(ToWire(r, details)).detected <==> r.Success? && r.value.result.flagged
    ensures r.Success? ==> Interpret(ToWire(r, details)) == CheckOutcome(r.value.result.flagged, r.value.result.reasons, details)
    ensures r.Failure? ==> Interpret(ToWire(r, details)) == CheckOutcome(false, [], map[])
  {
  }

  /** A threshold outside [0, 1] is rejected by the service, so the agent's check passes whatever the text. */
  lemma InvalidThresholdFailsOpen(req: IncomingRequest, handled: Result<DetectionResponse, HttpError>, details: Details)
    requires !ValidThreshold(req.threshold)
    ensures !Interpret(ToWire(DetectEndpoint(req, handled), details)).detected
  {
  }

  /**
   * With the policies as written, an empty baseline makes both detection
   * endpoints answer HTTP 500, and the agent lets the request through.
   */
  lemma EmptyBaselineFailsOpenAsWritten(threshold: real, details: Details)
    ensures DetectAnomaly(AnomalyScoreAsWritten(BaseStatsOf([], threshold))) == Failure(ServerError)
    ensures DetectMalicious(MaliciousScoreAsWritten(BaseStatsOf([], threshold))) == Failure(ServerError)
    ensures !Interpret(ToWire(DetectAnomaly(AnomalyScoreAsWritten(BaseStatsOf([], threshold))), details)).detected
    ensures !Interpret(ToWire(DetectMalicious(MaliciousScoreAsWritten(BaseStatsOf([], threshold))), details)).detected
  {
    EmptyBaselineRaisesAsWritten(threshold);
  }

  /**
   * With the written defaults for an empty baseline, the anomaly endpoint
   * flags every request with the "significantly differs" reason and the
   * malicious endpoint flags none, reporting confidence 0.01.
   */
  lemma EmptyBaselineDefaultsOnTheWire(threshold: real, details: Details)
    ensures var r := DetectAnomaly(Success(AnomalyScore(BaseStatsOf([], threshold))));
            r.Success? && r.value.result.flagged && r.value.result.reasons == [AnomalyFarReason]
            && r.value.result.risk == High && r.value.result.similarCount == 0
            && Interpret(ToWire(r, details)) == CheckOutcome(true, [AnomalyFarReason], details)
    ensures var r := DetectMalicious(Success(MaliciousScore(BaseStatsOf([], threshold))));
            r.Success? && !r.value.result.flagged && r.value.result.confidence == 0.01
            && r.value.result.risk == Low && !Interpret(ToWire(r, details)).detected
  {
    EmptyBaselineDefaults(threshold);
  }

  /**
   * A request whose median distance exceeds 1 is anomalous for any threshold
   * below 1, yet the response fails validation (negative confidence) and the
   * agent does not block it.
   */
  lemma FarOutlierFailsOpen(ns: seq<Neighbour>, threshold: real, details: Details)
    requires ns != [] && Ascending(DistancesOf(ns)) && AllWithin(DistancesOf(ns), 0.0, 2.0)
    requires Median(DistancesOf(ns)) > 1.0 && threshold <= 1.0
    ensures AnomalyScore(BaseStatsOf(ns, threshold)).flagged
    ensures DetectAnomaly(Success(AnomalyScore(BaseStatsOf(ns, threshold)))) == Failure(ServerError)
    ensures !Interpret(ToWire(DetectAnomaly(Success(AnomalyScore(BaseStatsOf(ns, threshold)))), details)).detected
  {
    AnomalyDecision(ns, threshold);
    AnomalyEndpointOnDistances(ns, threshold);
  }

  /** The guardrails service over two empty baselines, with the policies as written. */
  function EmptyServiceAsWritten(details: Details): DetectCall -> ApiOutcome {
    (c: DetectCall) =>
      if c.endpoint == AnomalyEndpoint then ToWire(DetectAnomaly(AnomalyScoreAsWritten(BaseStatsOf([], c.threshold))), details)
      else ToWire(DetectMalicious(MaliciousScoreAsWritten(BaseStatsOf([], c.threshold))), details)
  }

  /** The guardrails service over two empty baselines, with the written defaults. */
  function EmptyServiceCorrected(details: Details): DetectCall -> ApiOutcome {
    (c: DetectCall) =>
      if c.endpoint == AnomalyEndpoint then ToWire(DetectAnomaly(Success(AnomalyScore(BaseStatsOf([], c.threshold)))), details)
      else ToWire(DetectMalicious(Success(MaliciousScore(BaseStatsOf([], c.threshold)))), details)
  }

  /** As written, a chat against empty baselines reaches the language model; the details stay empty. */
  method ChatOverEmptyBaselinesAsWritten(message: string, anomalyT: real, maliciousT: real,
                                         llm: string -> LlmOutcome, details: Details)
    returns (response: string, anomalyDetails: Details, maliciousDetails: Details)
    ensures llm(message).LlmReply? && llm(message).usageComplete ==> response == llm(message).content
    ensures llm(message).LlmRaised? ==> response == ErrorMessage
    ensures anomalyDetails == map[] && maliciousDetails == map[]
  {
    var service := EmptyServiceAsWritten(details);
    EmptyBaselineFailsOpenAsWritten(anomalyT, details);
    EmptyBaselineFailsOpenAsWritten(maliciousT, details);
    response, anomalyDetails, maliciousDetails := Chat(message, anomalyT, maliciousT, service, llm);
  }

  /** With the written defaults, the same chat is blocked and told why, without calling the model. */
  method ChatOverEmptyBaselinesCorrected(message: string, anomalyT: real, maliciousT: real,
                                         llm: string -> LlmOutcome, details: Details)
    returns (response: string, anomalyDetails: Details, maliciousDetails: Details)
    ensures response == CannedMessage + "\n\nReasons: " + AnomalyFarReason
    ensures Contains(response, AnomalyFarReason)
    ensures anomalyDetails == details && maliciousDetails == details
  {
    var service := EmptyServiceCorrected(details);
    EmptyBaselineDefaultsOnTheWire(anomalyT, details);
    EmptyBaselineDefaultsOnTheWire(maliciousT, details);
    response, anomalyDetails, maliciousDetails := Chat(message, anomalyT, maliciousT, service, llm);
    BlockedMessageListsReasons([AnomalyFarReason]);
  }

  /** Uploading N records to a fresh store reports N, and the store's stats then count N. */
  method UploadThenCount(kind: Kind, embed: string -> Embedding, body: seq<TrafficRecordBody>, definedAt: Instant,
                         clock: nat -> Instant)
    returns (added: nat, total: nat)
    ensures added == |body| && total == |body|
  {
    var store := new BaselineStore(kind, embed, DefaultThreshold(kind), DefaultCompareTo);
    added := UploadAnomalyBaseline(store, body, definedAt, clock);
    var name;
    total, name := store.GetCollectionStats();
  }

  /** The window arithmetic of the scenarios below, on the stored records. */
  lemma {:induction false} ThreeRecordsWindow(rs: seq<Record>, t1: Instant, t2: Instant, t3: Instant)
    requires |rs| == 3 && t1 < t2 < t3
    requires rs[0].metadata.timestamp == At(t1) && rs[1].metadata.timestamp == At(t2) && rs[2].metadata.timestamp == At(t3)
    requires rs[0].document.text == "a" && rs[1].document.text == "b" && rs[2].document.text == "c"
    ensures Listed(rs, None, Some(t2)) == [Entry("b", t2), Entry("c", t3)]
    ensures Listed(rs, Some(t3), None) == [Entry("a", t1), Entry("b", t2)]
    ensures |Kept(rs, Some(t2), None)| == 2
    ensures Kept(rs, Some(t3), Some(t2)) == [rs[0], rs[2]]
  {
    assert rs[..2][..1][..0] == [];
    assert Listed(rs[..2][..1], None, Some(t2)) == [];
    assert Kept(rs[..2][..1], Some(t2), None) == [];
    assert Listed(rs[..2], None, Some(t2)) == [Entry("b", t2)];
    assert |Kept(rs[..2], Some(t2), None)| == 1;
    assert Listed(rs[..2][..1], Some(t3), None) == [Entry("a", t1)];
    assert Listed(rs[..2], Some(t3), None) == [Entry("a", t1), Entry("b", t2)];
    assert Kept(rs[..2][..1], Some(t3), Some(t2)) == [rs[0]];
    assert Kept(rs[..2], Some(t3), Some(t2)) == [rs[0]];
  }

  /** The first and the last of the three records, listed without bounds. */
  lemma {:induction false} FirstAndLastListed(rs: seq<Record>, t1: Instant, t3: Instant)
    requires |rs| == 2
    requires rs[0].metadata.timestamp == At(t1) && rs[1].metadata.timestamp == At(t3)
    requires rs[0].document.text == "a" && rs[1].document.text == "c"
    ensures Listed(rs, None, None) == [Entry("a", t1), Entry("c", t3)]
  {
    assert rs[..1][..0] == [];
    assert Listed(rs[..1], None, None) == [Entry("a", t1)];
  }

  /** Two entries already in timestamp order stay in that order. */
  lemma {:induction false} OrderedPairSorted(e1: Entry, e2: Entry)
    requires e1.timestamp <= e2.timestamp
    ensures SortByTime([e1, e2]) == [e1, e2]
  {
    assert [e1, e2][..1] == [e1] && [e1][..0] == [];
    assert SortByTime([e1]) == [e1];
  }

  /** The retrieval response for two entries already in timestamp order lists both, in that order. */
  lemma PairResponse(e1: Entry, e2: Entry, before: Option<Instant>, after: Option<Instant>)
    requires e1.timestamp <= e2.timestamp
    ensures var r := GetResponse([e1, e2], before, after);
            r.totalCount == 2 && r.filtered == (before.Some? || after.Some?)
            && r.entries == [TrafficRecord(Some(e1.timestamp), e1.text), TrafficRecord(Some(e2.timestamp), e2.text)]
  {
    OrderedPairSorted(e1, e2);
  }

  /** Stores "a", "b" and "c" at t1, t2 and t3 in a fresh store and returns the records it then holds. */
  method StoreThree(kind: Kind, embed: string -> Embedding, definedAt: Instant, t1: Instant, t2: Instant, t3: Instant)
    returns (store: BaselineStore)
    ensures fresh(store) && store.Valid() && |store.records| == 3
    ensures store.records[0].metadata.timestamp == At(t1) && store.records[0].document.text == "a"
    ensures store.records[1].metadata.timestamp == At(t2) && store.records[1].document.text == "b"
    ensures store.records[2].metadata.timestamp == At(t3) && store.records[2].document.text == "c"
  {
    store := new BaselineStore(kind, embed, DefaultThreshold(kind), DefaultCompareTo);
    var a := AddToBaseline(store, TrafficRecordBody(Given(t1), "a"), definedAt);
    ghost var r0 := store.records;
    var b := AddToBaseline(store, TrafficRecordBody(Given(t2), "b"), definedAt);
    ghost var r1 := store.records;
    var c := AddToBaseline(store, TrafficRecordBody(Given(t3), "c"), definedAt);
    assert store.records[..2] == r1 && r1[..1] == r0;
  }

  /**
   * Three entries at t1 < t2 < t3: retrieving with `after = t2` lists the
   * last two in order, retrieving with `before = t3` the first two; clearing
   * with `before = t2` then removes only the first, leaving two entries.
   */
  method WindowScenario(kind: Kind, embed: string -> Embedding, definedAt: Instant, t1: Instant, t2: Instant, t3: Instant)
    returns (listedAfter: BaselineGetResponse, listedBefore: BaselineGetResponse, removed: nat, remaining: nat)
    requires t1 < t2 < t3
    ensures listedAfter.totalCount == 2 && listedAfter.filtered
    ensures listedAfter.entries == [TrafficRecord(Some(t2), "b"), TrafficRecord(Some(t3), "c")]
    ensures listedBefore.totalCount == 2 && listedBefore.filtered
    ensures listedBefore.entries == [TrafficRecord(Some(t1), "a"), TrafficRecord(Some(t2), "b")]
    ensures removed == 1 && remaining == 2
  {
    var store := StoreThree(kind, embed, definedAt, t1, t2, t3);
    ThreeRecordsWindow(store.records, t1, t2, t3);
    PairResponse(Entry("b", t2), Entry("c", t3), None, Some(t2));
    PairResponse(Entry("a", t1), Entry("b", t2), Some(t3), None);
    listedAfter := GetBaselineEndpoint(store, None, Some(t2));
    listedBefore := GetBaselineEndpoint(store, Some(t3), None);
    var message;
    message, removed := ClearBaselineEndpoint(store, Some(t2), None, t => "");
    var name;
    remaining, name := store.GetCollectionStats();
  }

  /**
   * Three entries at t1 < t2 < t3: clearing with `after = t2` and
   * `before = t3` removes only the middle one, and an unbounded retrieval
   * then lists the first and the last.
   */
  method BetweenScenario(kind: Kind, embed: string -> Embedding, definedAt: Instant, t1: Instant, t2: Instant, t3: Instant)
    returns (removed: nat, listed: BaselineGetResponse)
    requires t1 < t2 < t3
    ensures removed == 1
    ensures listed.totalCount == 2 && !listed.filtered
    ensures listed.entries == [TrafficRecord(Some(t1), "a"), TrafficRecord(Some(t3), "c")]
  {
    var store := StoreThree(kind, embed, definedAt, t1, t2, t3);
    ThreeRecordsWindow(store.records, t1, t2, t3);
    var message;
    message, removed := ClearBaselineEndpoint(store, Some(t3), Some(t2), t => "");
    FirstAndLastListed(store.records, t1, t3);
    PairResponse(Entry("a", t1), Entry("c", t3), None, None);
    listed := GetBaselineEndpoint(store, None, None);
  }
}
