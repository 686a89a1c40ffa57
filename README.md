# Guardrails service: a verified model

This project models the core of a guardrails service in Dafny. The service keeps two vector collections of past
requests:

- a "traffic" baseline of normal requests, for anomaly detection;
- a "malicious" baseline of known bad requests.

For each incoming text it compares the text's nearest neighbours in one of those collections against a threshold:

- a request is anomalous when its median cosine distance to the traffic baseline exceeds the threshold;
- a request is malicious when its closest malicious neighbour lies below the threshold.

The HTTP layer turns the score into a risk level, a reason and a validated result. It also converts uploads into
stored records and lists and clears records by time window. A calling agent runs both checks before answering a
user. It blocks the request when either check detects something, and lets it through when the service cannot be
reached.

Modules, following the program's files:

- `Common` (`common.dfy`): options, results, instants.
- `DistanceStats` (`stats.dfy`): minimum, mean, median, maximum and the below-threshold count of a distance list.
- `VectorDb` (`vector_db.dfy`):
  - the `BaselineStore` class: the collection as a sequence of records, with add, stats, clear and list;
  - the time-window predicate shared by clear and list;
  - `find_similar` and `_calculate_base_stats`;
  - both detection policies.
- `Models` (`models.py` constraints, `models.dfy`): request and result field bounds, `duration_days`, timestamp
  defaults.
- `Server` (`server.dfy`):
  - risk level, reasons, confidence clamp and validation of the two detection endpoints;
  - the clear messages;
  - the upload and add conversions;
  - the sorted retrieval response.
- `ChatService` (`chat_service.dfy`): the agent's graph state as a class with one method per node. Also the edges
  of the graph, fail-open reading of the service's answers, and the blocked message.
- `Integration` (`integration.dfy`):
  - the service's answers on the wire as the agent reads them;
  - whole chats over empty baselines;
  - two store scenarios.

Foreign parts become parameters:

- the embedding model is `embed: string -> Embedding`;
- the nearest-neighbour index's answer is a list of neighbours, ascending, at cosine distances in [0, 2];
- clock readings are `clock: nat -> Instant`;
- `isoformat` is `iso: Instant -> string`;
- the guardrails service, seen from the agent, is `service: DetectCall -> ApiOutcome`;
- the language model is `llm: string -> LlmOutcome`.

Points where the code's behaviour is easy to misread; the model follows the code:

- The anomaly confidence is `1 - median`.
- Both endpoints bucket risk on their score with `> 0.8` high and `> 0.6` medium. So a high anomaly risk means a
  median below 0.2, that is, close to the baseline.
- The cosine distances range over [0, 2].
- A bounded clear that hits a storage exception reports 0 rather than propagating.
- The empty-baseline defaults are unreachable as written. See Findings.

## Model

| member | source | states |
|---|---|---|
| DistanceStats.MinIsLeast | src/guardrails_service/vector_db.py:145 | the minimum is at most every distance and is one of them |
| DistanceStats.MaxIsGreatest | src/guardrails_service/vector_db.py:146 | the maximum is at least every distance and is one of them |
| DistanceStats.AscendingEnds | src/guardrails_service/vector_db.py:145-146 | on the index's ascending answer the minimum is the first distance and the maximum the last |
| DistanceStats.SumBounds | src/guardrails_service/vector_db.py:144 | n distances in [lo, hi] sum to between n·lo and n·hi |
| DistanceStats.MeanBetweenMinAndMax | src/guardrails_service/vector_db.py:143-146 | min ≤ mean ≤ max for every non-empty list |
| DistanceStats.MedianBetweenMinAndMax | src/guardrails_service/vector_db.py:143-146 | min ≤ median ≤ max, with the median taken as the middle value or the average of the two middle values |
| DistanceStats.StatsWithin | src/guardrails_service/vector_db.py:143-146 | distances in [lo, hi] give all four statistics in [lo, hi] |
| DistanceStats.CountBelowBounds | src/guardrails_service/vector_db.py:154 | the below-threshold count never exceeds the number of distances, and is 0 exactly when no distance is below the threshold |
| VectorDb.InWindowIsConjunction | src/guardrails_service/vector_db.py:208-216 | the window chain (both bounds: after ≤ t < before; before only: t < before; after only: t ≥ after; none: all) is the conjunction of two independent optional bounds |
| VectorDb.ClearAndGetAgree | src/guardrails_service/vector_db.py:276-284 | for a record with a parseable timestamp, listing uses exactly the same window as clearing |
| VectorDb.PrepareBatch | src/guardrails_service/vector_db.py:79-89 | one record per request, in order, with consecutive fresh ids, the request as document and metadata holding the request's timestamp (or that iteration's clock reading when absent) and the text length |
| VectorDb.BaselineStore.constructor | src/guardrails_service/vector_db.py:304-310 | an empty collection named by its kind, with the detection defaults as parameters |
| VectorDb.BaselineStore.AddEntry | src/guardrails_service/vector_db.py:60-70 | reports 1 and appends exactly one record: a fresh id, the embedding, and the request as both document and metadata |
| VectorDb.BaselineStore.AddBaselineData | src/guardrails_service/vector_db.py:72-95 | reports the number of requests and appends one record per request, existing records unchanged |
| VectorDb.BaselineStore.GetCollectionStats | src/guardrails_service/vector_db.py:161-164 | the number of stored records and the collection's name |
| VectorDb.SelectForRemoval | src/guardrails_service/vector_db.py:195-223 | the ids of exactly the records whose metadata timestamp parses and lies in the window, in store order |
| VectorDb.KeptIsUnmatched | src/guardrails_service/vector_db.py:197-223 | a record survives a bounded clear iff it was stored and is not removable; records with missing or invalid timestamps always survive |
| VectorDb.DeleteMatchingIsKept | src/guardrails_service/vector_db.py:225-226 | deleting the selected ids leaves exactly the unmatched records, in order |
| VectorDb.RemovedPlusKept | src/guardrails_service/vector_db.py:228 | removed plus kept is the prior count |
| VectorDb.BaselineStore.ClearBaseline | src/guardrails_service/vector_db.py:166-231 | without bounds: reports the prior count and leaves the collection empty under the same name; with bounds: leaves exactly the kept records and reports how many went |
| VectorDb.ListEntries | src/guardrails_service/vector_db.py:252-298 | the loop lists exactly the entries of `Listed`, with the metadata timestamp or, when that is missing, the document's |
| VectorDb.BaselineStore.GetBaselineEntries | src/guardrails_service/vector_db.py:233-301 | the listed entries of the current records, in store order |
| VectorDb.ListedWithinWindow | src/guardrails_service/vector_db.py:273-292 | never more entries than records, and every listed timestamp lies in the window |
| VectorDb.ListedComplete | src/guardrails_service/vector_db.py:273-292 | every record whose timestamp is listable has its entry listed, at the position counted by the listable records before it, so the listing keeps store order |
| VectorDb.ListedCountsRemoved | src/guardrails_service/vector_db.py:197-216 | when all metadata timestamps parse, a listing with given bounds counts exactly the records a clear with the same bounds removes |
| VectorDb.FindSimilar | src/guardrails_service/vector_db.py:109-127 | every distance in order, and the documents strictly closer than the threshold (none without a threshold) |
| VectorDb.SimilarCountIsCountBelow | src/guardrails_service/vector_db.py:117-126 | the number of similar records equals the number of distances strictly below the threshold |
| VectorDb.BaseStatsOf | src/guardrails_service/vector_db.py:129-159 | no distances give the reason-and-threshold dictionary; otherwise min ≤ median ≤ max, min ≤ mean ≤ max and a similar count ≤ the number of distances |
| VectorDb.EmptyAnswerIffEmptyCollection | src/guardrails_service/vector_db.py:136-141 | a query for at least one neighbour returns no distances exactly when the collection is empty |
| VectorDb.BaselineStore.CalculateDetectionScore | src/guardrails_service/vector_db.py:315-325 | the store's policy, with the corrections of the Findings, on the resolved threshold and neighbour count; the empty-baseline default applies exactly when the collection is empty or no neighbour was asked for |
| VectorDb.EmptyBaselineRaisesAsWritten | src/guardrails_service/vector_db.py:327 | as written, both policies raise a missing-key error on an empty baseline |
| VectorDb.EmptyBaselineDefaults | src/guardrails_service/vector_db.py:369-370 | with the defaults reachable: empty Domain baseline anomalous with 1.0, empty Malicious baseline benign with 0.0 |
| VectorDb.AsWrittenAgreesOnNonEmpty | src/guardrails_service/vector_db.py:327-343 | on a non-empty answer the written anomaly policy equals the corrected one; the written malicious policy has the same decision and a complementary confidence |
| VectorDb.AnomalyDecision | src/guardrails_service/vector_db.py:332-341 | anomalous iff median > threshold (equality is not); confidence 1 − median; the detection distance is the median and the metric is "median_distance" |
| VectorDb.AnomalyMeansUpperHalfFar | src/guardrails_service/vector_db.py:336 | a flagged request has every neighbour from the middle on beyond the threshold; an unflagged one has every neighbour up to the middle within it |
| VectorDb.MaliciousDecision | src/guardrails_service/vector_db.py:374-384 | malicious iff the closest distance < threshold (equality is not), iff at least one similar record; detection distance is the minimum and the metric is "min_distance" |
| VectorDb.ExactMatchIsMalicious | src/guardrails_service/vector_db.py:378 | a stored copy of the text (distance 0) is malicious for every positive threshold |
| VectorDb.ThresholdMonotone | src/guardrails_service/vector_db.py:333-336 | lowering the anomaly threshold, or raising the malicious one, never clears a flag |
| Models.DurationDaysIsFloor | src/guardrails_service/models.py:19-21 | the whole days of end − start, rounded down as `timedelta.days` does, negative exactly when end precedes start |
| Server.RiskLevelMonotone | src/guardrails_service/server.py:479-484 | a higher score never gets a lower bucket |
| Server.AnomalyRiskFallsWithDistance | src/guardrails_service/server.py:294-299 | on the anomaly score 1 − median, the bucket falls as the median grows, and is high iff the median is below 0.2 |
| Server.ReasonsChoice | src/guardrails_service/server.py:302-311 | reasons are empty iff not flagged and otherwise one string; the score test comes first, then a count below 3 for anomaly and at least 3 for malicious |
| Server.MaliciousConfidence | src/guardrails_service/server.py:498 | the reported malicious confidence is at least 0.01 and at least the score, and is one of the two |
| Server.DetectEndpoint | src/guardrails_service/models.py:24-34 | an invalid detection request is answered with 422 before any handler runs; a valid one gets the handler's answer |
| Server.ValidRequestQueriesNeighbours | src/guardrails_service/models.py:29-34 | a validated request resolves to a threshold in [0, 1] and asks for at least one neighbour, so the empty-baseline branch is taken exactly when the collection is empty; `compare_to = 0` is answered 422 |
| Server.AnomalyEndpointOnDistances | src/guardrails_service/server.py:287-325 | on a non-empty baseline the endpoint answers iff median ≤ 1, and then reports the policy's flag, the unchanged confidence 1 − median, one reason iff flagged, and the similar count |
| Server.MaliciousEndpointOnDistances | src/guardrails_service/server.py:472-509 | with the corrected confidence, on a non-empty baseline the endpoint always answers, with confidence max(1 − min, 0.01) in [0.01, 1], one reason iff flagged, and high risk iff min < 0.2 |
| Server.FarMaliciousMatchFailsAsWritten | src/guardrails_service/server.py:496-502 | as written, a request whose closest malicious neighbour is farther than 1 gets a confidence above 1, fails result validation and is answered 500 |
| Server.ExactMatchLowRiskAsWritten | src/guardrails_service/vector_db.py:379-380 | as written, an exact malicious match is flagged with confidence 0.01, low risk and without the "closely matches" reason |
| Server.ExactMatchHighRisk | src/guardrails_service/server.py:486-498 | with the inverted confidence, the exact match gets confidence 1, high risk and the "closely matches" reason |
| Server.FlaggedAnomalyNeverHigh | src/guardrails_service/server.py:303-311 | for thresholds ≥ 0.2 a flagged anomaly is never high risk and never gets the "significantly differs" reason |
| Server.ScopeMatchesWindow | src/guardrails_service/server.py:252-261 | the message is chosen by the same branch order (none, both, before only, after only) the store uses for its window |
| Server.ClearMessageNamesScope | src/guardrails_service/server.py:439-446 | only the unbounded message opens with "All"; a bounded one opens with the collection and "between", "before" or "after", exactly as the bounds given, whatever the rendered instants |
| Server.ConvertUpload | src/guardrails_service/server.py:150-161 | one request dictionary per uploaded record, in order, with the record's timestamp or the k-th clock reading |
| Server.ConvertMaliciousUpload | src/guardrails_service/server.py:341-345 | succeeds iff every record has a timestamp, and then converts each one; otherwise HTTP 500 |
| Server.AddPayload | src/guardrails_service/server.py:182-185 | succeeds iff the record has a timestamp |
| Server.UploadAnomalyBaseline | src/guardrails_service/server.py:145-174 | reports the count, keeps the old records and appends one full record per uploaded record; an omitted timestamp is stored as the class-definition instant, only an explicit null as a clock reading |
| Server.UploadMaliciousBaseline | src/guardrails_service/server.py:336-358 | succeeds iff no timestamp is an explicit null, and then keeps the old records and appends one full record per uploaded record, an omitted timestamp stored as the class-definition instant; otherwise HTTP 500 and no change |
| Server.AddToBaseline | src/guardrails_service/server.py:177-198 | appends exactly one full record, at the given or the class-definition instant, iff the timestamp is not an explicit null; otherwise HTTP 500 and no change |
| Server.ClearBaselineEndpoint | src/guardrails_service/server.py:244-269 | the store's removal count and new state, with the message for the bounds given |
| Server.SortByTimeCorrect | src/guardrails_service/server.py:231 | the retrieval order is sorted by timestamp and a permutation of the listed entries |
| Server.GetResponseShape | src/guardrails_service/server.py:225-237 | sorted entries, total_count equal to the number of entries, and filtered iff a bound was given |
| Server.GetBaselineEndpoint | src/guardrails_service/server.py:211-241 | the response for the store's listed entries, never counting more than the stored records |
| ChatService.Interpret | src/agent/chat_service.py:95-114 | a 200 answer's flag (false when absent), reasons and stats; anything else leaves nothing detected |
| ChatService.TraceFollowsEdges | src/agent/chat_service.py:55-67 | the run is the walk of the edges from START to END, malicious check before anomaly check before evaluation, with generate visited iff passed and blocked iff not |
| ChatService.JoinContainsParts | src/agent/chat_service.py:262 | every joined reason occurs in the joined string |
| ChatService.BlockedReasons | src/agent/chat_service.py:246-252 | the anomaly reasons (only if detected) followed by the malicious reasons (only if detected) |
| ChatService.BlockedMessageListsReasons | src/agent/chat_service.py:254-262 | the blocked answer starts with the canned text, is exactly it iff there are no reasons, and otherwise contains every reason |
| ChatService.GraphState.constructor | src/agent/chat_service.py:300-313 | nothing detected, guardrails passed, no reasons, no details, no messages |
| ChatService.GraphState.CheckMaliciousNode | src/agent/chat_service.py:124-173 | writes the interpreted malicious answer and nothing else |
| ChatService.GraphState.CheckAnomalyNode | src/agent/chat_service.py:71-122 | writes the interpreted anomaly answer and nothing else |
| ChatService.GraphState.EvaluateGuardrailsNode | src/agent/chat_service.py:184-185 | passed iff neither check detected anything |
| ChatService.GraphState.BlockedResponseNode | src/agent/chat_service.py:246-277 | the answer is the blocked message for the detected checks' reasons, appended as exactly one AI message |
| ChatService.GraphState.GenerateResponseNode | src/agent/chat_service.py:200-235 | a failed model call raises after setting the apology; a reply is appended with its prompt and answered, or replaced by the apology when its metadata is incomplete |
| ChatService.GraphState.Run | src/agent/chat_service.py:43-69 | the fixed node order, both checks' results, the OR of the flags, and the blocked or generated answer |
| ChatService.Chat | src/agent/chat_service.py:279-343 | a detection gives the blocked message; otherwise the model's answer; a graph exception gives the error text with empty details |
| ChatService.BlockedChatListsReasons | src/agent/chat_service.py:246-262 | a blocked chat names every reason of every check that detected something |
| Integration.WireCarriesDecision | src/agent/chat_service.py:95-104 | the agent detects exactly what the service answered with a flag, and takes its reasons and stats |
| Integration.InvalidThresholdFailsOpen | src/guardrails_service/models.py:29-31 | a threshold outside [0, 1] is rejected by the service, so the agent's check passes |
| Integration.EmptyBaselineFailsOpenAsWritten | src/guardrails_service/vector_db.py:327 | as written, empty baselines answer 500 and the agent detects nothing |
| Integration.EmptyBaselineDefaultsOnTheWire | src/guardrails_service/vector_db.py:328 | with the defaults, an empty traffic baseline flags every request as high risk with "significantly differs", and an empty malicious baseline flags none |
| Integration.FarOutlierFailsOpen | src/guardrails_service/models.py:39-41 | a request with median distance above 1 is anomalous, yet fails result validation and is not blocked |
| Integration.ChatOverEmptyBaselinesAsWritten | src/agent/chat_service.py:110-114 | as written, a chat over empty baselines reaches the language model |
| Integration.ChatOverEmptyBaselinesCorrected | src/agent/chat_service.py:254-262 | with the defaults, the same chat is blocked with the anomaly reason |
| Integration.UploadThenCount | src/guardrails_service/vector_db.py:161-164 | uploading N records to a fresh store reports N, and the stats then count N |
| Integration.WindowScenario | src/guardrails_service/vector_db.py:208-216 | with t1 < t2 < t3, listing after t2 gives the last two entries in order, listing before t3 the first two, and clearing before t2 removes one and leaves two |
| Integration.BetweenScenario | src/guardrails_service/vector_db.py:208-210 | with t1 < t2 < t3, clearing between t2 and t3 removes only the middle record, and an unbounded listing then gives the first and the last |

## Left out

- The embedding model (tokenizer, transformer, mean pooling) is the parameter `embed`; its floating-point behaviour and dimension are not modelled.
- The nearest-neighbour search is not modelled. Its answer is an input, constrained by `IsNearestAnswer`: the right count, drawn from the collection, ascending, in [0, 2]. Which records are nearest is not modelled.
- Chroma's persistence, HNSW index and the drop-and-recreate of a collection are modelled as replacing the record sequence.
- `uuid4` ids are a counter; id uniqueness follows from it.
- `datetime.now()` readings are the parameter `clock`. `isoformat`/`fromisoformat` and time zones are not modelled: a stored timestamp is an instant, missing, or unparseable.
- JSON (de)serialisation of documents is not modelled: a document is its parsed request.
- Storage exceptions are not modelled: bounded clear reports 0, listing returns [], and stats raise as HTTP 500.
- A non-string metadata timestamp is not modelled.
- Numpy and float rounding: distances and statistics are exact reals.
- Median: computed on the index's already ascending answer, so numpy's own sort is not modelled.
- FastAPI routing, CORS, the startup loader, request ids and response times are not modelled. Health and root endpoints are not modelled.
- The stats endpoints only pass `BaselineStore.GetCollectionStats` through and are not modelled separately.
- The agent's HTTP transport (timeouts, JSON decoding) is folded into `ApiOutcome.Raised`.
- OpenTelemetry spans and their attributes, including the `json.dumps` of details, are not modelled.
- The LLM call is the parameter `llm`. Message identity and LangGraph's `add_messages` reducer are modelled as plain appends.
- Environment variables for thresholds, `compare_to`, URLs and the model name are constructor parameters or constants.
- The agent's own HTTP server and models (endpoint wiring, default thresholds) are not modelled.
- Dataset loading, the dataset manager and the web UI are not part of this model.
- Concurrency is not modelled: each request is handled to completion before the next.
- VectorDb.BaselineStore.CalculateDetectionScore: states the corrected policies of the Findings: the empty-baseline defaults, and the confidence `1 - min`. As written, vector_db.py:327 raises on an empty baseline and vector_db.py:380 reports `min`. `AnomalyScoreAsWritten` and `MaliciousScoreAsWritten` model the code as written.
- Server.MaliciousEndpointOnDistances: "always answers" holds for the corrected confidence `1 - min` only. As written the endpoint answers 500 whenever the closest neighbour is farther than 1, which `FarMaliciousMatchFailsAsWritten` shows.
- Server.SortByTimeCorrect: proves sorted and permutation but not stability. The sort is modelled on values, not in place.
- ChatService.GraphState.Run: runs the nodes in the compiled order rather than interpreting the graph; `TraceFollowsEdges` ties that order to the edges.

## Findings

| source | as written | input that shows it | evidently intended | confidence | as-written member | corrected member |
|---|---|---|---|---|---|---|
| src/guardrails_service/vector_db.py:327 | the empty-baseline test reads `stats["distances"]`, a key the no-baseline dictionary (vector_db.py:140-141) lacks, so both policies raise and the endpoints answer 500 | any detection request against an empty collection | the written defaults: anomalous with 1.0 for the traffic baseline, benign with 0.0 for the malicious one | not executed; high | VectorDb.EmptyBaselineRaisesAsWritten | VectorDb.EmptyBaselineDefaults |
| src/guardrails_service/vector_db.py:379-380 | the malicious confidence is `min_distance` itself despite the comment saying it is inverted, so closer matches score lower | a request identical to a stored malicious text (distance 0) with threshold 0.25: flagged, confidence 0.01, risk low, never "closely matches" | confidence `1 - min_distance`: the exact match scores 1.0, high risk, "closely matches" | not executed; medium | Server.ExactMatchLowRiskAsWritten | Server.ExactMatchHighRisk |
| src/guardrails_service/vector_db.py:379-380 | the same uninverted confidence reaches `max(min, 0.01)` at server.py:498, which exceeds the result's upper bound of 1 when the closest malicious neighbour is farther than 1, so such requests are answered 500 | a request whose nearest malicious neighbour lies at distance 1.5 | confidence `max(1 - min, 0.01)`, always within [0.01, 1], so the endpoint answers every request on a non-empty baseline | not executed; medium | Server.FarMaliciousMatchFailsAsWritten | Server.MaliciousEndpointOnDistances |
