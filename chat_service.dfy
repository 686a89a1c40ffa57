/**
 * The calling agent's guardrail workflow: a state that flows through the
 * graph START -> check_malicious -> check_anomaly -> evaluate_guardrails ->
 * (generate_response | blocked_response) -> END. The two checks call the
 * guardrails service and fail open; the blocked branch answers with a
 * canned message listing the reasons.
 */
module ChatService {
  import opened Common

  // ----------------------------------------------------------------------
  // Values exchanged with the outside

  datatype Role = Human | Ai
  datatype Message = Message(role: Role, content: string)

  /** A `baseline_stats` object, carried through without being inspected. */
  type Details = map<string, string>

  /** The `result` object of a detection response; `None` is an absent key. */
  datatype ResultBody = ResultBody(flag: Option<bool>, reasons: Option<seq<string>>)

  /** A decoded JSON response body; `None` is an absent key. */
  datatype ResponseBody = ResponseBody(result: Option<ResultBody>, baselineStats: Option<Details>)

  /**
   * What a POST to the guardrails service produces: an exception (connection
   * error, the 10 second timeout, a body that is not JSON) or a status with
   * its body.
   */
  datatype ApiOutcome = Raised | Answered(status: int, body: ResponseBody)

  /** The request a check sends: the endpoint path, the user input and the check's threshold. */
  datatype DetectCall = DetectCall(endpoint: string, text: string, threshold: real)

  const AnomalyEndpoint: string := "/anomaly/detect"
  const MaliciousEndpoint: string := "/malicious/detect"

  /**
   * What the language model call produces: an exception, or a reply whose
   * metadata either carries the token counts and model name the node reads
   * (`usageComplete`) or lacks one of them.
   */
  datatype LlmOutcome = LlmRaised | LlmReply(content: string, usageComplete: bool)

  /** What one check writes into the state. */
  datatype CheckOutcome = CheckOutcome(detected: bool, reasons: seq<string>, details: Details)

  /**
   * The state update of a check node: the flag, reasons and stats of a 200
   * response (each defaulting when its key is absent); anything else leaves
   * the check passed with no reasons and no details.
   */
  function Interpret(outcome: ApiOutcome): (c: CheckOutcome)
    ensures outcome.Raised? || outcome.status != 200 ==> c == CheckOutcome(false, [], map[])
    ensures c.detected <==> outcome.Answered? && outcome.status == 200
                            && outcome.body.result.Some? && outcome.body.result.value.flag == Some(true)
    ensures c.reasons != [] ==> outcome.Answered? && outcome.status == 200 && outcome.body.result.Some?
                                && outcome.body.result.value.reasons == Some(c.reasons)
  {
    if outcome.Raised? || outcome.status != 200 then CheckOutcome(false, [], map[])
    else
      var result := outcome.body.result.GetOr(ResultBody(None, None));
      CheckOutcome(result.flag.GetOr(false), result.reasons.GetOr([]), outcome.body.baselineStats.GetOr(map[]))
  }

  // ----------------------------------------------------------------------
  // The graph

  datatype Node = Start | CheckMalicious | CheckAnomaly | EvaluateGuardrails | GenerateResponse | BlockedResponse | End

  /** The edges of the compiled graph; the conditional edge reads `guardrails_passed`. */
  function Successor(n: Node, passed: bool): Node {
    match n
    case Start => CheckMalicious
    case CheckMalicious => CheckAnomaly
    case CheckAnomaly => EvaluateGuardrails
    case EvaluateGuardrails => if passed then GenerateResponse else BlockedResponse
    case GenerateResponse => End
    case BlockedResponse => End
    case End => End
  }

  /** The nodes one run visits, in order. */
  function Trace(passed: bool): seq<Node> {
    [Start, CheckMalicious, CheckAnomaly, EvaluateGuardrails, if passed then GenerateResponse else BlockedResponse, End]
  }

  /**
   * The trace is the walk along the edges from START to END; both checks run
   * before the evaluation, malicious first, and exactly one of the two
   * answering nodes is visited.
   */
  lemma TraceFollowsEdges(passed: bool)
    ensures var t := Trace(passed);
            && t[0] == Start && t[|t| - 1] == End
            && (forall i :: 0 <= i < |t| - 1 ==> t[i + 1] == Successor(t[i], passed) && t[i] != End)
            && (GenerateResponse in t <==> passed)
            && (BlockedResponse in t <==> !passed)
            && (forall i :: 0 <= i < |t| && t[i] == EvaluateGuardrails ==>
                  CheckMalicious in t[..i] && CheckAnomaly in t[..i])
  {
    var t := Trace(passed);
    forall i | 0 <= i < |t| && t[i] == EvaluateGuardrails
      ensures CheckMalicious in t[..i] && CheckAnomaly in t[..i]
    {
      assert i == 3;
      assert t[..i][1] == CheckMalicious && t[..i][2] == CheckAnomaly;
    }
  }

  // ----------------------------------------------------------------------
  // The blocked answer

  const CannedMessage: string :=
    "I'm sorry, but I cannot process your request at this time. "
    + "Our safety systems have detected potential issues with your input. "
    + "Please rephrase your request or contact support if you believe this is an error."

  /** The text `generate_response` falls back to when the model call fails. */
  const ApologyMessage: string := "I'm sorry, but I cannot process your request at this time."

  /** `chat`'s default when the graph produced no state. */
  const ErrorMessage: string := "An error occurred while processing the request"

  /** `sep.join(parts)`. */
  function Join(parts: seq<string>, sep: string): string {
    if parts == [] then ""
    else if |parts| == 1 then parts[0]
    else Join(parts[..|parts| - 1], sep) + sep + parts[|parts| - 1]
  }

  /** `part` occurs in `s` starting at index `k`. */
  predicate OccursAt(s: string, part: string, k: int) {
    0 <= k <= |s| - |part| && s[k..k + |part|] == part
  }

  /** Python's `part in s`. */
  predicate Contains(s: string, part: string) {
    exists k :: 0 <= k <= |s| && OccursAt(s, part, k)
  }

  lemma ContainsInLeft(a: string, b: string, part: string)
    requires Contains(a, part)
    ensures Contains(a + b, part)
  {
    var k :| 0 <= k <= |a| && OccursAt(a, part, k);
    assert k + |part| <= |a| && a[k..k + |part|] == part;
    assert (a + b)[k..k + |part|] == a[k..k + |part|];
    assert OccursAt(a + b, part, k);
  }

  lemma ContainsInRight(a: string, b: string, part: string)
    requires Contains(b, part)
    ensures Contains(a + b, part)
  {
    var k :| 0 <= k <= |b| && OccursAt(b, part, k);
    assert k + |part| <= |b| && b[k..k + |part|] == part;
    assert (a + b)[|a| + k..|a| + k + |part|] == b[k..k + |part|];
    assert OccursAt(a + b, part, |a| + k);
  }

  /** Every joined part occurs in the joined string. */
  lemma {:induction false} JoinContainsParts(parts: seq<string>, sep: string)
    ensures forall i :: 0 <= i < |parts| ==> Contains(Join(parts, sep), parts[i])
  {
    if |parts| == 1 {
      assert OccursAt(Join(parts, sep), parts[0], 0);
    } else if |parts| > 1 {
      var init, last := parts[..|parts| - 1], parts[|parts| - 1];
      JoinContainsParts(init, sep);
      forall i | 0 <= i < |parts| ensures Contains(Join(parts, sep), parts[i]) {
        if i < |parts| - 1 {
          assert parts[i] == init[i];
          ContainsInLeft(Join(init, sep), sep + last, parts[i]);
          assert Join(init, sep) + (sep + last) == Join(parts, sep);
        } else {
          assert OccursAt(last, last, 0);
          ContainsInRight(Join(init, sep) + sep, last, last);
        }
      }
    }
  }

  /** The anomaly reasons when anomaly was detected, then the malicious reasons when malicious was detected. */
  function BlockedReasons(anomalyDetected: bool, anomalyReasons: seq<string>,
                          maliciousDetected: bool, maliciousReasons: seq<string>): (rs: seq<string>)
    ensures |rs| == (if anomalyDetected then |anomalyReasons| else 0) + (if maliciousDetected then |maliciousReasons| else 0)
    ensures anomalyDetected ==> rs[..|anomalyReasons|] == anomalyReasons
    ensures maliciousDetected ==> rs[|rs| - |maliciousReasons|..] == maliciousReasons
  {
    (if anomalyDetected then anomalyReasons else []) + (if maliciousDetected then maliciousReasons else [])
  }

  function BlockedMessage(reasons: seq<string>): string {
    if reasons == [] then CannedMessage else CannedMessage + "\n\nReasons: " + Join(reasons, "; ")
  }

  /**
   * The blocked answer always opens with the canned text, is exactly the
   * canned text when there are no reasons, and otherwise names every reason.
   */
  lemma BlockedMessageListsReasons(reasons: seq<string>)
    ensures |BlockedMessage(reasons)| >= |CannedMessage| && BlockedMessage(reasons)[..|CannedMessage|] == CannedMessage
    ensures reasons == [] <==> BlockedMessage(reasons) == CannedMessage
    ensures forall i :: 0 <= i < |reasons| ==> Contains(BlockedMessage(reasons), reasons[i])
  {
    if reasons != [] {
      JoinContainsParts(reasons, "; ");
      forall i | 0 <= i < |reasons| ensures Contains(BlockedMessage(reasons), reasons[i]) {
        ContainsInRight(CannedMessage + "\n\nReasons: ", Join(reasons, "; "), reasons[i]);
      }
      assert |BlockedMessage(reasons)| > |CannedMessage|;
    }
  }

  // ----------------------------------------------------------------------
  // The state

  class GraphState {
    var messages: seq<Message>
    var userInput: string
    var anomalyDetected: bool
    var maliciousDetected: bool
    var anomalyReasons: seq<string>
    var maliciousReasons: seq<string>
    var anomalyDetails: Details
    var maliciousDetails: Details
    var anomalyThreshold: real
    var maliciousThreshold: real
    var guardrailsPassed: bool
    var finalResponse: string

    /** The initial state `chat` builds: nothing detected, guardrails passed, no messages. */
    constructor (input: string, anomalyT: real, maliciousT: real)
      ensures messages == [] && userInput == input && finalResponse == ""
      ensures !anomalyDetected && !maliciousDetected && guardrailsPassed
      ensures anomalyReasons == [] && maliciousReasons == [] && anomalyDetails == map[] && maliciousDetails == map[]
      ensures anomalyThreshold == anomalyT && maliciousThreshold == maliciousT
    {
      messages := [];
      userInput := input;
      anomalyDetected, maliciousDetected := false, false;
      anomalyReasons, maliciousReasons := [], [];
      anomalyDetails, maliciousDetails := map[], map[];
      anomalyThreshold, maliciousThreshold := anomalyT, maliciousT;
      guardrailsPassed := true;
      finalResponse := "";
    }

    function Anomaly(): CheckOutcome
      reads this
    {
      CheckOutcome(anomalyDetected, anomalyReasons, anomalyDetails)
    }

    function Malicious(): CheckOutcome
      reads this
    {
      CheckOutcome(maliciousDetected, maliciousReasons, maliciousDetails)
    }

    /** `_check_anomaly`: writes the three anomaly fields and nothing else. */
    method CheckAnomalyNode(service: DetectCall -> ApiOutcome)
      modifies this
      ensures Anomaly() == Interpret(service(DetectCall(AnomalyEndpoint, userInput, anomalyThreshold)))
      ensures Malicious() == old(Malicious()) && guardrailsPassed == old(guardrailsPassed)
      ensures messages == old(messages) && finalResponse == old(finalResponse) && userInput == old(userInput)
      ensures anomalyThreshold == old(anomalyThreshold) && maliciousThreshold == old(maliciousThreshold)
    {
      var c := Interpret(service(DetectCall(AnomalyEndpoint, userInput, anomalyThreshold)));
      anomalyDetected, anomalyReasons, anomalyDetails := c.detected, c.reasons, c.details;
    }

    /** `_check_malicious`: writes the three malicious fields and nothing else. */
    method CheckMaliciousNode(service: DetectCall -> ApiOutcome)
      modifies this
      ensures Malicious() == Interpret(service(DetectCall(MaliciousEndpoint, userInput, maliciousThreshold)))
      ensures Anomaly() == old(Anomaly()) && guardrailsPassed == old(guardrailsPassed)
      ensures messages == old(messages) && finalResponse == old(finalResponse) && userInput == old(userInput)
      ensures anomalyThreshold == old(anomalyThreshold) && maliciousThreshold == old(maliciousThreshold)
    {
      var c := Interpret(service(DetectCall(MaliciousEndpoint, userInput, maliciousThreshold)));
      maliciousDetected, maliciousReasons, maliciousDetails := c.detected, c.reasons, c.details;
    }

    /** `_evaluate_guardrails`: passed exactly when neither check detected anything. */
    method EvaluateGuardrailsNode()
      modifies this
      ensures guardrailsPassed <==> !anomalyDetected && !maliciousDetected
      ensures Anomaly() == old(Anomaly()) && Malicious() == old(Malicious())
      ensures messages == old(messages) && finalResponse == old(finalResponse) && userInput == old(userInput)
      ensures anomalyThreshold == old(anomalyThreshold) && maliciousThreshold == old(maliciousThreshold)
    {
      guardrailsPassed := !(anomalyDetected || maliciousDetected);
    }

    /** `_blocked_response`: the canned answer with the reasons, appended as one AI message. */
    method BlockedResponseNode()
      modifies this
      ensures finalResponse == BlockedMessage(BlockedReasons(anomalyDetected, anomalyReasons, maliciousDetected, maliciousReasons))
      ensures messages == old(messages) + [Message(Ai, finalResponse)]
      ensures Anomaly() == old(Anomaly()) && Malicious() == old(Malicious())
      ensures guardrailsPassed == old(guardrailsPassed) && userInput == old(userInput)
      ensures anomalyThreshold == old(anomalyThreshold) && maliciousThreshold == old(maliciousThreshold)
    {
      var reasons := BlockedReasons(anomalyDetected, anomalyReasons, maliciousDetected, maliciousReasons);
      finalResponse := BlockedMessage(reasons);
      messages := messages + [Message(Ai, finalResponse)];
    }

    /**
     * `_generate_response`. A failed model call sets the apology, after which
     * the `finally` block reads `response_metadata` of the empty dict and
     * raises (`ok` is false). A reply is appended with the prompt; the
     * apology replaces it as the answer when its metadata is incomplete.
     */
    method GenerateResponseNode(llm: string -> LlmOutcome) returns (ok: bool)
      modifies this
      ensures ok <==> llm(userInput).LlmReply?
      ensures !ok ==> finalResponse == ApologyMessage && messages == old(messages)
      ensures ok ==> messages == old(messages) + [Message(Human, userInput), Message(Ai, llm(userInput).content)]
      ensures ok ==> finalResponse == if llm(userInput).usageComplete then llm(userInput).content else ApologyMessage
      ensures Anomaly() == old(Anomaly()) && Malicious() == old(Malicious())
      ensures guardrailsPassed == old(guardrailsPassed) && userInput == old(userInput)
      ensures anomalyThreshold == old(anomalyThreshold) && maliciousThreshold == old(maliciousThreshold)
    {
      var reply := llm(userInput);
      match reply {
        case LlmRaised =>
          finalResponse := ApologyMessage;
          ok := false;
        case LlmReply(content, usageComplete) =>
          finalResponse := content;
          messages := messages + [Message(Human, userInput), Message(Ai, finalResponse)];
          if !usageComplete {
            finalResponse := ApologyMessage;
          }
          ok := true;
      }
    }

    /**
     * One run of the compiled graph. `ok` is false when a node raised; the
     * visited nodes are the trace of the edges for the evaluated outcome.
     */
    method Run(service: DetectCall -> ApiOutcome, llm: string -> LlmOutcome) returns (ok: bool, visited: seq<Node>)
      modifies this
      ensures Malicious() == Interpret(service(DetectCall(MaliciousEndpoint, userInput, maliciousThreshold)))
      ensures Anomaly() == Interpret(service(DetectCall(AnomalyEndpoint, userInput, anomalyThreshold)))
      ensures userInput == old(userInput)
      ensures anomalyThreshold == old(anomalyThreshold) && maliciousThreshold == old(maliciousThreshold)
      ensures guardrailsPassed <==> !anomalyDetected && !maliciousDetected
      ensures ok ==> visited == Trace(guardrailsPassed)
      ensures !guardrailsPassed ==>
                ok && finalResponse == BlockedMessage(BlockedReasons(anomalyDetected, anomalyReasons, maliciousDetected, maliciousReasons))
                && messages == old(messages) + [Message(Ai, finalResponse)]
      ensures guardrailsPassed ==> (ok <==> llm(userInput).LlmReply?)
      ensures guardrailsPassed && ok ==>
                finalResponse == (if llm(userInput).usageComplete then llm(userInput).content else ApologyMessage)
                && messages == old(messages) + [Message(Human, userInput), Message(Ai, llm(userInput).content)]
    {
      visited := [Start, CheckMalicious];
      CheckMaliciousNode(service);
      visited := visited + [CheckAnomaly];
      CheckAnomalyNode(service);
      visited := visited + [EvaluateGuardrails];
      EvaluateGuardrailsNode();
      if guardrailsPassed {
        visited := visited + [GenerateResponse];
        ok := GenerateResponseNode(llm);
      } else {
        visited := visited + [BlockedResponse];
        BlockedResponseNode();
        ok := true;
      }
      visited := visited + [End];
    }
  }

  /**
   * `ChatService.chat`: runs the graph on a fresh state and returns the
   * answer with both checks' details. When the graph raises, the `finally`
   * block's `return` discards the exception and the caller gets the error
   * text with empty details.
   */
  method Chat(message: string, anomalyThreshold: real, maliciousThreshold: real,
              service: DetectCall -> ApiOutcome, llm: string -> LlmOutcome)
    returns (response: string, anomalyDetails: Details, maliciousDetails: Details)
    ensures var m := Interpret(service(DetectCall(MaliciousEndpoint, message, maliciousThreshold)));
            var a := Interpret(service(DetectCall(AnomalyEndpoint, message, anomalyThreshold)));
            && (a.detected || m.detected ==>
                  response == BlockedMessage(BlockedReasons(a.detected, a.reasons, m.detected, m.reasons))
                  && anomalyDetails == a.details && maliciousDetails == m.details)
            && (!a.detected && !m.detected && llm(message).LlmRaised? ==>
                  response == ErrorMessage && anomalyDetails == map[] && maliciousDetails == map[])
            && (!a.detected && !m.detected && llm(message).LlmReply? ==>
                  response == (if llm(message).usageComplete then llm(message).content else ApologyMessage)
                  && anomalyDetails == a.details && maliciousDetails == m.details)
  {
    var state := new GraphState(message, anomalyThreshold, maliciousThreshold);
    var ok, _ := state.Run(service, llm);
    if ok {
      response, anomalyDetails, maliciousDetails := state.finalResponse, state.anomalyDetails, state.maliciousDetails;
    } else {
      response, anomalyDetails, maliciousDetails := ErrorMessage, map[], map[];
    }
  }

  /** A string that contains every element of `rs` contains every element of a slice of it. */
  lemma ContainsSlice(msg: string, rs: seq<string>, lo: nat, hi: nat)
    requires lo <= hi <= |rs|
    requires forall i :: 0 <= i < |rs| ==> Contains(msg, rs[i])
    ensures forall j :: 0 <= j < hi - lo ==> Contains(msg, rs[lo..hi][j])
  {
    forall j | 0 <= j < hi - lo ensures Contains(msg, rs[lo..hi][j]) {
      assert rs[lo..hi][j] == rs[lo + j];
    }
  }

  /**
   * A request with any detection is answered by the blocked message, which
   * lists every reason of every check that detected something.
   */
  lemma BlockedChatListsReasons(a: CheckOutcome, m: CheckOutcome)
    requires a.detected || m.detected
    ensures var msg := BlockedMessage(BlockedReasons(a.detected, a.reasons, m.detected, m.reasons));
            && msg[..|CannedMessage|] == CannedMessage
            && (a.detected ==> forall i :: 0 <= i < |a.reasons| ==> Contains(msg, a.reasons[i]))
            && (m.detected ==> forall i :: 0 <= i < |m.reasons| ==> Contains(msg, m.reasons[i]))
  {
    var rs := BlockedReasons(a.detected, a.reasons, m.detected, m.reasons);
    var msg := BlockedMessage(rs);
    BlockedMessageListsReasons(rs);
    if a.detected {
      ContainsSlice(msg, rs, 0, |a.reasons|);
      assert rs[0..|a.reasons|] == a.reasons;
    }
    if m.detected {
      var off := |rs| - |m.reasons|;
      ContainsSlice(msg, rs, off, |rs|);
      assert rs[off..|rs|] == m.reasons;
    }
  }
}
