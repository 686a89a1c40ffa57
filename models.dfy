/**
 * The request and result models of the guardrails service: the field bounds
 * pydantic enforces, `BaselineDataset.duration_days`, and the default
 * timestamp of `TrafficRecord` and `IncomingRequest`.
 */
module Models {
  import opened Common

  /** A field as it arrives on the wire: left out, explicitly `null`, or given. */
  datatype Field<T> = Omitted | Null | Given(value: T)

  /**
   * The value pydantic stores for the `timestamp` field. Its default is
   * `datetime.now()` evaluated once when the class is defined, so an omitted
   * field gets `definedAt`, the same instant for every request.
   */
  function FieldTimestamp(f: Field<Instant>, definedAt: Instant): Option<Instant> {
    match f
    case Omitted => Some(definedAt)
    case Null => None
    case Given(t) => Some(t)
  }

  /** `TrafficRecord`: the element of an upload and the body of an add, once parsed. */
  datatype TrafficRecord = TrafficRecord(timestamp: Option<Instant>, text: string)

  /** A `TrafficRecord` body as it arrives, before pydantic fills in the default. */
  datatype TrafficRecordBody = TrafficRecordBody(timestamp: Field<Instant>, text: string)

  function ParseTrafficRecord(body: TrafficRecordBody, definedAt: Instant): TrafficRecord {
    TrafficRecord(FieldTimestamp(body.timestamp, definedAt), body.text)
  }

  /** `IncomingRequest`: the body of a detection call. */
  datatype IncomingRequest = IncomingRequest(text: string, timestamp: Option<Instant>,
                                             threshold: Option<real>, compareTo: Option<int>)

  /** `threshold: Optional[float] = Field(None, ge=0.0, le=1.0)`. */
  predicate ValidThreshold(t: Option<real>) {
    t.None? || 0.0 <= t.value <= 1.0
  }

  /** `compare_to: Optional[int] = Field(None, ge=1)`. */
  predicate ValidCompareTo(k: Option<int>) {
    k.None? || k.value >= 1
  }

  predicate ValidIncomingRequest(req: IncomingRequest) {
    ValidThreshold(req.threshold) && ValidCompareTo(req.compareTo)
  }

  /** `AnomalyResult` / `MaliciousResult`: confidence in [0, 1] and a non-negative count. */
  predicate ValidResult(confidence: real, similarCount: int) {
    0.0 <= confidence <= 1.0 && similarCount >= 0
  }

  /** `(end_date - start_date).days`: whole days, rounded toward negative infinity as `timedelta` does. */
  function DurationDays(start: Instant, end: Instant): int {
    (end - start) / MicrosPerDay
  }

  /** The duration is the unique whole-day count d with d days <= end - start < d + 1 days. */
  lemma DurationDaysIsFloor(start: Instant, end: Instant)
    ensures DurationDays(start, end) * MicrosPerDay <= end - start < (DurationDays(start, end) + 1) * MicrosPerDay
    ensures DurationDays(start, end) >= 0 <==> end >= start
  {
  }
}
