/** Events and reject reasons (internal/domain). */
module Domain {
  import opened Prelude

  /** The fields of an event that the ingest pipeline reads. */
  datatype SearchEvent = SearchEvent(
    eventID: string,
    ingestedAtMS: int,
    queryRaw: string,
    ipHash: string,
    sessionIDHash: string,
    userIDHash: Option<string>)

  // Go's RejectReason is a string type, so a validator may return any label.
  type RejectReason = string

  const UNKNOWN_REJECT: RejectReason := "UNKNOWN_REJECT_REASON"
  const INVALID_QUERY: RejectReason := "INVALID_QUERY"
  const DUPLICATE_EVENT_ID: RejectReason := "DUPLICATE_EVENT_ID"
  const MISSING_IDENTIFIERS: RejectReason := "ANTI_FRAUD_MISSING_IDENTIFIERS"
  const IP_RATE_LIMIT: RejectReason := "ANTI_FRAUD_IP_RATE_LIMIT"
  const IP_BLOCKED: RejectReason := "ANTI_FRAUD_IP_BLOCKED"
  const CONTRIBUTION_CAP: RejectReason := "ANTI_FRAUD_CONTRIBUTION_CAP"
  const SESSION_ENTROPY: RejectReason := "ANTI_FRAUD_SESSION_ENTROPY"
  const DEGRADED: RejectReason := "ANTI_FRAUD_DEGRADED"
}
