/** The stored rows and the values the phases of a review run pass around. */
module Records {
  import opened Text

  // ----- thread rows -------------------------------------------------------------------------

  datatype Status = Open | Stale | Resolved

  /** Why a thread row has the status it has. */
  datatype Reason =
    | NoReason
    | RemoteReopened
    | AnchorChanged
    | ResolveFailed
    | NoLongerEligible
    | FixedInFollowup
    | RemoteManualOnly

  datatype Thread = Thread(
    ref: string,
    commentRef: Option<string>,
    fingerprint: string,
    anchor: string,
    bodyHash: string,
    decisionId: Option<int>,
    status: Status,
    reason: Reason,
    headSha: Option<string>,
    updatedAt: int)

  // ----- finding decisions -------------------------------------------------------------------

  datatype DecisionState = Eligible | Published | FailedPublication | Suppressed | ResolvedFinding

  datatype Suppression = NotSuppressed | FeedbackIgnore | FeedbackFalsePositive | OtherSuppression

  datatype Decision = Decision(
    id: int,
    runId: int,
    fingerprint: string,
    filePath: string,
    ruleNo: string,
    lineNo: Option<int>,
    score: real,
    createdAt: int,
    updatedAt: int,
    anchor: string,
    state: DecisionState,
    suppression: Suppression)

  // ----- publication candidates --------------------------------------------------------------

  datatype BacklogReason = NotBacklog | FeedbackLater | ExistingOpenThread | ResolvedUnchanged

  datatype Candidate = Candidate(
    decision: Decision,
    publicationKey: (string, Option<int>, string),
    categoryKey: Option<(string, int, string)>,
    bodyHash: string,
    canonicalBodyHash: string,
    existing: Option<Thread>,
    priorityGroup: int,
    reminder: bool,
    backlogOnly: bool,
    backlogReason: BacklogReason)
}
