/** Rule records and the priority policies that resolve and rank them. */
module Guidelines {
  import opened Text

  datatype ConflictAction = Compatible | Overridden | Excluded | ReferenceOnly

  datatype Reviewability = AutoReview | ManualOnly | OnlyReference

  /** The empty string stands for an absent id. A record always has a pack: making one fills it in. */
  datatype Record = Record(
    id: string,
    ruleNo: string,
    packId: string,
    conflictAction: ConflictAction,
    reason: Option<string>,
    overriddenBy: seq<string>,
    explicitOverride: bool,
    active: bool,
    reviewability: Reviewability,
    priorityTier: string,
    packWeight: real,
    baseScore: real,
    severityDefault: real,
    specificity: real)

  /** The empty string stands for a part the selector does not look at. */
  datatype Match = Match(ruleId: string, ruleNo: string, packId: string)

  datatype Exclusion = Exclusion(match_: Match, rationale: Option<string>)

  /** The action is overridden or excluded. */
  datatype Override = Override(match_: Match, excludes: bool, overriddenBy: seq<string>, rationale: Option<string>)

  datatype Policy = Policy(
    tieBreakers: seq<string>,
    tierOrder: seq<string>,
    exclusions: seq<Exclusion>,
    overrides: seq<Override>)
}
