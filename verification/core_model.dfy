/** Vocabulary shared by the validators over several objects. */
module CoreModel {
  type Identifier = string

  datatype EvidenceType = SourceFragment | MemoryDecision | MemoryRecord | DeleteRequest | PolicyBasis

  /** Why objects do not belong together, or why an object cannot be built. */
  datatype Reason =
    | MissingReference
    | NamespaceMismatch
    | IdentityMismatch
    | DuplicateObject
    | GovernanceMismatch
    | RecallBlocked
    | SourceSliceMismatch
    | FragmentSetMismatch
    | MaterializationMismatch
    | StateProjectionMismatch
    | EventChainConflict
    | CitationMismatch
    | TimeAlignmentMismatch
    | DeletionPlanMismatch
    | InvalidStateTransition
    | DuplicateValue
}
