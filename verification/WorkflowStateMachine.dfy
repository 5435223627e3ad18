/** The workflow status graph (workflow-state-machine.ts). */
module WorkflowStateMachine {
  datatype Status =
    | Draft
    | PendingApproval
    | ReturnedToCreator
    | Rejected
    | PendingReviewCycle
    | AvailableForFinalUsers
    | AdminCycleInProgress
    | Closed
    | Cancelled

  function ValidTransitions(current: Status): seq<Status> {
    match current
    case Draft => [PendingApproval]
    case PendingApproval => [PendingReviewCycle, AvailableForFinalUsers, Rejected]
    case ReturnedToCreator => [PendingApproval]
    case Rejected => []
    case PendingReviewCycle => [AdminCycleInProgress, AvailableForFinalUsers]
    case AvailableForFinalUsers => [AdminCycleInProgress, Closed, Cancelled]
    case AdminCycleInProgress => [AvailableForFinalUsers]
    case Closed => []
    case Cancelled => []
  }

  /** The membership check behind assertValidTransition. */
  predicate IsValidTransition(current: Status, next: Status) {
    next in ValidTransitions(current)
  }
}
