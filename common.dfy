/** Values shared by every service: identifiers, optional values and the
    failures the services raise as NestJS exceptions or Prisma errors. */
module Common {

  /** Database identifiers (uuids in the store) are plain strings. */
  type Id = string

  /** A nullable value: `null` / `undefined` in the services. */
  datatype Option<T> = None | Some(value: T)

  /** Why an operation failed; the message texts themselves are not modelled. */
  datatype Reason =
    | FlashcardNotFound
    | MetricAlreadyExists
    | RecordNotFound        // Prisma update/delete on a missing row
    | UserAlreadyExists
    | UserNotFound
    | InvalidPassword
    | AccessDenied
    | PlanTopicNotFound
    | NotPlanOwner
    | PlanNotFound
    | HistorySubjectMissing
    | UnparsableReply       // JSON.parse threw on a language-model reply
    | MissingRelation       // a property read through a null relation threw

  /** The exception class a failure surfaces as. */
  datatype Failure =
    | NotFound(reason: Reason)    // NotFoundException
    | Forbidden(reason: Reason)   // ForbiddenException
    | Thrown(reason: Reason)      // any other Error that propagates

  /** Outcome of a service call: its value, or the exception it throws. */
  datatype Result<T> = Ok(value: T) | Err(failure: Failure)
}
