/**
  The exceptions thrown by the event domain engine. Each Java `throw` becomes one
  `Error` value whose constructor is the exception class and whose `Reason` names
  the guard that failed (the message text is not modelled).
*/
module Errors {

  /** The argument or value a validation error is about. */
  datatype Field =
    | UserId | Nome | Cognome | Email
    | OrganizerId | Password
    | TeamId | TeamName
    | Titolo | Sede | Dates | Duration | MaxTeamSize
    | Content | SimulatedDate | Score | Description | JudgeId
    // a whole object passed as an argument
    | TheOrganizer | TheJudge | TheTeam | TheUser | TheEvent | TheDocument | TheVote | TheMember

  datatype Reason =
    // validation of arguments and value objects
    | Invalid(field: Field)          // "... non valido", "... nullo" on a required argument
    | TooShort(field: Field)         // "... (min 3 caratteri)"
    | AlreadyPresent(field: Field)   // a judge, a team member or a team that is already there
    | NotFound(field: Field)         // lookup by id failed
    // guards of the event aggregate
    | RegistrationsClosed            // outside the registration window (registraUtente)
    | TeamChangesClosed              // outside the registration window (aggiungiTeam)
    | EventFull                      // maxPartecipanti reached
    | AlreadyRegistered
    | TooManyTeams
    | TeamNameInUse
    | TeamWithoutMembers
    | TeamTooLarge
    | MemberNotRegistered
    | MemberInAnotherTeam
    | PublishBeforeStart
    | TeamNotRegistered
    | UploadOutsideEvent
    | ProblemNotPublished
    | DailyLimitReached
    // guards of the orchestration layer
    | NotInitialized
    | TooFewJudgesToOpen             // apriRegistrazioni with fewer than 3 judges
    | OutsideRegistrationWindow      // apriRegistrazioni outside the window
    | OutsideEventDays               // abilitaInvioDocumenti outside the event days
    | TooFewJudges                   // requireMinGiudici
    | TooFewTeams                    // requireMinTeam
    | TooManyJudges
    | RegistrationsNotOpen
    | SubmissionsNotEnabled
    | JudgeNotInEvent
    | TeamNotInEvent
    | VotingNotAllowed
    | DuplicateVote
    | RankingNotAvailable

  datatype Error =
    | IllegalArgument(reason: Reason)   // java.lang.IllegalArgumentException
    | IllegalState(reason: Reason)      // java.lang.IllegalStateException
    | NullPointer                       // java.lang.NullPointerException
    | Persistence                       // any RuntimeException from a DAO call, re-thrown
}
