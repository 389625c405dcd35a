/** The booking state machine: the four statuses, the transitions the design allows, and the
    status checks that cancel, confirm and complete run before they write a new status. */
module BookingLifecycle {
  import opened AppErrors

  datatype BookingStatus = PENDING | CONFIRM | COMPLETE | CANCELLED

  /** The statuses the duplicate-booking guard treats as holding the slot. */
  predicate IsActive(s: BookingStatus) {
    s == PENDING || s == CONFIRM || s == COMPLETE
  }

  /** The allowed moves: PENDING to CONFIRM or CANCELLED, CONFIRM to COMPLETE. */
  predicate Step(from: BookingStatus, to: BookingStatus) {
    || (from == PENDING && to == CONFIRM)
    || (from == PENDING && to == CANCELLED)
    || (from == CONFIRM && to == COMPLETE)
  }

  /** The status-changing requests: the student's cancel, the tutor's confirm and complete. */
  datatype Action = Cancel | Confirm | Complete

  const AlreadyCancelled := AppError(400, "ALREADY_CANCELLED")
  const BookingConfirmed := AppError(400, "BOOKING_CONFIRMED")
  const CannotCancelComplete := AppError(400, "CANNOT_CANCEL_COMPLETE")
  const InvalidBookingStatus := AppError(404, "INVALID_BOOKING_STATUS")

  /** The status check of each request, with the error it throws for every other status, and the
      status it writes when the check passes. */
  function Transition(s: BookingStatus, a: Action): (r: Result<BookingStatus>)
    ensures a == Cancel && r.Err? ==> r.error == (if s == CANCELLED then AlreadyCancelled
                                                    else if s == CONFIRM then BookingConfirmed
                                                    else CannotCancelComplete)
    ensures a != Cancel && r.Err? ==> r.error == InvalidBookingStatus
  {
    match a
    case Cancel =>
      if s == CANCELLED then Err(AlreadyCancelled)
      else if s == CONFIRM then Err(BookingConfirmed)
      else if s == COMPLETE then Err(CannotCancelComplete)
      else Ok(CANCELLED)
    case Confirm =>
      if s != PENDING then Err(InvalidBookingStatus) else Ok(CONFIRM)
    case Complete =>
      if s != CONFIRM then Err(InvalidBookingStatus) else Ok(COMPLETE)
  }

  /** Exhaustively over all (status, request) pairs: a request succeeds exactly along an allowed move. */
  lemma TransitionsAreSteps(s: BookingStatus, t: BookingStatus)
    ensures Step(s, t) <==> exists a :: Transition(s, a) == Ok(t)
  {
    if Step(s, t) {
      var a := if t == CONFIRM then Confirm else if t == CANCELLED then Cancel else Complete;
      assert Transition(s, a) == Ok(t);
    }
  }

  /** Applying a sequence of requests to one booking, stopping at the first that is refused. */
  function Run(s: BookingStatus, actions: seq<Action>): Result<BookingStatus>
    decreases |actions|
  {
    if actions == [] then Ok(s)
    else
      match Transition(s, actions[0])
      case Err(e) => Err(e)
      case Ok(t) => Run(t, actions[1..])
  }

  /** From PENDING the only request sequences that all succeed are the prefixes of
      confirm-then-complete and a single cancel; CANCELLED and COMPLETE admit no request. */
  lemma {:induction false} RunsFromPending(actions: seq<Action>)
    ensures Run(PENDING, actions).Ok? <==>
      actions in {[], [Confirm], [Confirm, Complete], [Cancel]}
  {
    if actions != [] {
      var rest := actions[1..];
      assert actions == [actions[0]] + rest;
      match actions[0]
      case Complete =>
        assert Run(PENDING, actions).Err?;
      case Cancel =>
        TerminalIsFinal(CANCELLED, rest);
        assert Run(PENDING, actions) == Run(CANCELLED, rest);
        assert rest == [] <==> actions == [Cancel];
      case Confirm =>
        assert Run(PENDING, actions) == Run(CONFIRM, rest);
        if rest != [] {
          assert rest == [rest[0]] + rest[1..];
          if rest[0] == Complete {
            TerminalIsFinal(COMPLETE, rest[1..]);
            assert Run(CONFIRM, rest) == Run(COMPLETE, rest[1..]);
            assert rest[1..] == [] <==> actions == [Confirm, Complete];
          } else {
            assert Run(CONFIRM, rest).Err?;
            assert actions[1] != Complete;
          }
        } else {
          assert actions == [Confirm];
        }
    }
  }

  lemma {:induction false} TerminalIsFinal(s: BookingStatus, actions: seq<Action>)
    requires s == CANCELLED || s == COMPLETE
    ensures Run(s, actions).Ok? <==> actions == []
  {
  }
}
