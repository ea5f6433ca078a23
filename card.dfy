/** One progress card of the analysis page: it listens on its item's event
    source, turns each message into a new `AnalysisState`, reports every new
    status upward, and closes the source on a terminal event. */
module Card {
  import opened Options
  import opened Payload

  datatype Status = Pending | InProgress | Completed | Error

  predicate IsTerminal(s: Status)
  {
    s == Completed || s == Error
  }

  datatype AnalysisState = AnalysisState(step: int, message: string, status: Status)

  /** The step a completed analysis is shown at (the card draws four bars). */
  const TotalSteps: int := 4

  const InitialState: AnalysisState := AnalysisState(0, "분석 대기 중...", Pending)
  const CompletedState: AnalysisState := AnalysisState(TotalSteps, "분석 완료!", Completed)
  const FailedState: AnalysisState := AnalysisState(0, "분석 실패", Error)
  const ConnectionLostState: AnalysisState := AnalysisState(0, "연결 오류", Error)

  /** What the event source delivers to the card: a message (its `data`
      text) or a connection failure. */
  datatype Input = Message(data: string) | ConnectionError

  /** The message decodes to a document whose status the card reacts to. */
  predicate Recognised(data: string, parse: Parser)
  {
    var doc := parse(data);
    && doc.Some? && doc.value.Value? && doc.value.status.Some?
    && doc.value.status.value in {InProgressStatus, CompletedStatus, ErrorStatus}
  }

  /** The `onmessage` and `onerror` handlers: the new state, or `None` when
      the input is ignored (an undecodable message, a `null` document, or a
      status other than the three known ones). */
  function Transition(input: Input, parse: Parser): (next: Option<AnalysisState>)
    ensures input.Message? ==> (next.Some? <==> Recognised(input.data, parse))
    ensures input.ConnectionError? ==> next == Some(ConnectionLostState)
    // each of the three known statuses yields its own state
    ensures input.Message? && Recognised(input.data, parse) ==>
      var doc := parse(input.data).value;
      && (doc.status == Some(InProgressStatus) ==> next == Some(AnalysisState(doc.step, doc.message, InProgress)))
      && (doc.status == Some(CompletedStatus) ==> next == Some(CompletedState))
      && (doc.status == Some(ErrorStatus) ==> next == Some(FailedState))
    // a recognised event never leaves the card waiting
    ensures next.Some? ==> next.value.status != Pending
    // progress is copied from the event verbatim
    ensures next.Some? && next.value.status == InProgress ==>
      && input.Message?
      && parse(input.data).value.status == Some(InProgressStatus)
      && next.value.step == parse(input.data).value.step
      && next.value.message == parse(input.data).value.message
    // completion always shows the last step
    ensures next.Some? && next.value.status == Completed ==>
      input.Message? && parse(input.data).value.status == Some(CompletedStatus) && next.value == CompletedState
    // failure resets the step; the message tells an error event from a lost connection
    ensures next.Some? && next.value.status == Error ==>
      next.value.step == 0 &&
      next.value.message == (if input.ConnectionError? then "연결 오류" else "분석 실패")
  {
    match input
    case ConnectionError => Some(ConnectionLostState)
    case Message(data) =>
      match parse(data)
      case None => None
      case Some(Null) => None
      case Some(Value(status, step, message, _)) =>
        if status == Some(InProgressStatus) then Some(AnalysisState(step, message, InProgress))
        else if status == Some(CompletedStatus) then Some(CompletedState)
        else if status == Some(ErrorStatus) then Some(FailedState)
        else None
  }

  class AnalysisCard {
    const mealItemId: string
    const parse: Parser
    var state: AnalysisState
    /** `eventSource.close()` has been called: nothing more is delivered. */
    var closed: bool
    /** The statuses passed to `onStatusChange`, oldest first. */
    var reports: seq<Status>

    ghost predicate Valid()
      reads this
    {
      && (reports == [] <==> state.status == Pending)
      && (reports != [] ==> reports[|reports| - 1] == state.status)
      // only the last report can be terminal
      && (forall k :: 0 <= k < |reports| - 1 ==> reports[k] == InProgress)
      && (IsTerminal(state.status) ==> closed)
    }

    constructor (mealItemId: string, parse: Parser)
      ensures Valid()
      ensures this.mealItemId == mealItemId && this.parse == parse
      ensures state == InitialState && !closed && reports == []
    {
      this.mealItemId := mealItemId;
      this.parse := parse;
      state := InitialState;
      closed := false;
      reports := [];
    }

    /** The event source delivers one input. A closed source delivers
        nothing, so a terminal state is final. */
    method Dispatch(input: Input)
      requires Valid()
      modifies this
      ensures Valid()
      ensures old(closed) ==> state == old(state) && closed && reports == old(reports)
      ensures !old(closed) && Transition(input, parse).None? ==>
        state == old(state) && closed == old(closed) && reports == old(reports)
      ensures !old(closed) && Transition(input, parse).Some? ==>
        && state == Transition(input, parse).value
        && reports == old(reports) + [state.status]
        && closed == IsTerminal(state.status)
      // the card never goes back to waiting
      ensures old(state.status) != Pending ==> state.status != Pending
    {
      if closed {
        return;
      }
      var next := Transition(input, parse);
      if next.Some? {
        state := next.value;
        reports := reports + [state.status];
        if IsTerminal(state.status) {
          closed := true;
        }
      }
    }

    /** The effect's cleanup on unmount: the source is closed whatever the
        state. */
    method Teardown()
      requires Valid()
      modifies this
      ensures Valid()
      ensures closed && state == old(state) && reports == old(reports)
    {
      closed := true;
    }
  }
}
