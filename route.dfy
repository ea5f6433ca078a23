/** The whole `/api/analyze` handler: the admission ladder, then, for an
    admitted request, the relay over the analyzer's stream, whose record (if
    any) is the one database write the handler makes. */
module Route {
  import opened Options
  import opened Payload
  import opened Lines
  import ImageUrl
  import opened Admission
  import opened Relay

  datatype Response =
    | ErrorResponse(status: int, error: string)
    | EventStream(frames: seq<string>, record: Option<AnalysisRecord>)

  method Handle(mealItemId: Option<string>, env: ImageUrl.Env, c: Collaborators,
                chunks: seq<string>, parse: Parser)
    returns (response: Response, calls: seq<Call>)
    ensures calls == Admit(mealItemId, env, c).calls
    ensures response.ErrorResponse? <==> Admit(mealItemId, env, c).decision.Reject?
    ensures Admit(mealItemId, env, c).decision.Reject? ==>
      var reason := Admit(mealItemId, env, c).decision.reason;
      response == ErrorResponse(StatusCode(reason), ErrorMessage(reason))
    ensures response.EventStream? ==>
      && response.frames == Forwarded(Complete(Concat(chunks)), parse)
      && (response.record.Some? <==> Captured(Complete(Concat(chunks)), parse).Some?)
      && (response.record.Some? ==>
            response.record.value == ToRecord(mealItemId.value, Captured(Complete(Concat(chunks)), parse).value))
    // a record is written only for an admitted item that had none, and it is
    // that item's record
    ensures response.EventStream? && response.record.Some? ==>
      && mealItemId.Some? && mealItemId.value in c.mealItems
      && !c.mealItems[mealItemId.value].hasAnalysis
      && c.mealItems[mealItemId.value].ownerId == c.userIdByEmail[c.sessionEmail.value]
      && response.record.value.mealItemId == mealItemId.value
  {
    var admission := Admit(mealItemId, env, c);
    calls := admission.calls;
    match admission.decision {
      case Reject(reason) =>
        response := ErrorResponse(StatusCode(reason), ErrorMessage(reason));
      case Accept(item) =>
        var frames, record, _ := Run(mealItemId.value, chunks, parse);
        response := EventStream(frames, record);
    }
  }
}
