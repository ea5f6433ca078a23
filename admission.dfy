/** The admission ladder of the analysis relay endpoint (`GET` and `POST`
    /api/analyze are the same handler): an ordered series of early returns,
    each with a fixed HTTP status, taken before any event stream is opened.

    The session lookup, the database queries, the image download and the
    analyzer call are collaborators; what they answer for one request is a
    `Collaborators` value, and the calls the handler makes to them are
    recorded, in order, as a trace. */
module Admission {
  import opened Options
  import ImageUrl

  /** A meal item row (keyed by its id in `Collaborators.mealItems`) with the
      one relation the handler includes: whether an analysis record already
      exists for it. `ownerId` is the user id of the meal it belongs to. */
  datatype MealItemRow = MealItemRow(ownerId: string, imageName: string, hasAnalysis: bool)

  /** The answers the collaborators give during one request. */
  datatype Collaborators = Collaborators(
    sessionEmail: Option<string>,          // email of the session's user; None: no session or no user
    userIdByEmail: map<string, string>,    // the user table, keyed by email
    mealItems: map<string, MealItemRow>,   // the meal item table, keyed by id
    imageFetchOk: bool,                    // the image download answered with an OK status
    analyzerOk: bool,                      // the analyzer answered with an OK status
    analyzerHasBody: bool)                 // the analyzer's response has a body

  /** The collaborator calls the handler makes, in the order it makes them. */
  datatype Call =
    | GetSession
    | FindUser(email: string)
    | FindMealItem(mealItemId: string, userId: string)
    | FetchImage(url: string)
    | CallAnalyzer

  datatype Rejection =
    | MissingMealItemId
    | Unauthorized
    | UserNotFound
    | MealItemNotFound
    | AnalysisExists
    | ImageFetchFailed
    | AnalyzerFailed
    | NoAnalyzerBody

  datatype Decision = Reject(reason: Rejection) | Accept(item: MealItemRow)

  datatype Admission = Admission(decision: Decision, calls: seq<Call>)

  /** The HTTP status of each early return: a client error for a problem
      with the request, the caller or the item, and a server error exactly
      when an outside service failed. */
  function StatusCode(r: Rejection): (code: int)
    ensures code == 400 <==> r.MissingMealItemId? || r.AnalysisExists?
    ensures code == 401 <==> r.Unauthorized?
    ensures code == 404 <==> r.UserNotFound? || r.MealItemNotFound?
    ensures code == 500 <==> r.ImageFetchFailed? || r.AnalyzerFailed? || r.NoAnalyzerBody?
  {
    match r
    case MissingMealItemId => 400
    case Unauthorized => 401
    case UserNotFound => 404
    case MealItemNotFound => 404
    case AnalysisExists => 400
    case ImageFetchFailed => 500
    case AnalyzerFailed => 500
    case NoAnalyzerBody => 500
  }

  /** The `error` text of each early return. */
  function ErrorMessage(r: Rejection): (message: string)
    ensures message != ""
  {
    match r
    case MissingMealItemId => "mealItemId is required"
    case Unauthorized => "Unauthorized"
    case UserNotFound => "User not found"
    case MealItemNotFound => "mealItem not found"
    case AnalysisExists => "mealItemAnalysis already exists"
    case ImageFetchFailed => "Failed to fetch image"
    case AnalyzerFailed => "AI analysis failed"
    case NoAnalyzerBody => "No response body from AI API"
  }

  /** Rejections that share a status code still differ in their message, so
      the JSON body tells the client which rung turned it away. */
  lemma ErrorMessageIdentifiesReason(r1: Rejection, r2: Rejection)
    ensures ErrorMessage(r1) == ErrorMessage(r2) <==> r1 == r2
  {
  }

  /** Position of each kind of call in the handler's fixed order. */
  function Rank(call: Call): nat
  {
    match call
    case GetSession => 0
    case FindUser(_) => 1
    case FindMealItem(_, _) => 2
    case FetchImage(_) => 3
    case CallAnalyzer => 4
  }

  /** `!mealItemId` on the query parameter: absent or the empty string. */
  predicate Present(mealItemId: Option<string>)
  {
    mealItemId.Some? && mealItemId.value != ""
  }

  /** The item lookup: found by id and belonging to the given user. */
  function OwnedItem(c: Collaborators, mealItemId: string, userId: string): Option<MealItemRow>
  {
    if mealItemId in c.mealItems && c.mealItems[mealItemId].ownerId == userId
    then Some(c.mealItems[mealItemId]) else None
  }

  /** The id is given and the session's user is in the user table. */
  predicate UserKnown(mealItemId: Option<string>, c: Collaborators)
  {
    && Present(mealItemId)
    && c.sessionEmail.Some?
    && c.sessionEmail.value in c.userIdByEmail
  }

  /** Every check made against the database passes: the item exists, is the
      caller's, and has no analysis yet. */
  predicate ItemEligible(mealItemId: Option<string>, c: Collaborators)
  {
    && UserKnown(mealItemId, c)
    && OwnedItem(c, mealItemId.value, c.userIdByEmail[c.sessionEmail.value]).Some?
    && !c.mealItems[mealItemId.value].hasAnalysis
  }

  /** Every check the ladder makes passes. */
  predicate AllChecksPass(mealItemId: Option<string>, c: Collaborators)
  {
    ItemEligible(mealItemId, c) && c.imageFetchOk && c.analyzerOk && c.analyzerHasBody
  }

  /** The handler up to the point where it opens the event stream. */
  function Admit(mealItemId: Option<string>, env: ImageUrl.Env, c: Collaborators): (a: Admission)
    // the first check needs no collaborator at all
    ensures a.decision == Reject(MissingMealItemId) <==> !Present(mealItemId)
    ensures !Present(mealItemId) ==> a.calls == []
    // unauthenticated callers learn nothing about users or items
    ensures a.decision == Reject(Unauthorized) <==> Present(mealItemId) && c.sessionEmail.None?
    ensures a.decision == Reject(Unauthorized) ==> a.calls == [GetSession]
    ensures a.decision == Reject(UserNotFound) <==>
      Present(mealItemId) && c.sessionEmail.Some? && c.sessionEmail.value !in c.userIdByEmail
    ensures a.decision == Reject(UserNotFound) ==>
      a.calls == [GetSession, FindUser(c.sessionEmail.value)]
    // an item that does not exist and one owned by someone else look the same
    ensures a.decision == Reject(MealItemNotFound) <==>
      && UserKnown(mealItemId, c)
      && (mealItemId.value !in c.mealItems
          || c.mealItems[mealItemId.value].ownerId != c.userIdByEmail[c.sessionEmail.value])
    // an item that already has an analysis is never analysed again
    ensures a.decision == Reject(AnalysisExists) <==>
      && UserKnown(mealItemId, c)
      && OwnedItem(c, mealItemId.value, c.userIdByEmail[c.sessionEmail.value]).Some?
      && c.mealItems[mealItemId.value].hasAnalysis
    // the two outside services are asked in turn, and the first failure answers
    ensures a.decision == Reject(ImageFetchFailed) <==> ItemEligible(mealItemId, c) && !c.imageFetchOk
    ensures a.decision == Reject(AnalyzerFailed) <==>
      ItemEligible(mealItemId, c) && c.imageFetchOk && !c.analyzerOk
    ensures a.decision == Reject(NoAnalyzerBody) <==>
      ItemEligible(mealItemId, c) && c.imageFetchOk && c.analyzerOk && !c.analyzerHasBody
    ensures a.decision.Accept? <==> AllChecksPass(mealItemId, c)
    ensures a.decision.Accept? ==>
      && a.decision.item == c.mealItems[mealItemId.value]
      && !a.decision.item.hasAnalysis
      && a.decision.item.ownerId == c.userIdByEmail[c.sessionEmail.value]
    // the calls are made in the fixed order, each at most once
    ensures forall i :: 0 <= i < |a.calls| ==> Rank(a.calls[i]) == i
    // the database is asked about the item only for a known user, the image
    // is fetched only for an eligible item, and the analyzer is called only
    // once the image has been fetched
    // (call i has rank i, so the user, item and image lookups are calls 1, 2 and 3)
    ensures |a.calls| > 1 <==> Present(mealItemId) && c.sessionEmail.Some?
    ensures |a.calls| > 2 <==> UserKnown(mealItemId, c)
    ensures |a.calls| > 3 <==> ItemEligible(mealItemId, c)
    // the user is looked up by the session's email, and the item by the
    // requested id among that user's meals
    ensures |a.calls| > 1 ==> c.sessionEmail.Some? && a.calls[1] == FindUser(c.sessionEmail.value)
    ensures |a.calls| > 2 ==>
      UserKnown(mealItemId, c) && a.calls[2] == FindMealItem(mealItemId.value, c.userIdByEmail[c.sessionEmail.value])
    ensures CallAnalyzer in a.calls <==> ItemEligible(mealItemId, c) && c.imageFetchOk
    // the image is fetched from where getImageUrl says it is served
    ensures forall i :: 0 <= i < |a.calls| && a.calls[i].FetchImage? ==>
      && Present(mealItemId) && mealItemId.value in c.mealItems
      && a.calls[i].url == ImageUrl.GetImageUrl(env, c.mealItems[mealItemId.value].imageName)
  {
    if !Present(mealItemId) then Admission(Reject(MissingMealItemId), [])
    else
      var id := mealItemId.value;
      if c.sessionEmail.None? then Admission(Reject(Unauthorized), [GetSession])
      else
        var email := c.sessionEmail.value;
        if email !in c.userIdByEmail then Admission(Reject(UserNotFound), [GetSession, FindUser(email)])
        else
          var userId := c.userIdByEmail[email];
          var looked := [GetSession, FindUser(email), FindMealItem(id, userId)];
          match OwnedItem(c, id, userId)
          case None => Admission(Reject(MealItemNotFound), looked)
          case Some(item) =>
            if item.hasAnalysis then Admission(Reject(AnalysisExists), looked)
            else
              var fetched := looked + [FetchImage(ImageUrl.GetImageUrl(env, item.imageName))];
              if !c.imageFetchOk then Admission(Reject(ImageFetchFailed), fetched)
              else
                var called := fetched + [CallAnalyzer];
                if !c.analyzerOk then Admission(Reject(AnalyzerFailed), called)
                else if !c.analyzerHasBody then Admission(Reject(NoAnalyzerBody), called)
                else Admission(Accept(item), called)
  }

  /** A second request for an item that already owns an analysis record is
      turned away before the analyzer is ever called, whoever asks. */
  lemma SecondRunRejected(mealItemId: string, env: ImageUrl.Env, c: Collaborators)
    requires mealItemId in c.mealItems && c.mealItems[mealItemId].hasAnalysis
    ensures Admit(Some(mealItemId), env, c).decision.Reject?
    ensures CallAnalyzer !in Admit(Some(mealItemId), env, c).calls
  {
  }
}
