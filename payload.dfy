/** The JSON documents carried on one `data: ` line of the analyzer's event
    stream, as far as the relay and the browser look into them.

    JSON.parse is a foreign call, so it appears here only as a partial
    function from text to a decoded document: `None` is a syntax error
    (JSON.parse throws). A decoded document is either `null` (the only JSON
    value on which reading `.status` throws) or some other value, of which
    we keep the fields the code reads. Non-object values (numbers, strings,
    arrays, booleans) are `Value`s whose fields are all absent. */
module Payload {
  import opened Options

  /** The nested `nutrition` object of a completed analysis; every field may
      be absent. Numbers are carried through verbatim, never computed with. */
  datatype Nutrition = Nutrition(
    caloriesKcal: Option<real>,
    proteinG: Option<real>,
    fatG: Option<real>,
    carbsG: Option<real>,
    waterG: Option<real>,
    sugarsG: Option<real>,
    dietaryFiberG: Option<real>,
    sodiumMg: Option<real>,
    cholesterolMg: Option<real>,
    saturatedFatG: Option<real>,
    calciumMg: Option<real>,
    ironMg: Option<real>,
    vitaminAUg: Option<real>,
    vitaminCMg: Option<real>)

  /** The `result` object of a `completed` event. */
  datatype AnalysisResult = AnalysisResult(
    foodName: Option<string>,
    confidence: Option<real>,
    volumeMl: Option<real>,
    massG: Option<real>,
    nutrition: Option<Nutrition>)

  /** A decoded event document. `status` is `Some(s)` only when the document
      has a string-valued `status`; `result` is `None` when the field is
      absent or falsy. */
  datatype Document =
    | Null
    | Value(status: Option<string>, step: int, message: string, result: Option<AnalysisResult>)

  /** JSON.parse, as an abstract partial function. */
  type Parser = string -> Option<Document>

  const InProgressStatus: string := "in_progress"
  const CompletedStatus: string := "completed"
  const ErrorStatus: string := "error"
}
