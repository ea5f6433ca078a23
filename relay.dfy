/** The body of the relay's `ReadableStream.start`: read the analyzer's
    stream chunk by chunk, keep one pending partial line in `buffer`, pick
    out the `data: ` lines, forward each decodable one to the browser as
    `data: <payload>\n\n`, remember the last completed result, and once the
    upstream ends write one analysis record if a result was seen.

    Chunks arrive already decoded to text. Dispatch is per line: a blank line
    ends nothing and other line kinds (`event:`, `id:`, comments) are dropped,
    which is a simplification of the Server-Sent Events format. */
module Relay {
  import opened Options
  import opened Payload
  import opened Lines

  const DataPrefix: string := "data: "

  /** The record written by the persist step: every field of the captured
      result copied through unchanged. */
  datatype AnalysisRecord = AnalysisRecord(
    mealItemId: string,
    foodName: Option<string>,
    confidence: Option<real>,
    volumeMl: Option<real>,
    massG: Option<real>,
    caloriesKcal: Option<real>,
    proteinG: Option<real>,
    fatG: Option<real>,
    carbsG: Option<real>,
    waterG: Option<real>,
    sugarsG: Option<real>,
    dietaryFiberG: Option<real>,
    sodiumMg: Option<real>,
    cholesterolMg: Option<real>,
    saturatedFatG: Option<real>,
    calciumMg: Option<real>,
    ironMg: Option<real>,
    vitaminAUg: Option<real>,
    vitaminCMg: Option<real>)

  /** The nutrient values of a record, in declaration order. */
  function Nutrients(rec: AnalysisRecord): seq<Option<real>>
  {
    [rec.caloriesKcal, rec.proteinG, rec.fatG, rec.carbsG, rec.waterG, rec.sugarsG,
     rec.dietaryFiberG, rec.sodiumMg, rec.cholesterolMg, rec.saturatedFatG,
     rec.calciumMg, rec.ironMg, rec.vitaminAUg, rec.vitaminCMg]
  }

  /** The nutrient values of a `nutrition` object, in the same order. */
  function NutritionValues(n: Nutrition): seq<Option<real>>
  {
    [n.caloriesKcal, n.proteinG, n.fatG, n.carbsG, n.waterG, n.sugarsG,
     n.dietaryFiberG, n.sodiumMg, n.cholesterolMg, n.saturatedFatG,
     n.calciumMg, n.ironMg, n.vitaminAUg, n.vitaminCMg]
  }

  /** `nutrition?.x` for every nutrient: absent when `nutrition` is. */
  function NutrientOf(n: Option<Nutrition>, k: nat): Option<real>
    requires k < 14
  {
    match n
    case Some(v) => NutritionValues(v)[k]
    case None => None
  }

  /** The persist step's mapping from a captured result to a record. */
  function ToRecord(mealItemId: string, r: AnalysisResult): (rec: AnalysisRecord)
    ensures rec.mealItemId == mealItemId
    ensures rec.foodName == r.foodName && rec.confidence == r.confidence
    ensures rec.volumeMl == r.volumeMl && rec.massG == r.massG
    ensures |Nutrients(rec)| == 14
    ensures forall k :: 0 <= k < 14 ==> Nutrients(rec)[k] == NutrientOf(r.nutrition, k)
    // a missing nutrition object leaves every nutrient absent, never zero
    ensures r.nutrition.None? ==> forall k :: 0 <= k < 14 ==> Nutrients(rec)[k].None?
  {
    var n := r.nutrition;
    AnalysisRecord(
      mealItemId, r.foodName, r.confidence, r.volumeMl, r.massG,
      if n.Some? then n.value.caloriesKcal else None,
      if n.Some? then n.value.proteinG else None,
      if n.Some? then n.value.fatG else None,
      if n.Some? then n.value.carbsG else None,
      if n.Some? then n.value.waterG else None,
      if n.Some? then n.value.sugarsG else None,
      if n.Some? then n.value.dietaryFiberG else None,
      if n.Some? then n.value.sodiumMg else None,
      if n.Some? then n.value.cholesterolMg else None,
      if n.Some? then n.value.saturatedFatG else None,
      if n.Some? then n.value.calciumMg else None,
      if n.Some? then n.value.ironMg else None,
      if n.Some? then n.value.vitaminAUg else None,
      if n.Some? then n.value.vitaminCMg else None)
  }

  /** The result a record was written from, reading every nutrient back
      into a `nutrition` object. */
  function ResultOf(rec: AnalysisRecord): AnalysisResult
  {
    AnalysisResult(rec.foodName, rec.confidence, rec.volumeMl, rec.massG,
      Some(Nutrition(rec.caloriesKcal, rec.proteinG, rec.fatG, rec.carbsG, rec.waterG,
                     rec.sugarsG, rec.dietaryFiberG, rec.sodiumMg, rec.cholesterolMg,
                     rec.saturatedFatG, rec.calciumMg, rec.ironMg, rec.vitaminAUg, rec.vitaminCMg)))
  }

  /** Persisting loses nothing: a result with a `nutrition` object is read
      back exactly from its record, and every record is the record of the
      result read back from it. The only thing not kept is the difference
      between a missing `nutrition` and one whose fields are all missing. */
  lemma RecordRoundTrip(mealItemId: string, r: AnalysisResult, rec: AnalysisRecord)
    ensures r.nutrition.Some? ==> ResultOf(ToRecord(mealItemId, r)) == r
    ensures r.nutrition.None? ==>
      ResultOf(ToRecord(mealItemId, r)) == r.(nutrition := Some(Nutrition(None, None, None, None, None,
        None, None, None, None, None, None, None, None, None)))
    ensures rec.mealItemId == mealItemId ==> ToRecord(mealItemId, ResultOf(rec)) == rec
  {
  }

  predicate IsDataLine(line: string)
  {
    |line| >= |DataPrefix| && line[..|DataPrefix|] == DataPrefix
  }

  /** What handling one complete line amounts to. */
  datatype LineOutcome = Skip | Forward(frame: string, capture: Option<AnalysisResult>)

  /** The specification of the loop body for one line: a `data: ` line whose
      payload decodes to a non-null document is forwarded, and captures the
      document's result when its status is "completed" and the result is
      truthy; every other line yields nothing. */
  function HandleLine(line: string, parse: Parser): (r: LineOutcome)
    // a line is forwarded iff it is a data line whose payload decodes to a
    // non-null document
    ensures r.Forward? <==>
      IsDataLine(line) && parse(line[|DataPrefix|..]).Some? && parse(line[|DataPrefix|..]).value.Value?
    // the frame is the line itself, closed by a blank line
    ensures r.Forward? ==> r.frame == line + "\n\n"
    // the result is held only from a `completed` event, and it is that event's result
    ensures r.Forward? ==>
      var doc := parse(line[|DataPrefix|..]).value;
      r.capture == (if doc.status == Some(CompletedStatus) then doc.result else None)
  {
    if !IsDataLine(line) then Skip
    else
      var data := line[|DataPrefix|..];
      match parse(data)
      case None => Skip                  // JSON.parse threw
      case Some(Null) => Skip            // reading `.status` of null threw
      case Some(Value(status, _, _, result)) =>
        Forward(DataPrefix + data + "\n\n", if status == Some(CompletedStatus) then result else None)
  }

  /** The line is a `completed` event with a truthy result. */
  predicate Captures(line: string, parse: Parser)
  {
    HandleLine(line, parse).Forward? && HandleLine(line, parse).capture.Some?
  }

  /** The frames sent to the browser for a sequence of complete lines. */
  function Forwarded(lines: seq<string>, parse: Parser): seq<string>
  {
    if lines == [] then []
    else
      var earlier := Forwarded(lines[..|lines| - 1], parse);
      match HandleLine(lines[|lines| - 1], parse)
      case Skip => earlier
      case Forward(frame, _) => earlier + [frame]
  }

  /** The value of `analysisResult` after a sequence of complete lines. */
  function Captured(lines: seq<string>, parse: Parser): Option<AnalysisResult>
  {
    if lines == [] then None
    else
      var last := lines[|lines| - 1];
      if Captures(last, parse) then HandleLine(last, parse).capture
      else Captured(lines[..|lines| - 1], parse)
  }

  /** Forwarding is line by line: the frames for `a + b` are those for `a`
      followed by those for `b`, so output order is input order. */
  lemma {:induction false} ForwardedAppend(a: seq<string>, b: seq<string>, parse: Parser)
    ensures Forwarded(a + b, parse) == Forwarded(a, parse) + Forwarded(b, parse)
    decreases |b|
  {
    if b == [] {
      assert a + b == a;
    } else {
      var b' := b[..|b| - 1];
      assert (a + b)[..|a + b| - 1] == a + b';
      assert (a + b)[|a + b| - 1] == b[|b| - 1];
      ForwardedAppend(a, b', parse);
    }
  }

  /** The result held after `a + b` is the last one captured in `b`, or
      failing that the one held after `a`. */
  lemma {:induction false} CapturedAppend(a: seq<string>, b: seq<string>, parse: Parser)
    ensures Captured(a + b, parse) ==
      if Captured(b, parse).Some? then Captured(b, parse) else Captured(a, parse)
    decreases |b|
  {
    if b == [] {
      assert a + b == a;
    } else {
      var b' := b[..|b| - 1];
      assert (a + b)[..|a + b| - 1] == a + b';
      assert (a + b)[|a + b| - 1] == b[|b| - 1];
      CapturedAppend(a, b', parse);
    }
  }

  /** A line that yields nothing (not a `data: ` line, an undecodable
      payload, or a `null` document) can be deleted from the stream without
      changing the frames or the captured result: it neither stops the loop
      nor disturbs the lines after it. */
  lemma SkippedLineIsInert(a: seq<string>, line: string, b: seq<string>, parse: Parser)
    requires HandleLine(line, parse).Skip?
    ensures Forwarded(a + [line] + b, parse) == Forwarded(a + b, parse)
    ensures Captured(a + [line] + b, parse) == Captured(a + b, parse)
  {
    ForwardedAppend(a + [line], b, parse);
    ForwardedAppend(a, b, parse);
    CapturedAppend(a + [line], b, parse);
    CapturedAppend(a, b, parse);
    assert (a + [line])[..|a + [line]| - 1] == a;
  }

  /** The payload a frame carries: the frame without its `data: ` prefix and
      its blank-line terminator. */
  function FramePayload(frame: string): string
    requires |frame| >= |DataPrefix| + 2
  {
    frame[|DataPrefix|..|frame| - 2]
  }

  /** A frame in the shape `data: <payload>\n\n`, where the payload has no line
      feed and the relay itself decoded it to a non-null document. A carriage
      return inside the payload is not excluded (the relay splits on LF only),
      and a browser event source would break the line there. */
  predicate IsEventFrame(frame: string, parse: Parser)
  {
    && |frame| >= |DataPrefix| + 2
    && frame[..|DataPrefix|] == DataPrefix
    && frame[|frame| - 2..] == "\n\n"
    && NoNewline(FramePayload(frame))
    && parse(FramePayload(frame)).Some?
    && parse(FramePayload(frame)).value.Value?
  }

  /** Every frame built from line-feed-free lines is one well-formed event. */
  lemma {:induction false} ForwardedFramesWellFormed(lines: seq<string>, parse: Parser)
    requires AllNoNewline(lines)
    ensures forall k :: 0 <= k < |Forwarded(lines, parse)| ==> IsEventFrame(Forwarded(lines, parse)[k], parse)
    decreases |lines|
  {
    if lines != [] {
      var init := lines[..|lines| - 1];
      var line := lines[|lines| - 1];
      assert AllNoNewline(init) by {
        forall k | 0 <= k < |init| ensures NoNewline(init[k]) { assert init[k] == lines[k]; }
      }
      ForwardedFramesWellFormed(init, parse);
      match HandleLine(line, parse)
      case Skip =>
      case Forward(frame, _) =>
        var data := line[|DataPrefix|..];
        assert frame == DataPrefix + data + "\n\n";
        assert FramePayload(frame) == data;
        assert NoNewline(line);
        assert NoNewline(data) by {
          forall k | 0 <= k < |data| ensures data[k] != '\n' { assert data[k] == line[k + |DataPrefix|]; }
        }
    }
  }

  /** The held result is the result of the last line that captured one: it
      is present exactly when some line captured, and no later line did. */
  lemma {:induction false} CapturedIsLastCompleted(lines: seq<string>, parse: Parser)
    ensures Captured(lines, parse).None? <==>
      forall k :: 0 <= k < |lines| ==> !Captures(lines[k], parse)
    ensures Captured(lines, parse).Some? ==>
      exists k :: 0 <= k < |lines| && Captures(lines[k], parse)
        && HandleLine(lines[k], parse).capture == Captured(lines, parse)
        && forall m :: k < m < |lines| ==> !Captures(lines[m], parse)
    decreases |lines|
  {
    if lines != [] {
      var init := lines[..|lines| - 1];
      var n := |lines| - 1;
      CapturedIsLastCompleted(init, parse);
      if Captures(lines[n], parse) {
        assert HandleLine(lines[n], parse).capture == Captured(lines, parse);
      } else {
        assert forall k :: 0 <= k < n ==> lines[k] == init[k];
        if Captured(init, parse).Some? {
          var k :| 0 <= k < n && Captures(init[k], parse)
            && HandleLine(init[k], parse).capture == Captured(init, parse)
            && forall m :: k < m < n ==> !Captures(init[m], parse);
          assert Captures(lines[k], parse);
        }
      }
    }
  }

  /** The text of all chunks received, in order. */
  function Concat(chunks: seq<string>): string
  {
    if chunks == [] then "" else Concat(chunks[..|chunks| - 1]) + chunks[|chunks| - 1]
  }

  /** The inner `for` loop over the complete lines of one chunk: forwards
      and captures exactly as the line-by-line specification says, so that
      the lines already done and these lines together are accounted for. */
  method ForwardLines(lines: seq<string>, parse: Parser, ghost done: seq<string>,
                      framesIn: seq<string>, resultIn: Option<AnalysisResult>)
    returns (frames: seq<string>, analysisResult: Option<AnalysisResult>)
    requires framesIn == Forwarded(done, parse) && resultIn == Captured(done, parse)
    ensures frames == Forwarded(done + lines, parse)
    ensures analysisResult == Captured(done + lines, parse)
  {
    frames, analysisResult := framesIn, resultIn;
    var j := 0;
    assert done + lines[..j] == done;
    while j < |lines|
      invariant 0 <= j <= |lines|
      invariant frames == Forwarded(done + lines[..j], parse)
      invariant analysisResult == Captured(done + lines[..j], parse)
    {
      var line := lines[j];
      assert done + lines[..j + 1] == (done + lines[..j]) + [line];
      if |line| >= |DataPrefix| && line[..|DataPrefix|] == DataPrefix {
        var data := line[|DataPrefix|..];
        var parsed := parse(data);
        if parsed.Some? && parsed.value.Value? {
          if parsed.value.status == Some(CompletedStatus) && parsed.value.result.Some? {
            analysisResult := parsed.value.result;
          }
          frames := frames + [DataPrefix + data + "\n\n"];
        }
      }
      j := j + 1;
    }
    assert lines[..j] == lines;
  }

  /** The relay proper. Returns what was enqueued for the browser, the record
      written at the end (if any) and the buffer left when the upstream ended.
      The postconditions depend on the chunks only through their
      concatenation: how the upstream text was cut into chunks changes
      neither the frames, nor the record, nor the leftover buffer. */
  method Run(mealItemId: string, chunks: seq<string>, parse: Parser)
    returns (frames: seq<string>, record: Option<AnalysisRecord>, buffer: string)
    ensures frames == Forwarded(Complete(Concat(chunks)), parse)
    ensures record.Some? <==> Captured(Complete(Concat(chunks)), parse).Some?
    ensures record.Some? ==>
      record.value == ToRecord(mealItemId, Captured(Complete(Concat(chunks)), parse).value)
    ensures buffer == Trailing(Concat(chunks)) && NoNewline(buffer)
    ensures Terminated(Complete(Concat(chunks))) + buffer == Concat(chunks)
  {
    buffer := "";
    var analysisResult: Option<AnalysisResult> := None;
    frames := [];
    var i := 0;
    while i < |chunks|
      invariant 0 <= i <= |chunks|
      invariant buffer == Trailing(Concat(chunks[..i]))
      invariant frames == Forwarded(Complete(Concat(chunks[..i])), parse)
      invariant analysisResult == Captured(Complete(Concat(chunks[..i])), parse)
    {
      ghost var received := Concat(chunks[..i]);
      assert chunks[..i + 1][..i] == chunks[..i];
      assert Concat(chunks[..i + 1]) == received + chunks[i];
      ResplitPending(received, chunks[i]);

      var pieces := Split(buffer + chunks[i]);
      var lines := pieces[..|pieces| - 1];
      buffer := pieces[|pieces| - 1];
      frames, analysisResult := ForwardLines(lines, parse, Complete(received), frames, analysisResult);
      i := i + 1;
    }
    assert chunks[..i] == chunks;
    Reassemble(Concat(chunks));
    SplitPiecesHaveNoNewline(Concat(chunks));

    if analysisResult.Some? {
      record := Some(ToRecord(mealItemId, analysisResult.value));
    } else {
      record := None;
    }
  }
}
