# Meal analysis relay and progress page, modelled in Dafny

This project models the streaming meal-analysis feature of the meal-logging web
application. It covers three pieces.

- **The relay endpoint** `/api/analyze`. It first runs the admission ladder: the
  item id must be present, the caller must have a session, the user must exist,
  the item must exist and belong to them, and it must have no analysis yet. Then
  it downloads the image, calls the AI analyzer and relays the analyzer's event
  stream to the browser. While relaying, it keeps the last `completed` result.
  When the upstream ends it writes one analysis record, but only if a result was
  captured. `GET` and `POST` are the same handler, line for line (lines 9-188
  and 190-369), so the model follows `GET` and the citations below use its lines.
- **The progress card** `AnalysisCard`. Each card turns the messages on its
  item's event source into an `AnalysisState` (step, message, status), reports
  each new status, and closes the source on a terminal event.
- **The aggregate controller** `AnalyzePageLayout`. It keeps a map from item id
  to the latest reported status and navigates to the results page once every
  item of the batch is `completed`.

The image URL helper `getImageUrl` is modelled as well, since the relay uses it.

Modules, one per concern:

- `Options`: the `Option` type.
- `Payload`: the decoded event document and the abstract JSON parser.
- `ImageUrl`: `getImageUrl`.
- `Admission`: the early-return ladder, with the trace of collaborator calls.
- `Lines`: `split('\n')` and the pending-line buffer.
- `Relay`: the `ReadableStream.start` loop and the persist step.
- `Route`: the handler as a whole.
- `Card`: the card's transitions, and the card as a class.
- `Progress`: the status map and the navigation check.

How the model stands in for the rest of the system:

- JSON.parse is an abstract partial function `Parser = string -> Option<Document>`.
  `None` means it throws.
- A decoded `null` is its own case. Reading `.status` on it throws, so the relay
  skips it and the card ignores it.
- The analyzer's chunks arrive as decoded text.
- The collaborators (session lookup, user and meal-item tables, image download,
  analyzer response) are one `Collaborators` value. The handler's calls to them
  are returned as an ordered trace.
- The environment variables of `getImageUrl` are an `Env` parameter.

The relay is specified by functions of the whole upstream text:

- `Complete`: the lines a line feed has terminated.
- `Trailing`: the pending fragment after the last line feed.
- `Forwarded`: the frames sent to the browser.
- `Captured`: the result held at the end.

`Relay.Run` is proved against these functions. Its postconditions mention the
chunks only through `Concat(chunks)`, so the frames, the record and the leftover
buffer do not depend on where the chunk boundaries fall. The relay follows the
code, not the Server-Sent Events format of the WHATWG HTML Living Standard
(section 9.2):

- It splits only on LF.
- It needs the exact `data: ` prefix, space included.
- It forwards each line on its own, not blank-line-terminated blocks.

## Model

| member | source | states |
|---|---|---|
| `ImageUrl.GetImageUrl` | src/lib/s3Client.ts:16-28 | A set, non-empty CloudFront URL gives `cloudfrontUrl + "/images/" + imageName`. An unset or empty one falls through to `https://<bucket>.s3.<region>.amazonaws.com/images/<imageName>`, where an unset variable prints as `undefined`. Either way the URL ends in `"/images/" + imageName`. |
| `ImageUrl.ImageNameRecoverable` | src/lib/s3Client.ts:16-28 | Under one environment, two image names with the same URL are equal: the URL determines the image. |
| `Admission.Admit` | src/app/api/analyze/route.ts:10-95 | The ladder in its fixed order. Missing or empty id gives 400 with no collaborator call. No session gives 401 after only the session lookup. Unknown user gives 404 after the session and user lookups. Item absent or not owned gives 404, and the two cases look the same. An existing analysis on the caller's item gives 400. Then a failed image fetch, a failed analyzer call and a body-less analyzer answer each give 500, each exactly when every earlier rung passed. Each rejection is stated as an if-and-only-if of its condition. The request is admitted exactly when every check passes, and the admitted item is the caller's and has no analysis. Calls happen in rank order, at most once each. The item is looked up only for a known user. The image is fetched only for an eligible item, and from `getImageUrl` of the item. The analyzer is called exactly when the image fetch succeeded. |
| `Admission.StatusCode` | src/app/api/analyze/route.ts:13-95 | 400 exactly for a missing id or an existing analysis. 401 exactly for no session. 404 exactly for an unknown user or item. 500 exactly when an outside service failed: the image download, the analyzer call or the analyzer's body. |
| `Admission.ErrorMessage` | src/app/api/analyze/route.ts:13-95 | Every early return carries a non-empty `error` text. |
| `Admission.ErrorMessageIdentifiesReason` | src/app/api/analyze/route.ts:13-95 | Two rejections have the same `error` text iff they are the same rung. So the body tells apart rungs that share a status code. |
| `Admission.SecondRunRejected` | src/app/api/analyze/route.ts:36-57 | A request for an item that already owns an analysis is rejected, whoever sends it, and never reaches the analyzer. |
| `Lines.Split` | src/app/api/analyze/route.ts:112 | `split('\n')` always yields at least one piece, so `lines.pop()` always has a piece to take. The lemmas below say what the pieces are. |
| `Lines.SplitPiecesHaveNoNewline` | src/app/api/analyze/route.ts:112 | No piece of `split('\n')` contains a line feed. |
| `Lines.Reassemble` | src/app/api/analyze/route.ts:111-113 | The buffer invariant: each complete line followed by `\n`, then the pending fragment, gives back the text received. |
| `Lines.DecompositionUnique` | src/app/api/analyze/route.ts:111-113 | Any split of a text into LF-terminated line-feed-free lines plus a line-feed-free fragment is the one `Complete`/`Trailing` gives. |
| `Lines.ResplitPending` | src/app/api/analyze/route.ts:107-113 | Re-splitting only `buffer + chunk` yields the same new complete lines and the same new buffer as splitting all text so far. This is chunk-boundary independence. |
| `Lines.UnterminatedTailIgnored` | src/app/api/analyze/route.ts:108-113 | Appending text without a line feed adds no complete line. The text only grows the pending buffer, so it is never parsed, forwarded or persisted. |
| `Relay.ToRecord` | src/app/api/analyze/route.ts:139-162 | The record has the request's item id and copies `foodName`, `confidence`, `volumeMl`, `massG` and each of the 14 nutrients unchanged. A missing `nutrition` leaves every nutrient absent, not zero. |
| `Relay.RecordRoundTrip` | src/app/api/analyze/route.ts:139-162 | Persisting loses nothing. A result that has a `nutrition` object is read back exactly from its record. Every record is the record of the result read back from it. The only difference not kept is between a missing `nutrition` and one whose fields are all missing. |
| `Relay.HandleLine` | src/app/api/analyze/route.ts:116-134 | A line is forwarded iff it starts with `data: ` and its payload decodes to a non-null document. The frame is then the line itself followed by a blank line. A result is held only from a `completed` event, and it is that event's `result`. |
| `Relay.ForwardLines` | src/app/api/analyze/route.ts:115-135 | The inner loop over one chunk's lines extends the frames and the held result exactly as the line-by-line specification says. |
| `Relay.Run` | src/app/api/analyze/route.ts:101-163 | The frames are `Forwarded` of the complete lines of the concatenated chunks. A record is written iff a result was captured, and it is `ToRecord` of the last captured result. The final buffer is the line-feed-free text after the last `\n`. Complete lines plus buffer equal the text received. All of this holds whatever the chunking. |
| `Relay.ForwardedAppend` | src/app/api/analyze/route.ts:115-135 | Frames for `a + b` are the frames for `a` followed by the frames for `b`: one line at a time, in input order. |
| `Relay.CapturedAppend` | src/app/api/analyze/route.ts:123-125 | After `a + b` the held result is the last one captured in `b`, or else the one held after `a`. |
| `Relay.SkippedLineIsInert` | src/app/api/analyze/route.ts:116-134 | Some lines yield nothing: a non-`data: ` line, an undecodable payload, or a `null` document. Deleting such a line changes neither the frames nor the result. It does not stop the loop. |
| `Relay.ForwardedFramesWellFormed` | src/app/api/analyze/route.ts:116-130 | Every frame is `data: ` + payload + `\n\n`. The payload has no line feed and decodes to a non-null document. |
| `Relay.CapturedIsLastCompleted` | src/app/api/analyze/route.ts:104-125 | The held result is absent iff no line is a `completed` event with a truthy result. Otherwise it is the result of the last such line. `in_progress`, `error` and result-less lines leave it alone. |
| `Route.Handle` | src/app/api/analyze/route.ts:9-188 | A rejection answers `StatusCode`/`ErrorMessage` of its reason and opens no stream. An admitted request streams `Forwarded` frames. Its record, when there is one, is `ToRecord` of the last captured result. A record is written only for an admitted item that had none and belongs to the caller, and the record carries that item's id. |
| `Card.Transition` | src/app/analyze/page.layout.tsx:47-92 | Both directions are stated. `in_progress` copies step and message and sets `in_progress`. `completed` gives `{4, '분석 완료!', completed}`. `error` gives step 0 and `'분석 실패'`. A connection error gives step 0 and `'연결 오류'`. Other statuses, unparsable messages and `null` are ignored. A recognised event never yields `pending`. Conversely, an `in_progress`, `completed` or `error` state comes only from a document with that status, or from a lost connection for `error`. |
| `Card.AnalysisCard.constructor` | src/app/analyze/page.layout.tsx:36-45 | A card starts as `{0, '분석 대기 중...', pending}`, with the source open and no reports. |
| `Card.AnalysisCard.Dispatch` | src/app/analyze/page.layout.tsx:47-92 | A recognised input sets the state to `Transition`'s value and reports its status. The source is closed exactly when that status is terminal. A closed source changes nothing, so a terminal state is final. The status never returns to `pending`. `Valid` is kept: only the last report can be terminal. |
| `Card.AnalysisCard.Teardown` | src/app/analyze/page.layout.tsx:94-96 | Unmounting closes the source whatever the state, changes nothing else, and keeps `Valid`. |
| `Progress.HandleStatusChange` | src/app/analyze/page.layout.tsx:150-155 | The new map sends the reporting id to the reported status and keeps every other key and value. |
| `Progress.CompletedCount` | src/app/analyze/page.layout.tsx:158-160 | The number of `completed` entries is at most the number of entries. It equals it iff every entry is `completed`. |
| `Progress.ShouldNavigate` | src/app/analyze/page.layout.tsx:162 | Navigation needs a non-empty batch and at least as many entries as the batch has items. That every item of the batch has a `completed` entry holds only when the keys lie within the batch, and is stated by `Progress.NavigateIffAllCompleted`. |
| `Progress.EntryIsLatestReport` | src/app/analyze/page.layout.tsx:150-155 | After any interleaving of reports, an item has an entry iff it reported. Its entry is the status of its latest report. |
| `Progress.NavigateIffAllCompleted` | src/app/analyze/page.layout.tsx:157-168 | Suppose every key is an item of the batch. Then the check fires iff the batch is non-empty and every item's status is `completed`. |
| `Progress.ErrorBlocksNavigation` | src/app/analyze/page.layout.tsx:157-168 | A batch with an item in `error` never navigates. |
| `Progress.NavigatesAtMostOnce` | src/app/analyze/page.layout.tsx:157-168 | The check is rerun after every report. Suppose reports come only from the batch and none follow a terminal one. If the check holds after report `j`, then `j` is the last report, so navigation fires at most once. |

## Left out

- The byte level. `TextDecoder` streaming UTF-8 decoding and `TextEncoder` are not modelled: chunks are text and frames are strings.
- JSON.parse. It is a foreign call, modelled as an abstract partial function. Documents keep only the fields the code reads. A non-object JSON value is a `Value` whose fields are absent.
- Payload step and message. `Payload.Document` carries `step` and `message` as an integer and a string. A payload without them, where JavaScript would copy `undefined`, is not told apart.
- Numbers. Nutrient and measurement values are `real` and are only copied, never computed with. Floating point is not modelled.
- Collaborators. The session library, Prisma queries and writes, the image download, the multipart upload to the analyzer and the S3 client are outside the model. Only their answers (`Admission.Collaborators`) and the order of calls are modelled.
- Relay.Run: models only an upstream that ends normally. These error paths are not modelled:
  - A rejected `reader.read()` (route.ts:108) jumps to the outer catch (route.ts:170-177), so no record is written even when a result was already captured.
  - The route's `maxDuration = 300` (route.ts:7) is not modelled. A platform that enforces it cuts the relay off after 300 seconds, and then no record is written. A standalone build does not enforce it.
  - A `controller.enqueue` that throws after the client has gone is swallowed by the per-line catch (route.ts:131-133). That frame is lost, but the capture stays and the loop goes on.
- Admission.Admit: a `fetch` of the image or of the analyzer (route.ts:63, 81), or `imageResponse.blob()` (route.ts:71), that throws rather than answering escapes the handler instead of giving the modelled JSON 500. Only a non-OK answer is modelled.
- Carriage returns. The relay splits on LF only and never checks a payload for CR. A browser event source would treat a CR inside a forwarded payload as a line break. `Relay.IsEventFrame` does not exclude it.
- Write failures. A failure of the analysis write, and the `controller.close`/`controller.error` try/catch (route.ts:165-177), are runtime stream plumbing and not modelled. `console.error` logging is dropped.
- The EventSource. The browser's own parsing of frames is not modelled: the card receives each message's `data` text. Reconnection is not modelled either. The fact that a closed source delivers nothing is modelled in `Card.AnalysisCard.Dispatch`.
- React. Rendering, `useEffect` scheduling, `toast`, `setTimeout` and `router.push` are not modelled. Navigation is the predicate `Progress.ShouldNavigate`.
- Concurrent cards. Their concurrency is one interleaved sequence of reports.
- Progress.NavigatesAtMostOnce: takes "no report after a terminal one" as a hypothesis. It is not derived by composing several `Card.AnalysisCard` objects. Each card's `Valid` states the per-card fact. In the application a card's event source stays open across re-renders only because `next.config.ts` enables the React compiler. The compiler keeps the inline `onStatusChange` (page.layout.tsx:191-193) stable. Without it, the effect keyed on that callback (page.layout.tsx:97) would close and reopen every card's source after every report. The model assumes the compiled, stable behaviour.
- The batch size. `mealItems.length` is the size of a set of distinct item ids.
- Pages, components, authentication gating, the upload/meals/articles/members routes and configuration are not part of this model.
