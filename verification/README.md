# Verified models of the hard cores of the Adea repository

Dafny models of eight parts of the repository, each with the properties its documentation or
its tests rely on, proved for all inputs, all runs or all layouts. Text is a sequence of UTF-16
code units throughout (`CodeUnits`). Verify everything with `dafny verify dfyconfig.toml`.

## What is modelled

1. **Raw JSON scanning and redaction** (`JsonGrammar`, `JsonTree`, `JsonScanner`,
   `JsonScanning`, `JsonRedaction`, `JsonCredentials`). A `Document` is one *layout* of a JSON
   value: every blank, every spelling of a string, every duplicate member. `ParseDocument` is a
   reference parser for sections 2 to 7 of RFC 8259, and its texts are exactly the layouts. The
   scanners are loops proved equal to index functions that are total on malformed text; the
   lemmas then prove those functions right on every layout. `JsonSpelling` is the grammar of
   strings and numbers without scanning, `JsonPaths` the strings of a document by place.
2. **Leak check** (`LeakCheck`, `LeakCoverage`), on top of part 1.
3. **Canonical JSON** (`CanonicalJson`, `CanonicalMeaning`), on the same grammar.
4. **Workspace event stream** (`EventFrames`, `FrameText`, `EventSequence`, `EventRefreshes`,
   `WorkspaceEvents`, `FrameSorting`, `WireEvents`, `StreamReconnect`): the framing of a stream
   cut into arbitrary reads, the gap rule, what each frame asks for, the whole way from the
   frames the server writes to the refreshes of the client, and the reconnect machine.
5. **Addressed turns** (`AddressedTurns`, `TurnConvergence`, `TurnReplay`, `TurnReading`,
   `TurnCache`, `TurnWrites`, `TurnRuns`): the merge, the replay, the paged read, the cache write rule, and
   runs of overlapping reads, answers, denials and audience changes.
6. **Module discovery** (`ModuleGraph`, `ModuleTargets`, `ModuleNames`, `ModuleEnumeration`,
   `ModuleResolution`, `ModuleVisit`, `ModuleEdges`, `ModuleDiscovery`, `ModuleCollision`):
   export resolution through cyclic `export *`, the enumeration of export names, both exact
   against rules without order, and the visit of (file, selection) nodes.
7. **Desktop authorization** (`Base64Url`, `Base64Bits`, `DesktopAuthorization`,
   `DesktopCodes`, `DesktopAcceptance`): encoders and parsers of both sides, what each accepts
   and refuses, the end-to-end round trip, and the code protocol as a state machine over
   interleaved exchanges.
8. **Secret redaction** (`SecretRedaction`, `RedactionShape`): sequential replacement, then
   truncation, and the choice of the lines.

Methods follow the source's loops and state changes; each is proved equal to a function, and the
lemmas are about that function.

## Where the code differs from what it says

- `packages/data/src/addressed-turns.ts:17` calls the merge order-insensitive for state. It is
  so **if and only if** no causal id carries two different terminal states
  (`TurnConvergence.SettlesIff`): between two terminal states the first copy wins.
- The visit key of `apps/web/start/ui-tailwind-sources.ts:764` is shared by a named import of an
  export called `all` and a whole-module import (likewise `execute` and `side-effect`).
  `ModuleDiscovery.KeysCollideExactly` gives all collisions. A walk visits everything that is
  reached if and only if no two reached nodes share a key (`ModuleDiscovery.WalkedIsExact`);
  `ModuleCollision.TwoOrdersTwoAnswers` is an entry module whose two import orders find
  different files.
- A mutation answer that lands while access is denied moves the fence up
  (`TurnCache.AnswerWhileDenied`), so it keeps out a fresh authorized read that was already on
  its way. `TurnRuns.FreshReadIsKeptOutIff` says exactly when that happens. The cache stays
  empty; the next read lifts the denial.
- Replacing a secret can form it again at the placeholder's brackets, or leave a secret that is
  part of the placeholder. `SecretRedaction.OneSecretIsCompleteIff` says exactly when one secret
  is removed from every text; for several, `SecretRedaction.RedactionIsCompleteIff` does when
  each is apart from the placeholder or part of it.
- A module specifier that is the empty string is resolved by the enumeration of export names and
  skipped by the resolution (`ModuleNames.EmptySpecifierIsListedOnly`), so
  `ModuleNames.ExportedNamesResolve` asks for non-empty specifiers where it looks.
- The event format is the LF-only part of section 9.2.6 of the WHATWG HTML standard with all
  leading white space of a value trimmed, and frames with neither data nor retry dropped. The
  model follows the code.

## Assumptions

- `Number(value)` in a `retry:` line, `Number.isSafeInteger` of a JSON number, the test that chooses failing lines, SHA-256 and the page
  server are parameters. The digest is injective where a lemma says so. Codes are fresh.
- Numbers in canonical JSON are their printed text. Members of a JavaScript object are listed
  once per name.
- A decoded byte stream is a sequence of text pieces. URL query strings are lists of parameters.
- Module paths hold no NUL; modules are records of what the TypeScript syntax tree says.
  Enumerated names and visited files are sets, since the source sorts them at the end.
- Every write to the turn cache passes through `foldAddressedTurnCache`, as
  `packages/data/src/addressed-turns.ts:279-281` states.
- `matches` compares UTF-8 bytes; the model compares the texts.

## Model

| member | source | states |
|---|---|---|
| JsonGrammar.ParsedDocumentIsText | scripts/fresh-postgres-acceptance/built-worker-failures.ts:316-322 | The grammar behind `JSON.parse`: whatever the reference parser accepts is the text of a well-formed layout, and that layout prints back to the same text. |
| JsonGrammar.DocumentTextParses | scripts/fresh-postgres-acceptance/built-worker-failures.ts:316-322 | Every well-formed layout, with any blanks, escapes and duplicate members, parses back to exactly itself, so layouts and JSON texts correspond one to one. |
| JsonSpelling.DecodeIsSpelling | scripts/fresh-postgres-acceptance/built-worker-failures.ts:316-322 | The reference reads strings as section 7 of RFC 8259 writes them: a text decodes to a string if and only if it spells it unit by unit, each unit by itself, by one of the eight short escapes, or by four hexadecimal digits of either case. |
| JsonSpelling.NumberIs | scripts/fresh-postgres-acceptance/built-worker-failures.ts:316-322 | It reads numbers as section 6 does: an optional minus, an integer without leading zeros, an optional fraction and an optional exponent. |
| JsonScanner.ScanString | scripts/fresh-postgres-acceptance/built-worker-failures.ts:170-182 | The loop ends inside the text, also on malformed input, right where the first unescaped quote ends the string. |
| JsonScanner.ScanValue | scripts/fresh-postgres-acceptance/built-worker-failures.ts:190-214 | The loop finds the end of a string, a nested group or a bare scalar, and never leaves the text, whatever it is. |
| JsonScanner.ScanSpace | scripts/fresh-postgres-acceptance/built-worker-failures.ts:234-243 | Skips exactly the white space up to a limit. |
| JsonScanner.TopLevelMemberValue | scripts/fresh-postgres-acceptance/built-worker-failures.ts:222-255 | The depth-counting loop returns the span of the first top-level member with the key, and spans lie inside the text. |
| JsonScanner.CollectJsonMembers | scripts/fresh-postgres-acceptance/built-worker-failures.ts:406-448 | The walk with its nested slices terminates on any text and returns the specified values in order. |
| JsonScanning.StringEndAt | scripts/fresh-postgres-acceptance/built-worker-failures.ts:170-182 | For every legal spelling of a string the scanner stops exactly behind its closing quote. |
| JsonScanning.ValueEndAt | scripts/fresh-postgres-acceptance/built-worker-failures.ts:190-214 | For every well-formed value the scanner stops at its end; only a bare scalar takes the blanks behind it along. |
| JsonScanning.NestSkipsValue | scripts/fresh-postgres-acceptance/built-worker-failures.ts:196-206 | Brackets inside strings and nested groups never unbalance the depth count. |
| JsonScanning.CollectedDocument | scripts/fresh-postgres-acceptance/built-worker-failures.ts:379-448 | On every layout of a document the raw walk returns exactly the non-empty decoded strings of the tree, of one name or of all, at any depth, duplicates kept, in document order. |
| JsonScanning.WalkReadsTheDocument | scripts/fresh-postgres-acceptance/built-worker-failures.ts:379-448 | The same for any text the reference parser accepts. |
| JsonScanning.JsonMemberValues | scripts/fresh-postgres-acceptance/built-worker-failures.ts:386-390 | Returns exactly the non-empty decoded string values of members with that decoded name, in document order, on every JSON text. |
| JsonScanning.JsonAllMemberValues | scripts/fresh-postgres-acceptance/built-worker-failures.ts:400-404 | Returns exactly all non-empty leaf strings, decoded, in document order, on every JSON text. |
| JsonPaths.StringsStandSomewhere | scripts/fresh-postgres-acceptance/built-worker-failures.ts:379-448 | What the walks collect, by place: a string is collected if and only if it is not empty and stands at the end of some path of member and item numbers, and, when a name is asked for, the last step is to a member of that name. |
| JsonCredentials.DecodedWalkAddsNothing | scripts/fresh-postgres-acceptance/built-worker-failures.ts:456-466 | Every credential the decoded walk finds, where the last duplicate wins, is already among the values of the raw walk. |
| JsonCredentials.UnseenKeepsValues | scripts/fresh-postgres-acceptance/built-worker-failures.ts:341-363 | Collecting through a set keeps every non-empty value once. |
| JsonCredentials.AddUnseen | scripts/fresh-postgres-acceptance/built-worker-failures.ts:345-361 | Adds exactly the candidates not found before, in order. |
| JsonCredentials.RawCredentialValues | scripts/fresh-postgres-acceptance/built-worker-failures.ts:341-363 | On a JSON body: every distinct non-empty credential of the document, duplicates and escaped keys included; on other text only what the raw walk finds. |
| JsonRedaction.SpanOfDocument | scripts/fresh-postgres-acceptance/built-worker-failures.ts:222-255 | On every layout the span is the value of the first matching top-level member, and there is none if and only if no top-level member matches. |
| JsonRedaction.MatchIsFirstOfName | scripts/fresh-postgres-acceptance/built-worker-failures.ts:216-255 | With decoded keys, a match exists if and only if a member has that name, however it is spelled, and it is the first one. |
| JsonRedaction.FieldRedaction | scripts/fresh-postgres-acceptance/built-worker-failures.ts:257-272 | The redacted text is a layout of the same document with exactly the first matching value replaced, or the unchanged text. |
| JsonRedaction.SessionTokenRedaction | scripts/fresh-postgres-acceptance/built-worker-failures.ts:274-291 | The redacted text is the layout with exactly the token leaf of the session object replaced, or the unchanged text when either level is missing. |
| JsonRedaction.SessionTokenTree | scripts/fresh-postgres-acceptance/built-worker-failures.ts:274-291 | In the tree, the first session object loses its first token, a string, and no other member, duplicate or nested copy changes; without such a token nothing does. |
| JsonRedaction.ReplacedTree | scripts/fresh-postgres-acceptance/built-worker-failures.ts:257-272 | In the tree, one member's value becomes the placeholder; every other member, nested copies and duplicates included, stays. |
| LeakCheck.CarriesSecret | scripts/fresh-postgres-acceptance/built-worker-desktop-auth.ts:740-766 | The check searches the joined open parts of the headers, the redacted body and every decoded leaf, in the order the code does; `CarriesExactly` says what that finds. |
| LeakCheck.SearchedHeaderIs | scripts/fresh-postgres-acceptance/built-worker-desktop-auth.ts:745-755 | What is searched of a header is exactly what is left open: all of it when no exemption names it; when the first that names it is for the fragment only, what stands before the first `#`; else nothing. |
| LeakCheck.OccurrenceIsLast | scripts/fresh-postgres-acceptance/built-worker-desktop-auth.ts:730-733 | A further occurrence of a value is one more exemption in its own response, behind the others, and none in any other response. |
| LeakCheck.SearchedBodyIsDocument | scripts/fresh-postgres-acceptance/built-worker-desktop-auth.ts:757-762 | What is searched of a JSON body is again a JSON document: the body with the exempted single leaves replaced, one after another. |
| LeakCheck.PassedResponseIsClean | scripts/fresh-postgres-acceptance/built-worker-desktop-auth.ts:740-766 | If the check passes a response with a JSON body, no open part of a header, as `SearchedHeaderIs` describes it, and no decoded leaf of the searched document contains the secret. |
| LeakCheck.CarriesExactly | scripts/fresh-postgres-acceptance/built-worker-desktop-auth.ts:740-766 | For a secret without blank and line break the check is exact: it stops a response with a JSON body if and only if an open part of a header, the searched text or one of its decoded leaves contains the secret. |
| LeakCheck.FieldExemptionHidesOneValue | scripts/fresh-postgres-acceptance/built-worker-desktop-auth.ts:759-761 | A field exemption takes exactly one member's strings out of the search and leaves all others. |
| LeakCheck.LeakRecord.constructor | scripts/fresh-postgres-acceptance/built-worker-desktop-auth.ts:667-668 | Starts with the caller's secrets observed and nothing exempted. |
| LeakCheck.LeakRecord.ObserveIssued | scripts/fresh-postgres-acceptance/built-worker-desktop-auth.ts:708-734 | Observes every non-empty value, records every occurrence, and never exempts a value the caller named. |
| LeakCheck.LeakRecord.Leaked | scripts/fresh-postgres-acceptance/built-worker-desktop-auth.ts:1728-1735 | Lists exactly the observed secrets that some response carries outside its own exemptions. |
| LeakCoverage.HiddenIsOnePerField | scripts/fresh-postgres-acceptance/built-worker-desktop-auth.ts:759-761 | Field exemptions take at most one member out of the search for each exempted field, however often it is named. |
| LeakCoverage.HiddenIsFirstSpelling | scripts/fresh-postgres-acceptance/built-worker-desktop-auth.ts:759-761 | The member is the first that is written exactly as the field; there is none if and only if none is written so. |
| LeakCoverage.FieldsKeepOthers | scripts/fresh-postgres-acceptance/built-worker-desktop-auth.ts:759-761 | A whole list of field exemptions, applied one after another, puts the placeholder into those members and changes no other. |
| LeakCoverage.CoveredIsSearched | scripts/fresh-postgres-acceptance/built-worker-desktop-auth.ts:756-765 | Every leaf of the response's own document outside those members and outside the one session token is a leaf of what is searched. |
| LeakCoverage.SearchedIsCovered | scripts/fresh-postgres-acceptance/built-worker-desktop-auth.ts:756-765 | And nothing else is: a leaf of what is searched is such a leaf, or the placeholder. |
| LeakCoverage.NothingLeakedMeansClean | scripts/fresh-postgres-acceptance/built-worker-desktop-auth.ts:1725-1735 | If nothing leaked, no leaf of a JSON response outside one value per exempted field and the one session token contains an observed secret; no header that no exemption names does, and none before its first `#` when the first exemption that names it is for the fragment; and a caller-named secret is nowhere at all. |
| CanonicalJson.QuoteRoundTrip | scripts/pi-durable-candidate/model-connections-consumer.ts:256-256 | Decoding a quoted string gives the string back, lone surrogates and control characters included. |
| CanonicalJson.PrintedNamesAreSorted | scripts/pi-durable-candidate/model-connections-consumer.ts:259-261 | The printed names are strictly ascending by code unit (section 3.2.3 of RFC 8785) and are exactly the defined members. |
| CanonicalJson.CanonicalIsLayout | scripts/pi-durable-candidate/model-connections-consumer.ts:255-264 | The printed text is a well-formed JSON layout without blanks. |
| CanonicalJson.CanonicalParses | scripts/pi-durable-candidate/model-connections-consumer.ts:255-264 | The printed text parses back to that very layout: unique decoding. |
| CanonicalJson.CanonicalIsInjective | scripts/pi-durable-candidate/model-connections-consumer.ts:255-264 | Two values print the same if and only if they are equal up to key order, undefined members, and what `JSON.stringify` prints as null: undefined items and non-finite numbers. |
| CanonicalMeaning.CanonicalMeansTheSame | scripts/pi-durable-candidate/model-connections-consumer.ts:255-264 | Printed and parsed again, every value means what it meant: same words, numbers, strings and items, and each defined name with its value. |
| EventFrames.ParseEventFrames | packages/data/src/events.ts:187-221 | The line loop yields the frames of the terminated blocks. |
| EventFrames.BlocksAreDispatch | packages/data/src/events.ts:195-219 | Splitting at double newlines from the left gives the same frames as reading line by line and dispatching at each blank line, runs of three and more newlines included. |
| EventFrames.TextSeparates | packages/data/src/events.ts:195-219 | A blank line separates: the frames of two parts are the frames of each, wherever it stands in a run of newlines. |
| EventFrames.FramesAppend | packages/data/src/events.ts:487-491 | The frames of what was handed on and of the next chunk concatenate. |
| EventFrames.PartialFrame | packages/data/src/events.ts:193-196 | An unterminated tail adds no frame. |
| EventFrames.ReadStream | packages/data/src/events.ts:480-493 | However the stream is cut into reads, the frames handed on are those of the whole stream, and the buffer is its unterminated tail. |
| FrameText.LinesAreFields | packages/data/src/events.ts:195-217 | A block read line by line is its fields: all data values joined by newlines, the last event, id and retry value, where a line gives a value to a field if and only if it starts with its name and a colon. |
| FrameText.BlockIsRead | packages/data/src/events.ts:195-219 | A terminated block is that frame, or none when it has neither data nor a retry. |
| FrameText.DataLines | packages/data/src/events.ts:211-211 | Data values that are not empty come back by splitting the data at newlines. |
| FrameText.StreamIsReceived | apps/web/src/server/workspace-event-stream.ts:15-100 | What the server writes is what the client parses: every message is one frame with its own id, event and data, and a heartbeat is none. |
| EventSequence.WorkspaceStream.constructor | packages/data/src/events.ts:253-261 | Starts from the stored sequence and cursor with nothing queued. |
| EventSequence.WorkspaceStream.PersistCursorToken | packages/data/src/events.ts:301-309 | Only a non-empty token replaces the cursor. |
| EventSequence.WorkspaceStream.Queue | packages/data/src/events.ts:325-329 | Queued refreshes are deduplicated. |
| EventSequence.WorkspaceStream.ApplyEvent | packages/data/src/events.ts:359-390 | The new sequence and exactly what is queued, for duplicates, gaps, withheld events and audience changes. |
| EventSequence.WorkspaceStream.HandleFrame | packages/data/src/events.ts:392-447 | One sorted frame's effect on sequence, cursor and queue; only an unavailable stream drops it. `WorkspaceEvents` sorts the frames by event name and payload. |
| EventSequence.WorkspaceStream.FlushRefresh | packages/data/src/events.ts:331-338 | Everything queued is invalidated once, and nothing stays queued. |
| EventSequence.WorkspaceStream.HandleRead | packages/data/src/events.ts:487-506 | One read applies its frames up to the first that drops the stream, and what they queued is flushed also then. |
| EventSequence.RunOnlyGrows | packages/data/src/events.ts:359-390 | Over any delivery, duplicates and reorderings included, the applied sequence never falls. |
| EventSequence.DuplicatesAreHarmless | packages/data/src/events.ts:364-367 | A replayed or reordered old event queues nothing and keeps the sequence. |
| EventSequence.NoSilentGap | packages/data/src/events.ts:372-383 | Once the sequence is positive, every later number up to it was passed by a frame that queued a refresh of the whole workspace, or that carried just this number and was withheld or queued the groups of its own event. |
| EventSequence.LostEventIsRefreshed | packages/data/src/events.ts:372-383 | An event that was never delivered, though its replay token was stored, is followed by a queued workspace refresh. |
| EventRefreshes.QueuedExactly | packages/data/src/events.ts:359-403 | A refresh is queued if and only if some frame asks for it when its turn comes: the groups of its type for a new event in order, workspace and account for a new audience change, workspace, directory and inbox for a resync and for a gap. |
| EventRefreshes.EventInOrder | packages/data/src/events.ts:384-390 | A new event in order asks for the groups of its own type and for nothing else, and they are queued. |
| EventRefreshes.AppliedIsHighest | packages/data/src/events.ts:359-390 | The sequence reached is the highest there was: the one at the start, or one that a frame carries. |
| EventRefreshes.CursorIsLast | packages/data/src/events.ts:301-309 | The replay cursor is the last token there was, or else the one at the start; a withheld frame without a positive sequence has none. |
| EventRefreshes.HandledExactly | packages/data/src/events.ts:409-413 | Of a read that is dropped on the way, exactly the frames in front of the first that drops it are asked. |
| WorkspaceEvents.HandleChunk | packages/data/src/events.ts:487-492 | One chunk of whole frames is parsed, sorted, handled and flushed. |
| WorkspaceEvents.ReadEvents | packages/data/src/events.ts:392-506 | From characters to refreshes: however the stream is cut into reads, sequence, cursor and refreshes are those of its frames, sorted by event and JSON data, handled in one go up to the first that drops the stream. |
| FrameSorting.EventIsRead | packages/data/src/events.ts:433-447 | A frame `workspace.event` whose JSON payload, in any layout, holds a sequence and a type is that event, duplicates of a name counting by the last. |
| FrameSorting.WithheldIsRead | packages/data/src/events.ts:414-432 | A withheld frame or an audience change counts if and only if its payload is an object with no other name than the sequence, the last of which is a positive safe integer; otherwise it is passed over. |
| FrameSorting.OthersAreRead | packages/data/src/events.ts:399-433 | A resync and an unavailable stream are taken by name alone, and every other name is passed over. |
| FrameSorting.BrokenDataIsRead | packages/data/src/events.ts:438-446 | Of an event whose data is no JSON only the replay token counts, and a withheld frame with such data is passed over. |
| FrameSorting.StreamRefreshes | packages/data/src/events.ts:477-506 | What `ReadEvents` flushes is exactly what the frames ask for that come before every frame that drops the stream. |
| WireEvents.WireIsRead | apps/web/src/server/workspace-event-stream.ts:15-100 | The wire text of any deliveries, read and sorted, is these deliveries: events, withheld ones, audience changes, resyncs and draining, with their tokens. |
| WireEvents.DeliveredAndHandled | packages/data/src/events.ts:392-506 | From server to cache: however the wire text is cut, `ReadEvents` ends in the sequence and cursor of the deliveries up to the first that drains the stream, and has flushed a refresh if and only if one of these asks for it. |
| StreamReconnect.DelayIsBounded | packages/data/src/events.ts:177-184 | The jittered delay lies between half the exponential step and the step, which is capped. |
| StreamReconnect.StepDoubles | packages/data/src/events.ts:177-184 | The step is one second for the first attempt, doubles with each further one, and is 30 seconds from the sixth on. |
| StreamReconnect.Subscription.constructor | packages/data/src/events.ts:253-270 | A visible subscription starts its first stream, a hidden one none. |
| StreamReconnect.Subscription.RunStream | packages/data/src/events.ts:536-546 | Starts a stream only when none is in flight and it is neither hidden nor stopped. |
| StreamReconnect.Subscription.ArmTimer | packages/data/src/events.ts:509-524 | Replaces the timer, or starts at once when the deadline has passed. |
| StreamReconnect.Subscription.Schedule | packages/data/src/events.ts:526-534 | Sets the deadline from backoff and the server's minimum, then arms. |
| StreamReconnect.Subscription.StreamEnded | packages/data/src/events.ts:500-552 | Resets the attempts after a stable stream, then restarts if asked to or schedules. |
| StreamReconnect.Subscription.TimerFired | packages/data/src/events.ts:519-523 | Clears deadline and timer before it runs. |
| StreamReconnect.Subscription.RequestReconnect | packages/data/src/events.ts:554-566 | Keeps a pending deadline, marks a stream in flight, or starts one. |
| StreamReconnect.Subscription.VisibilityChanged | packages/data/src/events.ts:568-578 | Hiding cancels timer and request but not the deadline; showing reconnects. |
| StreamReconnect.Subscription.Halt | packages/data/src/events.ts:587-593 | Stops for good and disarms. |
| StreamReconnect.StepKeepsValid | packages/data/src/events.ts:509-594 | Every event keeps it: never a stream beside an armed timer, at most one stream, and visible and not stopped means a stream or an armed timer. |
| StreamReconnect.EveryRunIsValid | packages/data/src/events.ts:509-594 | So does every interleaving of stream ends, timers, visibility, reconnect, stop and time. |
| StreamReconnect.StartsAreAllowed | packages/data/src/events.ts:536-552 | In every run a start happens only when the stream before has ended, not after stop or while hidden, and not before a pending deadline. |
| StreamReconnect.StopIsFinal | packages/data/src/events.ts:587-593 | After stop no stream ever starts. |
| StreamReconnect.EndSetsDeadline | packages/data/src/events.ts:526-534 | A stream that ends by itself leaves an armed deadline of at least half the first step and the server's minimum. |
| StreamReconnect.DeadlineHolds | packages/data/src/events.ts:509-566 | No sequence of hiding, showing and reconnect calls starts a stream before that deadline. |
| StreamReconnect.EndIs | packages/data/src/events.ts:500-552 | How a stream's end goes on: hidden or stopped, nothing follows; a requested reconnect starts the next stream at once; else an armed timer waits for the step of one more attempt, of the first after a stable stream, and for the server's minimum. |
| StreamReconnect.ReconnectIs | packages/data/src/events.ts:554-578 | A reconnect asked for, and coming back into view: a stream in flight is marked to be followed at once, a deadline to come is waited for, and otherwise a stream starts. |
| StreamReconnect.HideIs | packages/data/src/events.ts:568-593 | Hiding and stopping disarm the timer, take a request back, keep the deadline and start nothing. |
| StreamReconnect.FireStarts | packages/data/src/events.ts:519-523 | A timer that fires starts the next stream and clears the deadline. |
| StreamReconnect.RequestIsServed | packages/data/src/events.ts:549-566 | A reconnect asked for during a stream is served when that stream ends, whatever the backoff is and whatever waits in between. |
| AddressedTurns.ShiftIndex | packages/data/src/addressed-turns.ts:108-108 | Moves exactly the positions from the insertion point on. |
| AddressedTurns.BuildIndex | packages/data/src/addressed-turns.ts:98-98 | The index is the inverse of the list, the last duplicate winning. |
| AddressedTurns.IndexAfterInsert | packages/data/src/addressed-turns.ts:105-109 | Shifting and setting keeps the index the inverse of the list through an insert in the middle. |
| AddressedTurns.FindInsert | packages/data/src/addressed-turns.ts:105-106 | The backward search stops at the first place behind a turn that is not after the new one. |
| AddressedTurns.FoldAddressedTurns | packages/data/src/addressed-turns.ts:93-112 | The in-place loop with its index computes the fold. |
| AddressedTurns.FoldAppend | packages/data/src/addressed-turns.ts:86-112 | Two batches one after the other are one batch. |
| AddressedTurns.FoldRow | packages/data/src/addressed-turns.ts:86-112 | One row per causal id of held and incoming, each the left fold of its own copies whatever other ids do. |
| AddressedTurns.FoldDistinct | packages/data/src/addressed-turns.ts:86-112 | Distinct ids stay distinct. |
| AddressedTurns.AdvanceTable | packages/data/src/addressed-turns.ts:52-78 | A copy takes the place of the held one if and only if its state comes later in claimed, dispatching, ended; or the state is the same and it was updated later, or at the same time and names more of response and lead intent. |
| CodeUnits.LessIs | packages/data/src/addressed-turns.ts:73-91 | The order of texts behind it: one comes before another if and only if it is a proper start of it or is smaller at the first unit where they differ. |
| TurnConvergence.SortedAscends | packages/data/src/addressed-turns.ts:80-91 | A sorted list ascends by creation time, and by id within one time. |
| TurnConvergence.FoldKeepsOrder | packages/data/src/addressed-turns.ts:89-90 | Held rows keep their order. |
| TurnConvergence.FoldSorted | packages/data/src/addressed-turns.ts:80-112 | A sorted list stays sorted when copies of an id agree on creation time and id. |
| TurnConvergence.FoldIsIdempotent | packages/data/src/addressed-turns.ts:16-17 | Applying the same batch twice is applying it once, for every batch. |
| TurnConvergence.FoldIsFurthest | packages/data/src/addressed-turns.ts:60-78 | With at most one terminal state per id, the row is a copy that no other copy is ahead of. |
| TurnConvergence.ArrivalOrderIsIrrelevant | packages/data/src/addressed-turns.ts:16-17 | Then any order, repetition or batching of the same copies gives the id the same state, time and knowledge. |
| TurnConvergence.SettlesIff | packages/data/src/addressed-turns.ts:67-78 | All orders of the copies of an id give one state if and only if they carry at most one terminal state. |
| TurnConvergence.RowOrderIsIrrelevant | packages/data/src/addressed-turns.ts:80-112 | From a sorted start with distinct turn ids, the row order does not depend on the arrival order either. |
| TurnReplay.HeldMap | packages/data/src/addressed-turns.ts:127-127 | Maps each causal id to the held row. |
| TurnReplay.ApplyAddressedTurnReplay | packages/data/src/addressed-turns.ts:122-140 | The loop with its set computes the replayed list. |
| TurnReplay.SortTurnsIsSort | packages/data/src/addressed-turns.ts:137-138 | The tail is sorted and a permutation. |
| TurnReplay.ReplayedShape | packages/data/src/addressed-turns.ts:114-140 | The result is the replay's ids in first-occurrence order, then the sorted held turns that are neither listed nor held at the start, and nothing else. |
| TurnWrites.ReplayedRow | packages/data/src/addressed-turns.ts:114-140 | A complete page, id by id: what it lists is held in its first copy, advanced from the held one; what it omits stays if and only if it was held and not yet when the read began. |
| TurnReplay.ReplayNeverRegresses | packages/data/src/addressed-turns.ts:114-140 | A replay never lowers the rank or changes the terminal state of a turn that is held once, whatever else is held. |
| TurnReplay.ReplayIsIdempotent | packages/data/src/addressed-turns.ts:114-140 | Applying the same replay again changes nothing, for every held list. |
| TurnReading.ReplayAddressedTurns | packages/data/src/addressed-turns.ts:181-204 | The paging loop computes the pages up to the end, the cap or a stuck cursor, against any server. |
| TurnReading.CompleteMeansComplete | packages/data/src/addressed-turns.ts:180-204 | Over a committed list the read is called complete if and only if the cap covers the list; it then is the whole list, and otherwise the oldest pages. |
| TurnReading.StuckCursorEndsTheRead | packages/data/src/addressed-turns.ts:199-200 | A cursor that does not advance ends the read as unfinished after two requests. |
| TurnCache.FenceIsExact | packages/data/src/addressed-turns.ts:225-238 | While denied, a write of the same audience epoch restores turns if and only if its read began after the fence. |
| TurnCache.AnswerWhileDenied | packages/data/src/addressed-turns.ts:298-306 | A mutation answer restores nothing while denied, but moves the fence to the current clock. |
| TurnCache.WriteNeverRegresses | packages/data/src/addressed-turns.ts:205-239 | No write of the same epoch regresses a turn that is held once and stays. |
| TurnCache.AnswerIsWrittenAsFolded | packages/data/src/addressed-turns.ts:298-314 | The answer folded by the mutation and folded again by the write rule gives the list of one fold. |
| TurnWrites.WriteIs | packages/data/src/addressed-turns.ts:229-238 | A write between undenied states of one epoch: a complete page drops exactly the turns that it omits and that were held when its read began; a partial one drops nothing; the status is the page's own and the fence is cleared. |
| TurnWrites.WrittenRow | packages/data/src/addressed-turns.ts:229-238 | Which copy a write leaves of each id: the first listed one advanced from the held one, all listed ones in turn for a partial page, the held one when it is not listed. |
| TurnWrites.UncontestedWrite | packages/data/src/addressed-turns.ts:225-227 | On nothing, or on the list of another epoch, a page is stored as it is. |
| TurnWrites.DenialEmpties | packages/data/src/addressed-turns.ts:218-224 | A denial empties whatever is held, of whatever epoch, and puts the fence at the clock. |
| TurnWrites.AnswerIsHeld | packages/data/src/addressed-turns.ts:298-327 | A mutation answer of the epoch shown: its turn is held, advanced from the held copy, and no other turn comes, goes or changes. |
| TurnWrites.AnswerElsewhere | packages/data/src/addressed-turns.ts:303-313 | The first answer starts an unfinished list of one turn; an answer does not touch the list of another epoch. |
| TurnRuns.RunKeepsValid | packages/data/src/addressed-turns.ts:212-281 | In every run whose reads list each id once, rows stay distinct, a denied cache is empty, and the fence is not ahead of the clock. |
| TurnRuns.NoEventRegresses | packages/data/src/addressed-turns.ts:212-281 | In every run no event lowers the rank or changes the terminal state of an id held once before and held after it, within an epoch. |
| TurnRuns.LandedTurns | packages/data/src/addressed-turns.ts:206-274 | In every run, when a read lands after anything in between: on an undenied list of its epoch a turn is held if and only if the read lists it, or it was held just before and, for a complete read, not yet when the read began; elsewhere exactly what was read is held. |
| TurnRuns.WithdrawnTurnsLeave | packages/data/src/addressed-turns.ts:254-274 | So in every run a turn held when a complete read began, which the read does not list, is gone once it lands, whatever came in between. |
| TurnRuns.DenialFence | packages/data/src/addressed-turns.ts:205-239 | Once a denial is recorded, within one epoch, the cache holds no turns until a read that began later lands, for every interleaving of reads and answers. |
| TurnRuns.FreshReadIsKeptOutIff | packages/data/src/addressed-turns.ts:212-239 | While a denial stands, a read starts and anything of the same epoch runs, but no read from behind the fence lands: its complete list is kept out if and only if in between a mutation was answered or a read in flight was denied; otherwise exactly that list is shown. |
| TurnRuns.AnswerOutrunsFreshRead | packages/data/src/addressed-turns.ts:225-239 | So one mutation answer between start and landing keeps an authorized read out. |
| ModuleGraph.DeduplicatedKeys | apps/web/start/ui-tailwind-sources.ts:817-824 | Deduplication keeps exactly the keys and invents no target. |
| ModuleGraph.ResolvedAreOwn | apps/web/start/ui-tailwind-sources.ts:609-716 | Every target found is an own target of a star-reachable module. |
| ModuleGraph.PathIsFollowed | apps/web/start/ui-tailwind-sources.ts:609-716 | The path-based chain never cuts a target off: along each simple star path the end's own targets are found, and its errors surface. |
| ModuleGraph.ThrowsAreOwn | apps/web/start/ui-tailwind-sources.ts:609-716 | It throws only where a star-reachable module itself throws. |
| ModuleGraph.ResolvesExactly | apps/web/start/ui-tailwind-sources.ts:609-716 | Resolution ends on cyclic graphs and finds, by key, exactly the union of the own targets of all star-reachable modules; it throws if and only if one of them does. |
| ModuleGraph.DefaultIsOwn | apps/web/start/ui-tailwind-sources.ts:630-631 | `default` never passes a star export. |
| ModuleTargets.OwnIs | apps/web/start/ui-tailwind-sources.ts:609-716 | What a module has of its own for a name, by rules without order: its declaration, its re-exports by name and as namespace, Lucide, its local lists and its default assignments; and looking at it throws if and only if it cannot be read or, in the UI source, a specifier needed for the name does not resolve. |
| ModuleTargets.LookUpIsExact | apps/web/start/ui-tailwind-sources.ts:609-716 | So a look-up throws if and only if a star-reachable module breaks by these rules, and otherwise finds, by key, exactly what star-reachable modules have. |
| ModuleTargets.StarEdgeIs | apps/web/start/ui-tailwind-sources.ts:626-640 | A star is followed when it resolves, is not Lucide's and the name is not `default`. |
| ModuleNames.NamesAreDeclared | apps/web/start/ui-tailwind-sources.ts:718-758 | Every enumerated name is declared by a module star-reachable for it, when the specifiers of those modules are not empty. |
| ModuleEnumeration.EnumeratesExactly | apps/web/start/ui-tailwind-sources.ts:718-758 | On every graph: the enumeration throws if and only if a module on a chain of stars cannot be read or, being UI source, has a re-export that does not resolve; otherwise a name is listed if and only if a module on such a chain exports it, `default` only the file itself. |
| ModuleEnumeration.PathIsListed | apps/web/start/ui-tailwind-sources.ts:718-758 | Along each simple chain of stars the end's own names are listed and its errors surface: cutting at the chain loses nothing. |
| ModuleNames.FindsSomethingIff | apps/web/start/ui-tailwind-sources.ts:609-716 | A look-up that returns finds a target if and only if a star-reachable module has one of its own. |
| ModuleNames.ExportedNamesResolve | apps/web/start/ui-tailwind-sources.ts:718-758 | Every enumerated name resolves to at least one target, when the local export lists of the star-reachable modules name run-time bindings and their specifiers resolve. |
| ModuleNames.EmptySpecifierIsListedOnly | apps/web/start/ui-tailwind-sources.ts:625-628 | A concrete module: a name re-exported from an empty specifier that resolves is enumerated, and no look-up finds it. |
| ModuleResolution.DeduplicateTargets | apps/web/start/ui-tailwind-sources.ts:817-824 | The map of targets by key, as the list of its values. |
| ModuleResolution.PushEntries | apps/web/start/ui-tailwind-sources.ts:653-670 | The loop over a named re-export, with its error exit. |
| ModuleResolution.PushLocals | apps/web/start/ui-tailwind-sources.ts:674-693 | The loop over local export lists. |
| ModuleResolution.PushDefaults | apps/web/start/ui-tailwind-sources.ts:695-713 | The loop over default assignments. |
| ModuleResolution.PushLink | apps/web/start/ui-tailwind-sources.ts:623-671 | One export declaration: a star recurses, the rest adds its own targets. |
| ModuleResolution.PushLinks | apps/web/start/ui-tailwind-sources.ts:622-672 | The loop over all of them. |
| ModuleResolution.ResolveTargets | apps/web/start/ui-tailwind-sources.ts:609-716 | The recursion with copied chains and pushed lists computes the resolution that `ResolvesExactly` is about. |
| ModuleResolution.ExportNames | apps/web/start/ui-tailwind-sources.ts:718-758 | The recursion that fills a set computes the enumeration that `EnumeratesExactly` is about. |
| ModuleVisit.Discovery.constructor | apps/web/start/ui-tailwind-sources.ts:574-575 | Starts with nothing visited. |
| ModuleVisit.Discovery.Visit | apps/web/start/ui-tailwind-sources.ts:760-791 | On any graph: what is visited is reached, does not fail, has a key of its own, and leads to nothing whose key was not visited; a throw means a reached node fails; a seen key ends the visit. |
| ModuleVisit.Discovery.VisitImports | apps/web/start/ui-tailwind-sources.ts:775-777 | Every import edge is followed up to its key, whatever the selection, and the first one first. |
| ModuleVisit.Discovery.VisitExports | apps/web/start/ui-tailwind-sources.ts:779-790 | Every wanted name's targets are followed up to their keys; a name without target throws. |
| ModuleVisit.Discovery.VisitTargets | apps/web/start/ui-tailwind-sources.ts:783-789 | Every target of a name is followed up to its key. |
| ModuleDiscovery.KeysCollideExactly | apps/web/start/ui-tailwind-sources.ts:764-764 | Two selections share a key if and only if their pieces are the same: the comma-separated pieces of a name list, or the word of a kind. |
| ModuleDiscovery.AllNodesClosed | apps/web/start/ui-tailwind-sources.ts:760-791 | The walk stays inside finitely many nodes. |
| ModuleDiscovery.WalkedIsExact | apps/web/start/ui-tailwind-sources.ts:760-793 | On every graph a walk visits only reached nodes, and it visits all of them if and only if no two reached nodes share a key. |
| ModuleDiscovery.OrdinaryIsExact | apps/web/start/ui-tailwind-sources.ts:760-791 | No two reached nodes share a key when no import list holds a comma or is just one of the three kind words. |
| ModuleDiscovery.CollectUiSourceFiles | apps/web/start/ui-tailwind-sources.ts:793-815 | On every graph the files are the UI files of such a walk, and a throw means that a reached node fails or the walk met no UI file. If no two reached nodes share a key, the files are exactly those of all reached nodes, independent of the order of entries and imports and of cycles. |
| ModuleDiscovery.ExportEdgesAreExact | apps/web/start/ui-tailwind-sources.ts:779-790 | The export edges it follows are, up to keys, exactly the own targets of the star-reachable modules for the wanted names. |
| ModuleTargets.ImportLeadsTo | apps/web/start/ui-tailwind-sources.ts:578-607 | An import leads to a code file of the workspace or the UI source and to nothing else; it throws if and only if it has to resolve and does not, or is one of the published package and leads to code outside the UI source. |
| ModuleEdges.FailsIs | apps/web/start/ui-tailwind-sources.ts:760-791 | Visiting a node throws if and only if its file cannot be read, an import or an enumeration breaks, or a wanted name breaks or has no target in any star-reachable module. |
| ModuleEdges.EdgesAre | apps/web/start/ui-tailwind-sources.ts:774-790 | A node that does not fail leads exactly where its imports lead and, up to keys, exactly to what star-reachable modules have for the names of its selection, or for all listed names. |
| ModuleCollision.TwoOrdersTwoAnswers | apps/web/start/ui-tailwind-sources.ts:764-793 | An entry module that imports `all` and `*` from one module, run from the entry point in both orders: with the named import first a UI file is missed, in the other order it is found. |
| SecretRedaction.RedactSecrets | scripts/disposable-postgres-ci.ts:362-369 | The loop computes the replacements one after another, empty secrets skipped. |
| RedactionShape.SplitIsExact | scripts/disposable-postgres-ci.ts:366-366 | Splitting takes the secret out and nothing else: joined by the secret the pieces are the text, none holds it, and each but the last ends at its first occurrence. |
| RedactionShape.NothingToRedact | scripts/disposable-postgres-ci.ts:362-369 | A text that holds no secret is not changed. |
| SecretRedaction.SplitParts | scripts/disposable-postgres-ci.ts:366-366 | No piece of a split holds the secret, and pieces hold nothing the text did not. |
| SecretRedaction.JoinedParts | scripts/disposable-postgres-ci.ts:366-366 | Joining with the placeholder forms no part across it, if the part and the placeholder meet at no end and neither holds the other. |
| SecretRedaction.RedactKeepsOut | scripts/disposable-postgres-ci.ts:357-369 | A secret that is apart from the placeholder in that sense is gone after all replacements, whatever the other secrets are and overlap. |
| SecretRedaction.RedactionIsCompleteIff | scripts/disposable-postgres-ci.ts:357-369 | For secrets that are apart from the placeholder or parts of it: no secret is left in any text if and only if all are apart. |
| SecretRedaction.BracketFreeIsApart | scripts/disposable-postgres-ci.ts:357-369 | A secret without brackets is apart from the placeholder if and only if it is no part of it. |
| SecretRedaction.OneSecretIsCompleteIff | scripts/disposable-postgres-ci.ts:357-369 | One secret of any units is gone from every text if and only if it and the placeholder do not hold each other, it does not start as the placeholder ends, and wherever it ends as the placeholder starts the search takes an earlier occurrence. |
| SecretRedaction.BracketsCanReform | scripts/disposable-postgres-ci.ts:357-369 | A concrete secret with a bracket that forms again around the placeholder, and one that touches the placeholder and never does. |
| SecretRedaction.EvidenceIsClean | scripts/disposable-postgres-ci.ts:1002-1016 | With secrets that are apart from the placeholder, the evidence is a prefix of the redacted lines of at most 2000 units and holds no secret: redaction comes before truncation. |
| RedactionShape.ChosenLines | scripts/disposable-postgres-ci.ts:1002-1014 | The evidence is made of at most twenty trimmed, non-blank lines of the output: of failing ones alone when there are any, all of them up to twenty; else of the last five. |
| Base64Url.EncodeIsUrlSafe | packages/auth/src/desktop.ts:36-44 | Replacing and stripping `btoa` gives the encoding of section 5 of RFC 4648, unpadded: its length, and only its letters. |
| Base64Bits.EncodingIsBits | packages/auth/src/desktop.ts:36-40 | That encoding bit by bit: letter k is the letter of bits 6k to 6k+5 in the alphabet of table 2 of RFC 4648, and there are as many letters as begun groups of six bits. |
| Base64Url.UrlSafeRoundTrip | packages/auth/src/desktop.ts:36-40 | The encoding decodes back to the bytes. |
| Base64Url.EncodeIsInjective | packages/auth/src/desktop.ts:36-40 | Two byte strings have one encoding if and only if they are equal. |
| Base64Url.ConstantTimeEqual | packages/auth/src/desktop.ts:46-53 | The accumulated difference is zero if and only if the texts are equal, also for different lengths and trailing NULs. |
| DesktopAuthorization.PendingAttempt.constructor | packages/auth/src/desktop.ts:84-92 | A new attempt is unused. |
| DesktopAuthorization.PendingAttempt.Consume | packages/auth/src/desktop.ts:110-141 | A callback is read only once: a refusal leaves the attempt usable, an acceptance uses it up. `CallbackIsExact` says which is accepted. |
| DesktopAcceptance.CallbackIsExact | packages/auth/src/desktop.ts:110-141 | A callback gives an exchange if and only if the attempt has not expired, it goes to the callback address, no parameter is repeated or a credential, state and nonce are the attempt's own and the code has 8 to 512 units; the exchange has that code and the attempt's verifier and nonce. |
| DesktopAuthorization.AttemptFields | packages/auth/src/desktop.ts:68-93 | Lengths and alphabet of every field of an attempt, and the challenge is the digest of the verifier. |
| DesktopAuthorization.RequestIsAccepted | packages/auth/src/desktop-http-server.ts:32-64 | Every attempt's authorization URL is accepted with all fields unchanged. |
| DesktopAcceptance.AuthorizationIsExact | packages/auth/src/desktop-http-server.ts:32-64 | An authorization query is accepted if and only if it is just the seven parameters in any order, the fixed ones at their values and the others in bounds; it comes out with those values. |
| DesktopAuthorization.CallbackIsAccepted | packages/auth/src/desktop.ts:110-141 | Every issued callback is accepted before the attempt expires, fields unchanged. |
| DesktopAuthorization.BodyTree | packages/auth/src/desktop-http-server.ts:131-156 | The printed exchange body parses as an object of exactly the four fields. |
| DesktopAuthorization.BodyFits | packages/auth/src/desktop-http-server.ts:75-119 | It always fits the body limit. |
| DesktopAuthorization.ReadBoundedBody | packages/auth/src/desktop-http-server.ts:66-119 | The bytes of a body are read if and only if the declared length may be and the real length is within the limit, however they are cut, and they are read unchanged. |
| DesktopAuthorization.ExchangeIsAccepted | packages/auth/src/desktop-http-server.ts:121-156 | The exchange parser returns exactly the exchange the client printed. |
| DesktopAcceptance.ExchangeIsExact | packages/auth/src/desktop-http-server.ts:121-156 | A body is accepted if and only if it has at most 4096 bytes and is, in any layout, an object of just the four names, each last given as a string in its bounds, the address being the callback address. |
| DesktopAcceptance.Utf8Adds | packages/auth/src/desktop-http-server.ts:96-108 | Those bytes are 1 to 3 for a unit and 4 for a surrogate pair, and add up wherever no pair is cut. |
| DesktopAuthorization.SignInSucceeds | packages/auth/src/desktop-server.ts:113-177 | End to end: attempt, authorization request, issued code, callback, exchange body, redemption and session checks all pass before the expiries, with all fields unchanged. |
| DesktopCodes.SignInOpensSession | packages/auth/src/desktop-server.ts:113-177 | The same through the parsers and the store's run: issue, start, check and open end in one opened session for the principal, and the code is gone from the store. |
| DesktopCodes.CodeStore.constructor | packages/auth/src/desktop-server.ts:24-28 | An empty store. |
| DesktopCodes.CodeStore.Save | packages/auth/src/desktop-server.ts:24-28 | Keeps one record per digest. |
| DesktopCodes.CodeStore.Consume | packages/auth/src/desktop-server.ts:24-28 | Returns and deletes a record in one step. |
| DesktopCodes.SessionStore.constructor | packages/auth/src/desktop-server.ts:54-55 | No session yet. |
| DesktopCodes.SessionStore.Create | packages/auth/src/desktop-server.ts:54-55 | Adds one session record. |
| DesktopCodes.Broker.constructor | packages/auth/src/desktop-server.ts:97-111 | A broker over the two stores. |
| DesktopCodes.Broker.Issue | packages/auth/src/desktop-server.ts:141-177 | Saves exactly one record when all bounds hold and answers with its callback; otherwise saves nothing. |
| DesktopCodes.Broker.Exchange | packages/auth/src/desktop-server.ts:113-140 | Run alone, an exchange is the three steps of one flight of the run model: same store, same session. |
| DesktopAcceptance.IssueIsExact | packages/auth/src/desktop-server.ts:141-177 | A code is saved if and only if every field of request and principal is within its bounds and the provider has not expired; the record is of the code's digest, challenge, nonce, expiry and principal. |
| DesktopAcceptance.ExchangeOpensIff | packages/auth/src/desktop-server.ts:113-140 | An exchange that runs alone opens a session if and only if its fields are in bounds, the store holds a record of its code that has not expired and has its nonce, address and the digest of its verifier, and the principal is in bounds and not expired; the session has the digest of its credential and its expiry; an exchange in bounds takes the record out either way. |
| DesktopCodes.Broker.OpenSession | packages/auth/src/desktop-server.ts:211-235 | Creates exactly one session with the principal unchanged, or none. |
| DesktopCodes.StepKeepsValid | packages/auth/src/desktop-server.ts:97-235 | Every step of any interleaving keeps each code's record in at most one hand, the store or one exchange. |
| DesktopCodes.RunKeepsValid | packages/auth/src/desktop-server.ts:97-235 | So does every run with fresh codes. |
| DesktopCodes.EverySessionIsEarned | packages/auth/src/desktop-server.ts:113-140 | Every session of every run traces to exactly one saved code, with its nonce, a verifier whose digest is its challenge, redemption before an expiry at most 60 seconds after issue, and user and provider unchanged. |
| DesktopCodes.OneSessionPerCode | packages/auth/src/desktop-server.ts:24-28 | No code yields two sessions in any run. |
| DesktopCodes.OnlyTheVerifierRedeems | packages/auth/src/desktop-server.ts:130-132 | Only the verifier behind the challenge opens the session (sections 4.5 and 4.6 of RFC 7636). |
| DesktopCodes.RefusedCodeIsBurnt | packages/auth/src/desktop-server.ts:121-140 | An exchange that took the record and is refused burns the code: no run that follows opens a session for it (section 4.1.2 of RFC 6749). |
| DesktopCodes.SecondExchangeIsRefused | packages/auth/src/desktop-server.ts:121-122 | After one exchange reached the store with an issued code, every later one is refused, whatever runs in between. |

## Left out

- SecretRedaction.RedactionIsCompleteIff: several secrets of which one touches the placeholder at an end are not characterised, because a later replacement can then complete or remove what an earlier one formed; each secret alone is, in `OneSecretIsCompleteIff`.
- ModuleNames.ExportedNamesResolve: the TypeScript checks behind run-time bindings and local export lists are part of the module record.
- TurnRuns.RunKeepsValid: asks that one read lists each causal id once, since the very first write of a cache stores the list as it came; `NoEventRegresses` and `DenialFence` do not ask it.
- TurnCache.AnswerIsWrittenAsFolded: asks that the held list has each id once, since a complete write lists each id once and drops repeats.
- TurnRuns.DenialFence: one audience epoch only; a page of another epoch replaces the cache by design.
- LeakCheck.CarriesExactly: for a secret with a blank or a line break only the one direction of `PassedResponseIsClean` is stated, since the joined text can hold such a secret across two headers.
- WireEvents.WireIsRead: the printing of a payload is a parameter, a JSON text of one line; a sequence is its digits.
- EventSequence.NoSilentGap: from a positive sequence on, as in the code; the refresh queued for a gap does not name the account summary or the workspace list.
- WorkspaceEvents.ReadEvents: asks that event data is an envelope with an integer sequence and a text type, null, or no JSON; other envelopes compare and store values of other types.
- DesktopAuthorization.ReadBoundedBody: the fatal UTF-8 decoding from the bytes to the text of the body is left out, so the parser starts from the text.
- The query cache's cancelling and evicting, `clearWorkspaceAudienceData`, diagnostics and storage failures of the event stream.
- CRLF event streams.
- `queryKeysForEvent`: the table from event types to query groups is one value for each type.
- Sessions after they are opened: `rotate`, `resolve` and `revoke` live in a store that is not part of this model; the client's session manager, its vault and the attempt and session codecs.
- The origin, content-type and URL checks around the desktop requests, and the string that `encodeUrlSafe` builds byte by byte for `btoa`.
- `sanitizeText`, `sanitizeValue` and the log filters, which are regular expressions.
- `collectDevLucideImports`, source directives and the TypeScript syntax tree.
- Process, container, TLS and HTTP driving, SQL and Better Auth, request builders, build and user interface configuration: effects outside the code, or short branches.
