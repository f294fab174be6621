# Verification of the access platform

A Dafny model of the parts of the platform whose correctness is hardest to see: the parsers of the readers'
event streams, the consent protocol for minors, the exact arithmetic of faces and days, the stateful services
around readers, the condominium catalogue, and the accounting of reader syncs. `dafny verify dfyconfig.toml`
checks all of it.

Objects that the program updates in place are classes here, with a valid state that every method keeps; loops
over buffers and tables are methods with invariants. Each such method is tied to a specification on values,
and the lemmas prove what the specification promises. Protocols are step relations or classes whose methods
are the steps between two waits, so that every interleaving is a run.

## How the files belong together

- Streams: `Bytes`, `Search`, `PartHeaders`, `Multipart` (the parser), `MultipartRoundTrip` (what it returns
  for every stream and every cutting), `AlertPairing` and `SnapPairing` (events and images of a connection).
- Consent: `ConsentModel` (tables, queries, transactions as steps), `ConsentSafety` (what every run keeps),
  `ConsentEffects` (what commits achieve, and runs that get there), `CpfLockout`, `Outbox`.
- Arithmetic: `LinearSystem`, `LeastSquares`, `FaceGeometry`, `FaceBoxes` over exact reals; `Calendar` (the day and date
  functions of section 21.4.1 of ECMA-262), `NumberText`, `DateBounds`, `Ages`.
- Services: `OfflineNotifier`, `MediaStore`, `EventKeys`, `AccessLog`.
- Catalogue: `Names`, `UnitNames`, `Locations` (labels, selections, uniqueness), `Condominium` (the operations).
- Syncs: `Lists`, `SyncOutcome` (messages printed and read back), `SyncAccounting` (the run over the readers),
  `JpegHeader` (sections B.1.1.4 and B.2.2 of ITU-T T.81).

## What turned out different from what one would expect

- A header block of more than 65533 bytes can lose its part, depending on where the stream is cut; `HeaderLimitIsExact`
  says for which blocks, `LengthFirstIsLost` gives some. Zero-length bodies are dropped (`MessagesRoundTrip`).
- Header blocks after a closing delimiter make parts like any others (`CloseIsNoEnd`).
- A sync that starts over can still take readers as done from an old message (`ResetWritesAll`, `ResetPassesOver`).
- On the snapshot stream an event that is followed by another event before its image is never recorded
  (`RecordedWithNextImage`); on the alert stream it is handed on without an image
  (`ImagesGoToTheEventBefore`).
- An e-mail attempt that fails after its lease makes a request be sent again although a success was reported
  (`LateFailureResends`).
- A date filter and the calendar agree from the year 1000 on, and only there (`FilterMatchesCalendar`).
- Fill bytes, which ITU-T T.81 allows before any marker, hide a JPEG frame header (`FillBytesMislead`, `FoundIffNoFill`).
- A reader added after a partly failed sync counts as done although it was never written (`NewcomerIsSeeded`).
- People moved into a unit after it was left, and not moved on, live in a unit that is off (`EndsInLeftUnit`,
  `MovedIntoSwitchedOff`).
- With several members, binding by text and moving a person need not treat them alike; `BoundTogether` and
  `NobodyLeftBehind` give the exact conditions.
- Renaming a unit is not one transaction (`InterleavedRenames`, `SyncRightIffCurrent`).
- An adult who stops qualifying uncovers faces until the sweep comes by (`AdultLeavingUncovers`).

## Model

| member | source | states |
|---|---|---|
| `PartHeaders.ParseHeadersText` | src/face-listener/hikvision-multipart-json.parser.ts:65-83 | the loop over the header lines finds the last Content-Type and Content-Length, matched without regard to case, as the line-by-line specification does |
| `PartHeaders.HeaderLinesRead` | src/face-listener/hikvision-multipart-json.parser.ts:65-83 | whatever the case of the names, the white space, the parameters, the order, other header lines and the line ends, the media type and the length read are those of the last such lines |
| `PartHeaders.HeaderTextRoundTrip` | src/face-listener/hikvision-multipart-json.parser.ts:65-83 | a printed media type, without its parameters, and a printed length are read back |
| `PartHeaders.LengthNeedsDigits` | src/face-listener/hikvision-multipart-json.parser.ts:77-80 | a length is read exactly when only digits stand between the white space around the value |
| `PartHeaders.NoBreakInType` | src/face-listener/hikvision-multipart-json.parser.ts:73-76 | a media type with a line break inside is not read |
| `PartHeaders.LineEndRestIgnored` | src/face-listener/hikvision-multipart-json.parser.ts:36-48 | a rest of the delimiter line, of an opening or a closing one, that arrives in the next chunk does not change the fields read |
| `Multipart.ConsumeBoundaryLine` | src/face-listener/hikvision-multipart-json.parser.ts:36-48 | the rest after the first delimiter, its optional closing dashes and its line end; nothing exactly when the delimiter does not occur |
| `Multipart.HeadersSeparator` | src/face-listener/hikvision-multipart-json.parser.ts:50-63 | a separator is found exactly when a blank line of either kind occurs, and it lies inside the buffer |
| `Multipart.Turn` | src/face-listener/hikvision-multipart-json.parser.ts:94-170 | every turn of the endless loop that goes on shortens the buffer, or leaves the body phase with the buffer as it is: the loop ends on every input |
| `Multipart.MultipartAccumState.constructor` | src/face-listener/hikvision-multipart-json.parser.ts:19-30 | a new parser seeks with an empty buffer for the marker of its boundary |
| `Multipart.MultipartAccumState.FeedMultipartStream` | src/face-listener/hikvision-multipart-json.parser.ts:85-173 | one chunk: the in-place loop leaves the state and returns the parts of the step-by-step specification, from any valid state |
| `Multipart.Marker` | src/face-listener/hikvision-multipart-json.parser.ts:20-28 | the marker starts with two dashes, and a boundary given with them is not prefixed again |
| `MultipartRoundTrip.RunSettles` | src/face-listener/hikvision-multipart-json.parser.ts:94-170 | after a feed the buffer is at most as long as the marker while seeking, at most 64 KiB in the headers, empty in a body, and a body received is shorter than announced |
| `MultipartRoundTrip.StreamRoundTrip` | src/face-listener/hikvision-multipart-json.parser.ts:36-173 | for every list of well-formed frames, after opening or closing delimiters, junk between them, bodies that may contain the delimiter, header blocks of any length whose first bytes over the limit say nothing, and every way of cutting the stream into chunks, exactly the parts of the frames are returned in order |
| `MultipartRoundTrip.CloseIsNoEnd` | src/face-listener/hikvision-multipart-json.parser.ts:36-48 | a closing delimiter closes nothing: a stream gives the same parts whichever of its delimiters are closing ones, however each is cut |
| `MultipartRoundTrip.MessagesRoundTrip` | src/face-listener/hikvision-multipart-json.parser.ts:19-173 | messages printed with header lines of any such form come back in order under the media type said last, or as plain bytes when none is said, however the stream is cut; those with an empty body are dropped |
| `MultipartRoundTrip.SnapRoundTrip` | src/face-listener/snap-stream.parser.ts:19-163 | the snapshot parser is the same loop at the marker `--myboundary`, with the same round trip |
| `MultipartRoundTrip.HeaderLimitIsExact` | src/face-listener/hikvision-multipart-json.parser.ts:117-123 | a part with a body at the end of a stream is delivered for every cutting into chunks if and only if cutting bytes off the front of its header block, up to its length and three less the 64 KiB, never changes the announced length or media type |
| `MultipartRoundTrip.LengthFirstIsLost` | src/face-listener/hikvision-multipart-json.parser.ts:117-123 | a two-line block over the limit whose first line is the length fails that condition |
| `MultipartRoundTrip.JunkFirstIsKept` | src/face-listener/hikvision-multipart-json.parser.ts:117-123 | a block of any length meets it when it begins with one line without a colon and the rest fits the limit |
| `AlertPairing.ExactlyOnce` | src/face-listener/hikvision-alert-pending.util.ts:39-61 | for every sequence of parts, timer firings and teardowns, the events handed on or dropped and the one still held are the accepted events, each once and in order of arrival |
| `AlertPairing.HeldIsLast` | src/face-listener/hikvision-alert-pending.util.ts:39-61 | an event is held exactly when it was the last input, and then without an image |
| `AlertPairing.InputsAreSent` | src/face-listener/hikvision-alert-pending.util.ts:18-34 | events under a JSON or text type, pictures under an image type, JPEG bodies under any other type and anything else, in upper or lower case, are taken for what they are: the inputs are the accepted events and the pictures, in order |
| `AlertPairing.ImagesGoToTheEventBefore` | src/face-listener/hikvision-alert-pending.util.ts:39-61 | each image goes to the event immediately before it, if that is still held, and to no other; dropped are exactly the events followed directly by a teardown |
| `AlertPairing.AlertConnection.ApplyIncoming` | src/face-listener/face-listener.service.ts:1561-1606 | the connection's held event, timers and hand-overs follow the pairing for every incoming part; at most one timer is armed |
| `AlertPairing.AlertConnection.TimerFires` | src/face-listener/face-listener.service.ts:1586-1606 | the armed timer is always that of the held event, which is handed on as it is |
| `AlertPairing.AlertConnection.ClearPending` | src/face-listener/face-listener.service.ts:1608-1618 | a teardown drops the held event with its timer and hands nothing on |
| `AlertPairing.AlertConnection.ProcessChunk` | src/face-listener/face-listener.service.ts:1526-1560 | one network chunk drives the parser and then the pairing with exactly the parts the chunk completes |
| `AlertPairing.AlertConnection.ReceiveAll` | src/face-listener/face-listener.service.ts:1526-1606 | without timers the events handed on with their images depend on the frames sent, not on how the network cut them: they are the accepted events sent, each with the picture sent right after it |
| `SnapPairing.SliceSnapJpeg` | src/face-listener/snap-stream.parser.ts:246-260 | the picture is the named piece of the image when that lies inside it, otherwise the whole image |
| `SnapPairing.PartMeans` | src/face-listener/face-listener.service.ts:1186-1221 | text parts are decoded, image parts are pictures, in upper or lower case, and other parts mean nothing |
| `SnapPairing.RecordedWithNextImage` | src/face-listener/face-listener.service.ts:1152-1221 | recorded are exactly the events whose next message is an image, each with that image; an event followed by another event is lost |
| `SnapPairing.SnapConnection.ReceiveAll` | src/face-listener/face-listener.service.ts:1186-1221 | what is recorded of a snapshot stream does not depend on chunking |
| `LinearSystem.Solve4` | src/face-match/face-geometry.util.ts:27-48 | a returned vector is the one and only solution of the system given; none is returned only when the given matrix nearly annihilates a direction: some vector with a coefficient 1 has all four left sides below 1e-12 |
| `LinearSystem.PlacePivot` | src/face-match/face-geometry.util.ts:29-38 | the first of the largest remaining pivots is swapped in and its row scaled to one, without changing the solutions; a refusal means that even the largest candidate is below the threshold |
| `LinearSystem.ReduceColumn` | src/face-match/face-geometry.util.ts:29-46 | one more column becomes that of the identity, and the solutions stay the same |
| `LinearSystem.EliminateKeeps` | src/face-match/face-geometry.util.ts:40-45 | subtracting a multiple of another equation keeps the set of solutions |
| `FaceGeometry.NormalEquations` | src/face-match/face-geometry.util.ts:15-25 | the accumulation in place yields the matrix and the vector of the normal equations of all landmark equations |
| `FaceGeometry.EstimateSimilarity` | src/face-match/face-geometry.util.ts:50-68 | the similarity returned has a smaller squared landmark error than every other one; none is returned when all landmarks are one point, and otherwise only when the sum of their squared distances is at most 2e-12 times the square of their number plus the sizes of their coordinate sums |
| `FaceGeometry.SpreadNonNegative` | src/face-match/face-geometry.util.ts:50-66 | the sum of squared distances is zero exactly when all landmarks are one point |
| `FaceGeometry.FailureNeedsSmallSpread` | src/face-match/face-geometry.util.ts:27-48 | a direction the normal matrix nearly annihilates bounds its determinant, which is that sum of squared distances |
| `LeastSquares.Parabola` | src/face-match/face-geometry.util.ts:50-68 | the squared error around a candidate is its error, a term linear in the change, and a sum of squares |
| `LeastSquares.NormalEquationsMinimise` | src/face-match/face-geometry.util.ts:50-68 | the only solution of the normal equations is the only minimiser |
| `FaceGeometry.FitRecoversGenerator` | src/face-match/face-geometry.util.ts:11-13 | when some similarity maps every source landmark exactly to its target, the fit is that similarity |
| `FaceGeometry.InverseUndoesIff` | src/face-match/face-embedder.ts:213-219 | the inverse map undoes the similarity on every point exactly when the determinant reaches the threshold |
| `FaceBoxes.OverlapIsPart` | src/face-match/face-embedder.ts:169-178 | the overlap measure is between 0 and 1, and 1 for a box with itself |
| `FaceBoxes.CommonPoints` | src/face-match/face-embedder.ts:169-178 | the points common to two boxes form a box with the shared width and height |
| `FaceBoxes.ApartMeansNone` | src/face-match/face-embedder.ts:169-178 | boxes without a common point do not overlap |
| `FaceBoxes.InsideIsPart` | src/face-match/face-embedder.ts:169-178 | for a box inside another one the measure is the quotient of the areas |
| `FaceBoxes.ShiftedOverlap` | src/face-match/face-embedder.ts:169-189 | of two boxes of one size, the second shifted sideways, one is dropped exactly up to a shift of 7/13 of the width |
| `FaceBoxes.NonMaxSuppression` | src/face-match/face-embedder.ts:180-189 | the kept faces are chosen in order of score, no two of them overlap, and every dropped one overlaps a kept one before it |
| `FaceBoxes.ChoiceIsUnique` | src/face-match/face-embedder.ts:180-189 | these conditions determine the kept faces |
| `FaceBoxes.KeptLieApart` | src/face-match/face-embedder.ts:180-189 | no two kept faces overlap, in whichever order they are compared |
| `FaceBoxes.LeftOutForBetter` | src/face-match/face-embedder.ts:180-189 | a dropped face is overlapped by a kept one with at least its score |
| `Calendar.DayRoundTrip` | src/common/parse-access-list-datetime.ts:2-11 | a day number turned into a date and back is the same day |
| `Calendar.CivilRoundTrip` | src/common/parse-access-list-datetime.ts:17-39 | a valid date turned into a day number and back is the same date, leap years included |
| `Calendar.NextDayIsSuccessor` | src/common/parse-access-list-datetime.ts:17-39 | the next day number is the next date, over month ends, leap days and year ends |
| `Calendar.Epoch` | src/common/parse-access-list-datetime.ts:7-11 | day 0 is 1 January 1970 |
| `Calendar.MonthsCarry` | src/common/parse-access-list-datetime.ts:27-39 | twelve months more are a year more, and a day more is the next day, inside and outside the usual ranges |
| `DateBounds.FilterMatchesCalendar` | src/common/parse-access-list-datetime.ts:2-76 | for every offset and every text of the date form: the filter for that day contains exactly the instants whose calendar date is that text, if and only if the date is valid and its year is at least 1000 |
| `DateBounds.RangeIsDay` | src/common/parse-access-list-datetime.ts:110-131 | for a valid date from the year 100 on, the filter contains exactly the instants whose local civil date it is |
| `DateBounds.DaysBetween` | src/common/parse-access-list-datetime.ts:106-131 | a listing from a day to a day, or with one side open, contains exactly the instants whose day lies between them |
| `DateBounds.DaysTile` | src/common/parse-access-list-datetime.ts:41-76 | for date texts of consecutive dates and every offset, the end of the first plus one millisecond is the start of the second, except after 31 December of the year 99 and 29 February of the year 0 |
| `DateBounds.MinuteRange` | src/common/parse-access-list-datetime.ts:78-104 | a date and time without seconds bounds exactly that minute |
| `DateBounds.TimeFilterMatchesClock` | src/common/parse-access-list-datetime.ts:78-104 | for every offset and every text with a time of day: the filter from it to itself contains exactly the instants that read like it in the zone, to the minute, or with its seconds and milliseconds, if and only if its date is valid with a year from 1000 on and its time of day exists |
| `DateBounds.BoundIs` | src/common/parse-access-list-datetime.ts:41-108 | a text is an instant exactly when it has no zone and is a date, or a date with a time of day; nothing is no bound, and other texts are left to the platform |
| `DateBounds.DateOnlySays` | src/common/parse-access-list-datetime.ts:13-13 | a date is four, two and two digits with hyphens |
| `DateBounds.DateTimeSays` | src/common/parse-access-list-datetime.ts:14-15 | a text with a time of day is a date, `T` or a space, hours and minutes, and possibly seconds and one to three digits of a fraction |
| `DateBounds.ZoneSays` | src/common/parse-access-list-datetime.ts:49-49 | a text names its zone exactly when it has a `z` or ends with a sign, hours and minutes |
| `DateBounds.YearIsPrinted` | src/common/parse-access-list-datetime.ts:7-11 | a printed year reads back, with a sign before the year 0 |
| `OfflineNotifier.ReturnBetween` | src/face-listener/face-listener-offline-notifier.util.ts:12-41 | between two notifications for a reader lies its return online or its teardown |
| `OfflineNotifier.UpdateAgrees` | src/face-listener/face-listener.service.ts:1751-1779 | a status update keeps: a timer is pending exactly when an update recorded the drop and no notification followed, and it is due a debounce after the drop; notified means offline without a timer |
| `OfflineNotifier.Listener.DropIsPending` | src/face-listener/face-listener.service.ts:1751-1794 | an offline reader that was not notified has a pending timer, due a debounce after its drop, exactly when a status update recorded the drop |
| `OfflineNotifier.QuietUntilReturn` | src/face-listener/face-listener.service.ts:850-858 | a reader entered as offline is never notified before it returned |
| `OfflineNotifier.Listener.UpdateStatus` | src/face-listener/face-listener.service.ts:1751-1779 | records the connection state of a monitored reader and keeps tables, timers and history in agreement |
| `OfflineNotifier.Listener.TimerFires` | src/face-listener/face-listener.service.ts:1787-1794 | a timer that goes off always finds its reader offline for the whole debounce without interruption, and notifies |
| `OfflineNotifier.Listener.EmitOfflineIfStillDown` | src/face-listener/face-listener.service.ts:1796-1822 | a notification goes out only if the reader is down and was not notified since it dropped |
| `OfflineNotifier.Listener.Teardown` | src/face-listener/face-listener.service.ts:894-915 | a torn-down reader has no timer and no mark left |
| `MediaStore.Store.Put` | gateway-isup/Program.cs:371-388 | the entry is stored until its expiry and the call joins the history, whatever order the clock readings have; at most 200 entries, each from the last put under its id |
| `MediaStore.Store.MakeRoom` | gateway-isup/Program.cs:381-384 | at 200 entries one with the least expiry time goes, otherwise nothing changes |
| `MediaStore.Store.Get` | gateway-isup/Program.cs:390-399 | what comes back are unexpired bytes put under that id; with rising times and fresh ids nothing comes back only after the expiry or 200 later puts |
| `MediaStore.EvictionKeeps` | gateway-isup/Program.cs:381-384 | taking the entry that expires first never takes one with fewer than 200 later puts |
| `MediaStore.LookupAnswers` | gateway-isup/Program.cs:390-399 | looking up the table answers for the whole history of puts |
| `CpfLockout.ApprovalRequest.VerifyCpf` | src/child-approvals/child-approval-invitation.service.ts:147-169 | no comparison happens while locked; a mismatch counts up, starts at one after a lock, and the fifth locks for 15 minutes |
| `CpfLockout.ApprovalRequest.Accept` | src/child-approvals/child-approval-public.service.ts:75-162 | the reply follows the checks in order, down to each condition of eligibility; the one accept that succeeds clears the count and the lock, and only a mismatch counts |
| `CpfLockout.ApprovalRequest.FewFailures` | src/child-approvals/child-approval-invitation.service.ts:147-169 | over any calls on one request, failed comparisons number at most five for each started 15 minutes, plus four once it is accepted, and the count never exceeds five |
| `Outbox.Request.Claim` | src/child-approvals/child-approval-delivery.repository.ts:10-45 | without a resend a request is claimed at most 8 times, never before the pause after its last reported attempt; if every attempt ends or crashes within its lease, no other attempt runs and no success was reported yet, and if besides none that sent its e-mail crashed or reported an error, no e-mail is out yet |
| `Outbox.Request.Finish` | src/child-approvals/child-approval-delivery.repository.ts:47-74 | an end frees the lease and puts off the next attempt by the doubled pause, at most an hour |
| `Outbox.PausesDouble` | src/child-approvals/child-approval-delivery.repository.ts:60-64 | the pauses start at half a minute for attempt 0 and double up to one hour |
| `Outbox.Request.CancelIneligible` | src/child-approvals/child-approval-delivery.service.ts:38-60 | an attempt that finds the request no longer eligible cancels it |
| `Outbox.Request.Resend` | src/child-approvals/child-approval-invitation.service.ts:82-88 | a resend starts the attempts anew while running attempts go on |
| `Outbox.LateFailureResends` | src/child-approvals/child-approval-delivery.repository.ts:47-74 | the second attempt sends the e-mail and reports success, then the first reports an error after its lease, then a third is claimed: the 120 s condition is needed |
| `Outbox.Request.MarkLostIff` | src/child-approvals/child-approval-delivery.repository.ts:47-74 | a reported success is marked no more exactly when the last report, after it, is an error |
| `ConsentModel.LookupsAreInverse` | src/child-approvals/child-approval.repository.ts:61-81 | a face is among a registration's faces exactly when the registration is among the face's registrations |
| `ConsentSafety.StepKeeps` | src/child-approvals/child-approval-policy.service.ts:58-138 | every enabled step of every transaction keeps the invariant over tables, locks, readers and transactions |
| `ConsentSafety.CommitKeeps` | src/child-approvals/child-approval-revocation.service.ts:12-95 | committing an accept, a revocation, a rejection, a regularisation or a sweep keeps the invariant: a face left without authorization gets the durable removal intent in the same commit |
| `ConsentSafety.CommitRemovalKeeps` | src/face-sync/child-approval-removal.service.ts:35-112 | clearing the removal intent under the locks leaves no face uncovered |
| `ConsentSafety.EveryRunIsSafe` | src/child-approvals/child-approval-policy.service.ts:58-138 | in every interleaving from a safe start, a linked face on any reader is allowed or linked to a registration with removal pending |
| `ConsentSafety.QuietReadersAreAuthorized` | src/child-approvals/child-approval-policy.service.ts:58-98 | once no linked registration has removal pending, every face on a reader is allowed |
| `ConsentSafety.SyncStaysAuthorized` | src/child-approvals/child-approval-policy.service.ts:87-98 | a sync that was allowed stays allowed for as long as it holds the lock |
| `ConsentSafety.FailedRemovalKeepsIntent` | src/face-sync/child-approval-removal.service.ts:77-112 | a removal job that ends at any point before its commit leaves the intent set |
| `ConsentSafety.RelinkKeeps` | src/child-approvals/child-approval.repository.ts:61-81 | giving a registration or its members other faces keeps the invariant when faces that are in use stay linked through the record |
| `ConsentSafety.RecordedFacesMayGo` | src/child-approvals/child-approval.repository.ts:284-296 | the faces of a registration may be cleared once those in use are recorded |
| `ConsentSafety.RecordDecides` | src/child-approvals/child-approval.repository.ts:284-296 | a blocked face that is cleared from its only registration stays blocked exactly when it is recorded |
| `ConsentSafety.AdultLeavingUncovers` | src/child-approvals/child-approval.repository.ts:83-104 | when an adult stops fulfilling the conditions, a face stays covered exactly when approval is not needed, another consent holds or a removal is intended |
| `ConsentSafety.SweepRestoresCover` | src/child-approvals/child-approval-maintenance.service.ts:63-102 | the sweep of such a case covers the registration's faces again |
| `ConsentEffects.AllowedMeans` | src/child-approvals/child-approval-policy.service.ts:58-85 | when a face may be on a reader, spelled out over registrations, members, recorded faces and consents |
| `ConsentEffects.OnlyTheAskedIsDecided` | src/child-approvals/child-approval-revocation.service.ts:38-95 | a change is decided exactly when its conditions are met |
| `ConsentEffects.AcceptanceCounts` | src/child-approvals/child-approval-public.service.ts:135-162 | a committed acceptance adds the consent and records the faces, and an active approved registration then blocks no face |
| `ConsentEffects.RevocationTakes` | src/child-approvals/child-approval-revocation.service.ts:12-95 | a committed revocation takes the consent away; a minor that needs approval and has no other consent is rejected with recorded faces and the intent to remove them, none of them allowed any more; while another consent counts, nothing else changes |
| `ConsentEffects.RejectionTakes` | src/child-approvals/child-approval-revocation.service.ts:38-95 | the check rejects a minor without consent, unless it is rejected already, and changes nothing while a consent counts |
| `ConsentEffects.RegularizationTakes` | src/child-approvals/child-approval.repository.ts:307-325 | a regularised minor falls under the rules, is rejected, and loses the access of all faces |
| `ConsentEffects.SweepTakes` | src/child-approvals/child-approval-maintenance.service.ts:63-102 | the sweep takes the consent away and sets the intent to remove the faces |
| `ConsentEffects.RemovalTakes` | src/face-sync/child-approval-removal.service.ts:77-112 | a completed removal clears the intent, and each face of the registration is allowed or off every reader |
| `ConsentEffects.RevokedForGood` | src/child-approvals/child-approval-requests.repository.ts:145-168 | over every run, a revoked consent stays revoked |
| `ConsentEffects.OwnSteps` | src/child-approvals/child-approval.repository.ts:284-296 | recording faces, setting a status and coming of age change nothing else |
| `ConsentEffects.AllowedFaceGetsOn` | src/child-approvals/child-approval-policy.service.ts:129-138 | from every quiet state an allowed face can be put on any reader |
| `ConsentEffects.AllowedFaceGetsOff` | src/child-approvals/child-approval-policy.service.ts:129-138 | and can be taken off one |
| `ConsentEffects.RemovalCanFinish` | src/face-sync/child-approval-removal.service.ts:35-112 | from every quiet state an intent can be carried out, after which every face of the registration that is not allowed is off all readers and nothing else has changed |
| `ConsentEffects.RevocationCanTakeAway` | src/child-approvals/child-approval-revocation.service.ts:12-95 | from every quiet state the last consent of a minor can be revoked and the removal carried out, after which none of its faces is on a reader |
| `EventKeys.KeyMeansSameEvent` | src/accesses/stream-event.util.ts:112-125 | correlation ids agree exactly for the same reader and the same record number or, without one, the same user and instant |
| `EventKeys.HasCorrelation` | src/accesses/stream-event.util.ts:112-125 | there is a correlation id exactly for a record number, or for a user with an instant other than zero |
| `EventKeys.DedupKeyIsCorrelationId` | src/accesses/stream-event.util.ts:93-125 | for an event with a user the second kind of key never takes effect |
| `AccessLog.OneAtATime` | src/accesses/accesses.service.ts:128-148 | jobs of one reader run one at a time in the order they came: before a later one begins, the earlier one has ended |
| `AccessLog.NotifiedOnce` | src/accesses/accesses.service.ts:316-363 | no key is notified twice |
| `AccessLog.SuppressedAfterStored` | src/accesses/accesses.service.ts:193-198 | an event is dropped as a duplicate only after one with its key was stored |
| `AccessLog.AccessesService.RecordSnapManagerAccess` | src/accesses/accesses.service.ts:128-148 | a new job waits behind the last one of its reader |
| `AccessLog.AccessesService.Begin` | src/accesses/accesses.service.ts:150-218 | where a job goes first: irrelevant events, duplicates and events without a numeric user end at once |
| `AccessLog.AccessesService.WriteDocument` | src/accesses/accesses.service.ts:284-307 | update or insert in two halves: at most one document for a reader and a correlation id, and as long as no other process writes the insertion is never refused |
| `AccessLog.AccessesService.Conclude` | src/accesses/accesses.service.ts:312-363 | after the document is there the key counts as stored and the access is announced unless it is old, or denied and not blocked |
| `AccessLog.AccessesService.Settle` | src/accesses/accesses.service.ts:140-145 | a settled job leaves the chain table only if nothing follows it |
| `AccessLog.AccessesService.OtherProcessWrites` | src/accesses/accesses.service.ts:284-307 | another process writing at any time keeps every invariant |
| `SyncOutcome.PlanPersonReaderSync` | src/face-sync/person-reader-sync.util.ts:37-67 | readers to sync and readers taken as synced partition the readers in order |
| `SyncOutcome.SplitRoundTrip` | src/face-sync/aggregate-reader-sync-outcome.util.ts:42-49 | a printed failure is cut back into name and reason |
| `SyncOutcome.MessageNamesEveryFailure` | src/face-sync/aggregate-reader-sync-outcome.util.ts:51-86 | whichever format is chosen, the message names every reader that failed |
| `SyncOutcome.AggregateOutcome` | src/face-sync/aggregate-reader-sync-outcome.util.ts:51-86 | the loops over the failures print the specified status and message |
| `SyncOutcome.MessageCounts` | src/face-sync/aggregate-reader-sync-outcome.util.ts:65-86 | the numbers in the message read back as the readers that succeeded, or all that failed, and all |
| `SyncOutcome.TotalIsNotPartial` | src/face-sync/aggregate-reader-sync-outcome.util.ts:65-76 | the message of a sync that failed everywhere is not taken for a partial one, unless the text of a failure says so |
| `SyncOutcome.SeedsAre` | src/face-sync/person-reader-sync.util.ts:1-29 | a reader is taken as synced exactly when there are no rows, the message says partial, it names one of the readers, and none with that identifier |
| `SyncOutcome.FailedReaderIsNotSeeded` | src/face-sync/aggregate-reader-sync-outcome.util.ts:65-86 | a reader that failed is never taken as synced on the strength of the message about its failure |
| `SyncAccounting.PersonSync.RemovePersonFromReaders` | src/face-sync/face-sync.service.ts:801-901 | failure texts, failed identifiers and rows follow the removals that failed, in whatever order they end |
| `SyncAccounting.PersonSync.PartitionReadersByMinorRestriction` | src/face-sync/minor-restriction.ts:130-141 | allowed and restricted readers, in order |
| `SyncAccounting.ReaderOpensOnBirthday` | src/face-sync/minor-restriction.ts:33-89 | a reader with a minimum age opens at midnight of that birthday where the reader is, and not before; before the birth the date counts as a future one |
| `SyncAccounting.UnknownAge` | src/face-sync/minor-restriction.ts:33-66 | without a usable birth date only readers without a minimum age are open |
| `Ages.ReachedOnBirthday` | src/common/utils/birth-date.ts:69-86 | an age is reached exactly from the day of its birthday on, which for 29 February is 1 March in other years |
| `SyncAccounting.PersonSync.ApplyPolicies` | src/face-sync/face-sync.service.ts:409-470 | there are exactly as many policy failures as the sync counts policy issues, and the rows say which |
| `SyncAccounting.PersonSync.SyncPersonOnReadersAllowed` | src/face-sync/face-sync.service.ts:370-798 | with an allowed reader and a picture: failed exactly when none was skipped and every write failed, an error exactly when some reader concerned is left with a failed row; the other outcomes likewise |
| `SyncAccounting.FailuresAreRecorded` | src/face-sync/face-sync.service.ts:750-784 | the rows left behind show a failure exactly when one was counted |
| `SyncAccounting.RowsSay` | src/face-sync/face-sync.service.ts:370-798 | the row of every reader after a sync: the result of its write, or nothing or a failure for a reader that must not have the person, and a failure for one that must not and cannot be reached |
| `SyncAccounting.ScopeOfPart` | src/face-sync/face-sync.service.ts:816-823 | asking for the restricted readers by identifier removes from exactly those |
| `SyncAccounting.SeededWasDone` | src/face-sync/person-reader-sync.util.ts:13-57 | over two syncs: a reader taken as done on the strength of the message was written or already done in the sync that printed it, if it took part in it |
| `SyncAccounting.NewcomerIsSeeded` | src/face-sync/person-reader-sync.util.ts:20-57 | while one of the failed readers is still there, a reader is taken as done exactly when the message does not contain its name: one added in between counts as done without being written |
| `SyncAccounting.ResetWritesAll` | src/face-sync/face-sync.service.ts:417-519 | a sync with a reset writes to every allowed reader exactly when a restriction left a row behind or the old error lets no reader count as done |
| `SyncAccounting.ResetPassesOver` | src/face-sync/face-sync.service.ts:417-519 | an input: with the old message of a sync that failed at one of two readers, the other is not written although the sync starts over |
| `JpegHeader.ParseJpegDimensions` | src/face-sync/hikvision-face-image.util.ts:27-63 | the scan ends inside every buffer and computes the specification |
| `JpegHeader.DimensionsFound` | src/face-sync/hikvision-face-image.util.ts:27-63 | after SOI, any length-carrying segments that are no frame headers, and an SOF0 to SOF2 frame header, exactly its width and height are returned when both are positive |
| `JpegHeader.FillBytesMislead` | src/face-sync/hikvision-face-image.util.ts:34-60 | for every number k of fill bytes before the frame header, what the scan finds is what it finds k modulo 65537 fill bytes before it: the header itself for none, otherwise whatever lies behind a jump that is too long |
| `JpegHeader.FoundIffNoFill` | src/face-sync/hikvision-face-image.util.ts:34-60 | with at most 49163 bytes left, dimensions are found exactly when there is no fill byte and both are positive, and they are those of the header |
| `UnitNames.FloorUnitNames` | src/client-blocks/client-blocks.service.ts:33-45 | the nested loops list floor times 100 plus position, floor by floor |
| `UnitNames.UnitNamesDistinct` | src/client-blocks/client-blocks.service.ts:33-45 | the names are pairwise distinct exactly when a floor has at most 100 units or there is one floor |
| `UnitNames.StructureBlockNames` | src/client-blocks/client-blocks.service.ts:47-57 | padded block names are listed in order and pairwise distinct |
| `UnitNames.PadAddsZeros` | src/client-blocks/client-blocks.service.ts:47-57 | just as many zeros are put before a number as are missing to the width |
| `UnitNames.BlockNamesDiffer` | src/client-blocks/client-blocks.service.ts:47-57 | padding never makes two numbers look the same |
| `Names.LowerMeans` | src/client-blocks/client-blocks.repository.ts:280-326 | two names are equal in lower case exactly when they have the same letters in whatever case |
| `Condominium.Client.UpdateBlock` | src/client-blocks/client-blocks.service.ts:89-130 | refusals leave everything as it was; a renamed block's name is in the records of all people in it and nobody else is touched |
| `Condominium.Client.UpdateUnit` | src/client-blocks/client-blocks.service.ts:218-260 | likewise for a unit; an occupied unit is not switched off |
| `Condominium.Client.MergeUnits` | src/client-blocks/client-blocks.repository.ts:413-440 | everybody of the source lives in the target with its names, nobody is lost, and the source is off and empty |
| `Condominium.Client.MoveGroups` | src/client-blocks/location-review.service.ts:104-146 | all items are checked first; then every person is where the journey over the items leads, with the names of that home, everybody else is untouched, the units left are off, and the counts are those of the items with and without a target; when no unit is both left and moved into, the units left are empty and those moved into in use; otherwise a unit left is lived in exactly when somebody is moved into it after it was left and not out of it again |
| `Locations.GoesToTarget` | src/client-blocks/location-review.service.ts:125-146 | when no unit is both left and moved into, the people of a unit go to the target of the first item about it, or are unlinked |
| `Locations.OthersStay` | src/client-blocks/location-review.service.ts:125-146 | people of units that are not left stay |
| `Locations.EndsInLeftUnit` | src/client-blocks/location-review.service.ts:125-146 | people end in a unit that is left, hence switched off, exactly when an item moves them into a unit left by an earlier item and by no later one |
| `Locations.MovedIntoSwitchedOff` | src/client-blocks/location-review.service.ts:125-146 | an input: unit 0 is left for unit 1, then unit 2 for unit 0, whose new people stay in it |
| `Condominium.Client.UnlinkUnit` | src/client-blocks/location-review.repository.ts:182-215 | the unit's people keep their texts and lose the link, and the counts are right |
| `Condominium.Client.BindGroup` | src/client-blocks/location-review.repository.ts:221-281 | an unlinked registration is bound exactly when it or an unlinked member of it is active with both texts of the group, an unlinked member when it or its unlinked registration is; the bound ones get the unit and its names, everybody else stays, and each is counted once |
| `Locations.OthersUnbound` | src/client-blocks/location-review.repository.ts:221-281 | who is not in the group and has no partner in it stays exactly as it was |
| `Locations.BindingsCommute` | src/client-blocks/location-review.repository.ts:221-281 | bindings of different groups commute on people without partners |
| `Locations.BoundTogether` | src/client-blocks/location-review.repository.ts:221-281 | an unlinked registration and its unlinked members are bound together or left together exactly when the registration matches, or all of the members match, or none does |
| `Locations.PairBoundTogether` | src/client-blocks/location-review.repository.ts:221-281 | a registration with one unlinked member is always bound together with it |
| `Condominium.Client.MovePerson` | src/client-blocks/location-person-move.repository.ts:23-179 | the checks in order decide which refusal is returned; past them the registration and one member get the unit and its names, with one audit entry |
| `Locations.NobodyLeftBehind` | src/client-blocks/location-person-move.repository.ts:97-160 | a move through the registration leaves nobody of it in the source exactly when no other member was linked there |
| `Condominium.Client.DeleteUnit` | src/client-blocks/client-blocks-removal.service.ts:52-71 | only an inactive unit nobody is linked to is deleted |
| `Condominium.Client.DeleteBlock` | src/client-blocks/client-blocks-removal.service.ts:73-93 | only an inactive block whose units nobody is linked to is deleted, with its units |
| `Condominium.Client.GenerateStructure` | src/client-blocks/client-blocks.repository.ts:269-338 | existing records stay, names stay unique without regard to case, every wanted active block has every wanted unit, the counts add up to the product, the names passed over are those of inactive blocks, and a second run creates nothing |
| `Locations.SyncRightIffCurrent` | src/client-blocks/client-blocks.repository.ts:399-411 | writing names into a unit's records is right exactly when they are the current ones or nobody lives there |
| `Locations.InterleavedRenames` | src/client-blocks/client-blocks.service.ts:218-260 | a unit is renamed while its block is renamed after the block name was read: the records are right at the end exactly when nobody lives in the unit or the block kept its name |

## Left out

- Header values are bytes; numbers of 2^53 and more in Content-Length are exact here, and the branch that would
  need a delimiter both absent and found (lines 99-100 of the parser) is omitted because it cannot be taken.
- The boundary of a stream is a sequence of bytes; reading it from the Content-Type of the response is not modelled.
- Decoding JSON alerts, which alerts count as face accesses, and the text lines of a snapshot part are one given function.
- JSON events of a push or a poll, and the window that drops repeated alerts, are not part of this model.
- Surrounding white space, and the limit of the Date type at 100 million days, are not modelled in date texts; texts that
  fit neither form are left to the platform's parser as an abstract result.
- Rounding: geometry is over exact reals; square roots, cosine similarity, normalisation and the network's outputs are left out.
- Sorting by score is the library's; the choice among overlapping faces starts from the sorted list.
- The visitor policy always allows and the client's switch for child approval is on.
- A face no registration is linked to is synced without a lock by the code and with one in the model; such a face is allowed.
- Steps of the consent model may take locks in any order and decide at any time while they hold the row, which allows
  more runs than the code; the lock order that avoids deadlocks is not modelled.
- Faces of a registration and its members change in one step that asks for the row to be free and for faces in use to
  keep their links through the record; enrolment, deactivation and expiry of requests are parameters of the steps.
- What an acceptance writes besides the request (the consent and the recorded faces) is a step of the consent model.
- The dispatch loop over many requests is modelled request by request; the clock does not run backwards.
- MediaStore.Store.Put: the random identifier is a parameter, because fresh identifiers are an assumption of the promise on lookups.
- The lock around the store is the atomicity of its methods.
- Person lookups, uploads and time stamps of an access are parameters of the steps; documents are not deleted.
- AccessLog.AccessesService.Create: the unique index is taken not to concern documents without a correlation id, because how the database treats a stored null is not visible in the code.
- AccessLog.AccessesService.RecordSnapManagerAccess: requires an identifier without a vertical bar, because identifiers of readers are UUIDs.
- Numbers in event keys are integers.
- Lower-casing is that of ASCII; collation and Unicode normalisation are left out. The normalisation of block and unit texts is a given function.
- The order in which cited readers are listed is not modelled; only the set matters.
- Devices answer a sync as given functions of the reader; the texts of similar-face notes are left out.
- Reading a birth date from its text is not modelled; a date is missing, invalid or known.
- One client's catalogue is modelled, with both kinds of person in one record type; block and unit texts are the only
  parts of the additional data that are looked at. Names of the input are not empty, as its validation demands.
- The race noticed by the move of a person between its two reads of a member cannot happen inside one transaction step.
- Generating units for one existing block is the special case of one block and is left out.
- Parsing of pagination, reconnection back-off, invitations, permissions, controllers and e-mail texts are left out; each is
  a single decision over its arguments, without state of its own.
- The queue of device jobs: its statements are in files that are not part of this model.
