# FlowySDK capture core in Dafny

This project models the capture-and-correlation core of the FlowySDK iOS
SDK. The SDK records what a user does in an app: taps (named through text
recognition and the view under the finger), screen changes, and error or
success messages. It writes them as one JSON event per line to a session
log, and an uploader drains that log in the background.

UIKit, Vision, the file system and threads become plain data and
parameters:

- a `View` / `Controller` datatype stands for a view or view-controller tree;
- a recognition `Outcome` stands for the recognizer's observations;
- a `Platform` record says which file operations succeed;
- a `Codec` pair stands for the JSON encoder and decoder;
- an `Env` carries the clock and the device.

Every operation is a pure function or a method over these.

Modules follow the Swift files:

- `Models` — `Models.swift`.
- `Geometry` — the `CGRect` conventions the SDK relies on.
- `TreeWalker` — `FlowyTreeWalker.swift`.
- `HybridMatcher` — `FlowyHybridMatcher.swift`.
- `Recognition`, `VisionEngine` — `FlowyVisionEngine.swift`.
- `Heuristics` — `FlowyHeuristics.swift`.
- `ScreenReader` — `FlowyScreenReader.swift`.
- `Storage` — `FlowyStorage.swift`, with `Utf8` for the byte encoding it reads and writes.
- `Uploader` — `FlowyUploader.swift`.
- `Logger` — `FlowyLogger.swift`.
- `Wrappers`, `Text`, `Select` and `Ui` hold the option type, string search, list selection and the UIKit facts.

Distances are compared as squares: `sqrt` is monotone and every distance
is non-negative. The JSON round trip is the predicate `Storage.Lawful`,
which every round-trip lemma takes as a hypothesis.

## Model

| member | source | states |
|---|---|---|
| Models.NewEvent | ios-sdk/Sources/FlowySDK/Models.swift:27-40 | action, text, coordinates and screen name are stored exactly as passed. The timestamp is the clock reading. The device is the platform's, or ("Unknown", "0.0") without UIKit. |
| Models.Flatten | ios-sdk/Sources/FlowySDK/Models.swift:49-55 | the pre-order listing of a captured forest has exactly one entry per node |
| Geometry.Outset | ios-sdk/Sources/FlowySDK/FlowyVisionEngine.swift:66 | growing a rect by m per side keeps every point it contained, and widens it by 2m in each direction |
| Geometry.FlipBox | ios-sdk/Sources/FlowySDK/FlowyHybridMatcher.swift:22-28 | a normalised bottom-left box becomes a top-left rect with non-negative size, scaled by the canvas, whose bottom edge is at (1 - by)·H |
| Geometry.FlipRoundTrip | ios-sdk/Sources/FlowySDK/FlowyHybridMatcher.swift:22-28 | in a non-degenerate canvas, converting back to a normalised box gives the original box |
| Geometry.FlipStaysInCanvas | ios-sdk/Sources/FlowySDK/FlowyHybridMatcher.swift:22-28 | a box inside the unit square lands inside the canvas |
| Geometry.FlipExample | ios-sdk/Sources/FlowySDK/FlowyHybridMatcher.swift:22-28 | {0.1, 0.2, 0.3, 0.1} in a 1000×2000 canvas is {100, 1400, 300, 200} |
| TreeWalker.Capture | ios-sdk/Sources/FlowySDK/FlowyTreeWalker.swift:13-41 | a hidden, nearly transparent or empty view yields nothing. Otherwise the result is exactly one node with the view's class, window frame, identifier and interactivity. Its children are the captures of the subviews in order, and the child list is absent exactly when no child survives. |
| TreeWalker.CaptureHierarchy | ios-sdk/Sources/FlowySDK/FlowyTreeWalker.swift:9-11 | at most one node, rooted at the window, and never more nodes than the window has views |
| TreeWalker.CaptureCount | ios-sdk/Sources/FlowySDK/FlowyTreeWalker.swift:13-41 | the snapshot has one node per view that survives pruning; a pruned view removes its whole subtree |
| TreeWalker.VisibleCountBound | ios-sdk/Sources/FlowySDK/FlowyTreeWalker.swift:15-17 | pruning never adds views |
| HybridMatcher.Candidates | ios-sdk/Sources/FlowySDK/FlowyHybridMatcher.swift:64-77 | every candidate contains the point and belongs to the tree. Every containing top-level node is a candidate. There are none exactly when no top-level node contains the point. |
| HybridMatcher.CandidatesMember | ios-sdk/Sources/FlowySDK/FlowyHybridMatcher.swift:64-75 | a node is collected exactly when some node of the sibling list contains the point and either is that node or has it among the candidates of its children, so a descendant is collected exactly when it and all its ancestors contain the point |
| HybridMatcher.CandidatesAppend | ios-sdk/Sources/FlowySDK/FlowyHybridMatcher.swift:64-75 | collection distributes over a split of the sibling list, so each subtree contributes independently of where it sits |
| HybridMatcher.LookupList | ios-sdk/Sources/FlowySDK/FlowyHybridMatcher.swift:82-83 | when some candidate is interactive, exactly the interactive candidates in order, and every one of them; otherwise all the candidates |
| HybridMatcher.Smallest | ios-sdk/Sources/FlowySDK/FlowyHybridMatcher.swift:86 | the result has the least area of the list, and every earlier entry is strictly larger (earliest on ties). It is absent only for an empty list. |
| HybridMatcher.FindBestMatch | ios-sdk/Sources/FlowySDK/FlowyHybridMatcher.swift:58-87 | nil exactly when no top-level node contains the point. Otherwise the result is a candidate containing the point. It is interactive when any candidate is, and has the least area in the lookup list. |
| HybridMatcher.MergeOne | ios-sdk/Sources/FlowySDK/FlowyHybridMatcher.swift:19-52 | when the centre has a best match, an element with that match's class, identifier and frame plus the text. No match gives an "OCR_Text" element with no identifier and the converted text frame. |
| HybridMatcher.Merge | ios-sdk/Sources/FlowySDK/FlowyHybridMatcher.swift:13-56 | one element per observation with a top candidate, and the i-th element is the merge of the i-th such observation |
| HybridMatcher.MergeCarriesTopStrings | ios-sdk/Sources/FlowySDK/FlowyHybridMatcher.swift:17-52 | the merged elements line up with the recognised top strings: as many, and the i-th element carries the i-th string |
| HybridMatcher.MergeAppend | ios-sdk/Sources/FlowySDK/FlowyHybridMatcher.swift:17-53 | merging distributes over a split of the observations, so elements keep observation order |
| Recognition.TopStrings | ios-sdk/Sources/FlowySDK/FlowyVisionEngine.swift:105 | one string per observation with a top candidate, and only those strings |
| Recognition.Recognised | ios-sdk/Sources/FlowySDK/FlowyVisionEngine.swift:105 | the observations that have a top candidate, and exactly those |
| Recognition.TopStringsSingle | ios-sdk/Sources/FlowySDK/FlowyVisionEngine.swift:105 | one observation gives its top string, or nothing when it has no candidate |
| Recognition.TopStringsAppend | ios-sdk/Sources/FlowySDK/FlowyVisionEngine.swift:105 | the strings of two lists of observations are the strings of the first followed by those of the second, so order is kept |
| Recognition.TopStringsRecognised | ios-sdk/Sources/FlowySDK/FlowyVisionEngine.swift:105 | the i-th string is the top candidate of the i-th observation that has one |
| VisionEngine.FinalSq | ios-sdk/Sources/FlowySDK/FlowyVisionEngine.swift:55-73 | the squared final distance is never negative |
| VisionEngine.WinnerUnique | ios-sdk/Sources/FlowySDK/FlowyVisionEngine.swift:75-78 | the least final distance with earliest-on-ties picks at most one observation |
| VisionEngine.SelectObservationAsWritten | ios-sdk/Sources/FlowySDK/FlowyVisionEngine.swift:40-79 | the loop as written keeps a candidate-bearing observation within 100·scale whose final distance is least, earliest on ties. It keeps none exactly when no observation lies within the radius. |
| VisionEngine.OutsideHitBeatsInsideHit | ios-sdk/Sources/FlowySDK/FlowyVisionEngine.swift:66-78 | a tap inside one box loses to a box it misses: the discount does not put every inside hit first |
| VisionEngine.SelectObservation | ios-sdk/Sources/FlowySDK/FlowyVisionEngine.swift:40-79 | inside hits come first, then the least final distance, earliest on ties, among observations with a top candidate within the radius. None exactly when nothing is eligible. The result is an inside hit exactly when some eligible observation is. |
| VisionEngine.ProcessTap | ios-sdk/Sources/FlowySDK/FlowyVisionEngine.swift:18-90 | nil without a bitmap or on a failed recognition. Otherwise the text of the observation the loop as written keeps at the scaled tap, and nil exactly when no observation with a candidate lies within the radius. |
| VisionEngine.ProcessTapCorrected | ios-sdk/Sources/FlowySDK/FlowyVisionEngine.swift:18-90 | the same entry point over the corrected selection: the text of the preferred eligible observation, nil exactly when none is eligible |
| VisionEngine.ScanScreen | ios-sdk/Sources/FlowySDK/FlowyVisionEngine.swift:93-112 | [] without a bitmap or on failure. Otherwise exactly the observations' top strings in observation order, unfiltered. |
| Heuristics.IsErrorText | ios-sdk/Sources/FlowySDK/FlowyHeuristics.swift:4-12 | false for nil; otherwise true exactly when the lower-cased text contains one of the fifteen keywords |
| Heuristics.ErrorTextIgnoresCase | ios-sdk/Sources/FlowySDK/FlowyHeuristics.swift:5 | the error test gives the same answer for a text and its lower-cased form |
| Heuristics.ErrorTextPersistsUnderExtension | ios-sdk/Sources/FlowySDK/FlowyHeuristics.swift:4-12 | appending text never turns an error message into a non-error |
| Heuristics.UnwrapHosting | ios-sdk/Sources/FlowySDK/FlowyHeuristics.swift:19-24 | a name with the marker and both brackets gives the text between its first '<' and its last '>'; any other name is unchanged |
| Heuristics.CutAtParen | ios-sdk/Sources/FlowySDK/FlowyHeuristics.swift:27-31 | the text before the first '(', trimmed of whitespace; a name without '(' is unchanged |
| Heuristics.DropModulePrefix | ios-sdk/Sources/FlowySDK/FlowyHeuristics.swift:34-36 | the text after the last '.'; a name without '.' is unchanged |
| Heuristics.NoiseHit | ios-sdk/Sources/FlowySDK/FlowyHeuristics.swift:40-42 | substring search decides the prefix-or-substring noise test exactly |
| Heuristics.RelabelNoise | ios-sdk/Sources/FlowySDK/FlowyHeuristics.swift:42-55 | a noisy name containing "SplitView" becomes "Split View"; another noisy name containing both "Scroll" and "List" becomes "Scroll List"; every other name is kept |
| Heuristics.CleanScreenName | ios-sdk/Sources/FlowySDK/FlowyHeuristics.swift:14-56 | the cleaned name never holds '(' or '.', and is "Split View", "Scroll List" or a piece of the raw name |
| Heuristics.NoisyNamesPassThrough | ios-sdk/Sources/FlowySDK/FlowyHeuristics.swift:42-55 | a noisy name that is neither a split view nor a scroll list is returned as steps 1–3 left it, not filtered out |
| Heuristics.PlainNameUnchanged | ios-sdk/Sources/FlowySDK/FlowyHeuristics.swift:14-56 | a name with no wrapper, '(', '.' or noise marker is returned unchanged |
| Heuristics.CleanScrollListExample | ios-sdk/Tests/FlowySDKTests/NameCleaningTests.swift:6-11 | "Scroll List (NoStyle...)" cleans to "Scroll List" |
| Heuristics.CleanHostingExample | ios-sdk/Tests/FlowySDKTests/NameCleaningTests.swift:13-18 | "UIHostingController<MyView>" cleans to "MyView" |
| Heuristics.CleanModulePrefixExample | ios-sdk/Tests/FlowySDKTests/NameCleaningTests.swift:20-25 | "MyApp.SettingsView" cleans to "SettingsView" |
| Heuristics.CleanSplitViewExample | ios-sdk/Tests/FlowySDKTests/NameCleaningTests.swift:27-32 | "UISplitViewController" cleans to "Split View" |
| Heuristics.CleanElementText | ios-sdk/Sources/FlowySDK/FlowyHeuristics.swift:58-64 | "Element" when the text starts with "_" or contains "Layout", and the text itself otherwise |
| Heuristics.CleanElementTextIdempotent | ios-sdk/Sources/FlowySDK/FlowyHeuristics.swift:58-64 | cleaning twice is cleaning once |
| Heuristics.CleanElementTextExamples | ios-sdk/Tests/FlowySDKTests/NameCleaningTests.swift:34-53 | "_UIButtonBarButton" and "SwiftUI.Layout" become "Element"; "Submit" is kept |
| ScreenReader.GetText | ios-sdk/Sources/FlowySDK/FlowyScreenReader.swift:150-156 | a label gives its text, a button its normal-state title, a text field its text or else its placeholder, a text view its text; any other view has none |
| ScreenReader.IsValidText | ios-sdk/Sources/FlowySDK/FlowyScreenReader.swift:158-168 | a text is valid exactly when it has at least two characters and holds a letter or digit; the emptiness test adds nothing |
| ScreenReader.ValidTextExamples | ios-sdk/Sources/FlowySDK/FlowyScreenReader.swift:158-168 | "", "A" and "--" are rejected; "OK" and the purely numeric "42" are kept |
| ScreenReader.Own | ios-sdk/Sources/FlowySDK/FlowyScreenReader.swift:116-141 | at most one candidate per view. It is the trimmed text, valid, at the view's top edge, and a header exactly for a bold or larger-than-17-point label. |
| ScreenReader.Collect | ios-sdk/Sources/FlowySDK/FlowyScreenReader.swift:109-148 | nothing deeper than 15 or under a hidden or alpha < 0.1 view; every candidate is a valid text |
| ScreenReader.Traverse | ios-sdk/Sources/FlowySDK/FlowyScreenReader.swift:109-148 | the in-out list only grows at its end, and a list of at most 30 candidates stays within 30; by `TraverseIsCappedCollect`, the result equals `Take(acc + Collect(v, depth), 30)` |
| ScreenReader.TraverseIsCappedCollect | ios-sdk/Sources/FlowySDK/FlowyScreenReader.swift:109-148 | the early-exit traversal with its in-out list equals the uncapped pre-order reading cut at 30 |
| ScreenReader.ExtractVisibleText | ios-sdk/Sources/FlowySDK/FlowyScreenReader.swift:103-107 | at most 30 candidates, each valid: the first 30 of the readable tree in pre-order |
| ScreenReader.TopHeader | ios-sdk/Sources/FlowySDK/FlowyScreenReader.swift:71-74 | none exactly when no candidate is a header. Otherwise the text of a header with the least y, earlier ones being strictly lower. |
| ScreenReader.KeywordMatch | ios-sdk/Sources/FlowySDK/FlowyScreenReader.swift:77-96 | the first exact case-insensitive keyword match wins over any partial one. A partial match must be under 30 characters and is the first such. None exactly when neither exists. |
| ScreenReader.FromContent | ios-sdk/Sources/FlowySDK/FlowyScreenReader.swift:62-96 | more than two "min" texts give "Timers List". Otherwise the top header, if any, else the keyword match. Any other name is a candidate's text. |
| ScreenReader.FromTitles | ios-sdk/Sources/FlowySDK/FlowyScreenReader.swift:43-60 | the title wins unless missing, empty or "Back"; then the navigation item title, then the navigation bar top item title, then the text of a title-view label, the first non-empty one in that order. None exactly when all four are missing or empty. |
| ScreenReader.Delegate | ios-sdk/Sources/FlowySDK/FlowyScreenReader.swift:24-41 | a split view hands over to its last child, a navigation controller to its top controller, a tab bar controller to its selected one, each only when present; any other controller hands over to none. The child is strictly smaller. |
| ScreenReader.DeduceOwn | ios-sdk/Sources/FlowySDK/FlowyScreenReader.swift:43-99 | a title wins; without one, the content name; without either, the class name |
| ScreenReader.Resolve | ios-sdk/Sources/FlowySDK/FlowyScreenReader.swift:24-41 | the delegation chain ends at a controller that delegates no further |
| ScreenReader.Deduce | ios-sdk/Sources/FlowySDK/FlowyScreenReader.swift:21-100 | the deduced name is the one the end of the delegation chain gets from rules 1 to 4 |
| ScreenReader.NameProvenance | ios-sdk/Sources/FlowySDK/FlowyScreenReader.swift:21-100 | a screen name is a title, "Timers List", a visible text or the raw class name of the controller the chain ends at |
| ScreenReader.TitleMasksContent | ios-sdk/Sources/FlowySDK/FlowyScreenReader.swift:45-63 | once a title applies, the view's content cannot change the name |
| ScreenReader.FindSectionHeader | ios-sdk/Sources/FlowySDK/FlowyScreenReader.swift:170-197 | none exactly when no header lies more than 5 and less than 400 points above the view. Otherwise such a header's text, with no other such header lower. |
| Utf8.DecodeEncode | ios-sdk/Sources/FlowySDK/FlowyStorage.swift:30-32 | decoding the UTF-8 encoding of a string gives the string back |
| Utf8.EncodeDecode | ios-sdk/Sources/FlowySDK/FlowyStorage.swift:56 | bytes that decode are exactly the encoding of the text they decode to |
| Utf8.DecodeAppend | ios-sdk/Sources/FlowySDK/FlowyStorage.swift:56 | after a well-formed prefix, the whole decodes exactly when the rest does, to the two texts joined |
| Utf8.AppendEncoded | ios-sdk/Sources/FlowySDK/FlowyStorage.swift:32-56 | appending the encoding of a string to readable bytes makes them read as the old text followed by the string |
| Storage.AppendEvent | ios-sdk/Sources/FlowySDK/FlowyStorage.swift:20-48 | with a documents directory, an encodable event and a writable file, the prior bytes are kept and followed by exactly the UTF-8 encoding of the line and a line feed, the file being created if missing. Otherwise nothing changes. |
| Storage.SplitLines | ios-sdk/Sources/FlowySDK/FlowyStorage.swift:57 | one piece more than there are newline characters, and no piece holds one |
| Storage.SplitLinesAt | ios-sdk/Sources/FlowySDK/FlowyStorage.swift:57 | splitting at a newline splits the piece list apart |
| Storage.DecodeLines | ios-sdk/Sources/FlowySDK/FlowyStorage.swift:63-69 | every event comes from a non-empty line that decodes, and every such line contributes its event; `DecodeLinesAppend` keeps them in line order |
| Storage.DecodeLinesAppend | ios-sdk/Sources/FlowySDK/FlowyStorage.swift:63-69 | decoding distributes over a split of the lines, so events keep file order |
| Storage.RetrieveAndClearLog | ios-sdk/Sources/FlowySDK/FlowyStorage.swift:50-76 | nil exactly without a documents directory, without a file or when the read fails. Otherwise the events of the decoded text, or no events at all when the bytes are not well-formed UTF-8. The file is returned unchanged. |
| Storage.ReadText | ios-sdk/Sources/FlowySDK/FlowyStorage.swift:56 | the decoded text of well-formed bytes, and the empty text otherwise |
| Storage.MalformedTailLosesLog | ios-sdk/Sources/FlowySDK/FlowyStorage.swift:55-72 | bytes that are not well-formed after a readable log make the retrieve return no events, the earlier ones included |
| Storage.TornWriteLosesLog | ios-sdk/Sources/FlowySDK/FlowyStorage.swift:29-72 | a one-event log reads back that event; after one more byte that starts a two-byte character, it reads back no events |
| Storage.ClearLog | ios-sdk/Sources/FlowySDK/FlowyStorage.swift:78-81 | a successful removal leaves no file; otherwise nothing changes |
| Storage.ClearThenRetrieve | ios-sdk/Sources/FlowySDK/FlowyStorage.swift:52 | after a successful clear, the next retrieve returns nil |
| Storage.AppendKeepsTerminated | ios-sdk/Sources/FlowySDK/FlowyStorage.swift:31-42 | appending keeps the file well-formed UTF-8 with every line complete |
| Storage.LineContents | ios-sdk/Sources/FlowySDK/FlowyStorage.swift:29-31 | a file of one encoded line holds exactly that event |
| Storage.TerminatedConcat | ios-sdk/Sources/FlowySDK/FlowyStorage.swift:57-69 | the events of a file with complete lines stay in front of whatever is written after them |
| Storage.AppendThenContents | ios-sdk/Sources/FlowySDK/FlowyStorage.swift:20-69 | one append adds exactly that event at the end of what the file holds |
| Storage.AppendAllConcat | ios-sdk/Sources/FlowySDK/FlowyStorage.swift:20-48 | appending two lists in turn is appending their concatenation |
| Storage.AppendAllThenRetrieve | ios-sdk/Sources/FlowySDK/FlowyStorage.swift:20-76 | appended line-safe events read back after the prior events, all of them, in order |
| Storage.FreshLogRoundTrip | ios-sdk/Sources/FlowySDK/FlowyStorage.swift:20-76 | appends to a missing file read back as exactly the appended events, or nil when there were none |
| Storage.CorruptTailKeepsRecords | ios-sdk/Sources/FlowySDK/FlowyStorage.swift:56-69 | a well-formed tail after the last complete line never hides the events before it |
| Uploader.Begin | ios-sdk/Sources/FlowySDK/FlowyUploader.swift:27 | a grant is open exactly when its identifier is valid, and its only call is the begin |
| Uploader.PerformUpload | ios-sdk/Sources/FlowySDK/FlowyUploader.swift:47-64 | completion runs exactly once, as the last step. It runs at once exactly when the drain is nil or empty; otherwise it runs after the 2-second transport. The drained events are what retrieve returns. |
| Uploader.RepeatedUploadRedrains | ios-sdk/Sources/FlowySDK/FlowyUploader.swift:52 | the log is unchanged by an upload, so the next upload drains the same events |
| Uploader.UploadDrainsAppended | ios-sdk/Sources/FlowySDK/FlowyUploader.swift:47-64 | events appended to a fresh log are exactly what the upload drains |
| Uploader.FinishByCapturedId | ios-sdk/Sources/FlowySDK/FlowyUploader.swift:34-42 | each completion adds one end call naming the captured identifier, whatever the grant's state |
| Uploader.FinishByValidToken | ios-sdk/Sources/FlowySDK/FlowyUploader.swift:27-42 | completions through the token add one end call in all, only while the token is valid |
| Uploader.TriggerUploadAsWritten | ios-sdk/Sources/FlowySDK/FlowyUploader.swift:23-45 | the grant is begun once. A valid grant is ended twice exactly when it expires before a still-running upload completes, and once otherwise. An invalid grant never expires and is ended once, through the completion, when the upload runs. |
| Uploader.ExpiredGrantEndedTwice | ios-sdk/Sources/FlowySDK/FlowyUploader.swift:27-41 | on an empty log with early expiration, grant 1 is ended twice |
| Uploader.TriggerUpload | ios-sdk/Sources/FlowySDK/FlowyUploader.swift:23-45 | with completion ending the grant through the token, every schedule begins the grant once and ends a valid grant exactly once, and an invalid one never |
| Logger.Init | ios-sdk/Sources/FlowySDK/FlowyLogger.swift:14-21 | the screen name starts as "Unknown" over the existing log |
| Logger.ElementType | ios-sdk/Sources/FlowySDK/FlowyLogger.swift:54-78 | nothing without a tap point and a window. Otherwise the class of the best match at the tap, exactly when there is one and it names a control kind. |
| Logger.LabelTapElementType | ios-sdk/Sources/FlowySDK/FlowyLogger.swift:54-85 | a tap on a label inside a button names no class when the label is interactive, and "UIButton" otherwise: the suffix follows the best match, not any node under the tap |
| Logger.LogVisionInteraction | ios-sdk/Sources/FlowySDK/FlowyLogger.swift:48-102 | one event with the text, or "NIL", followed by " [Class]" on a control. SECURE_TAP exactly when the text is "[SECURE_FIELD]", TAP otherwise. Carries the mapped coordinates and the current screen name, which is unchanged. The store gains exactly that event. |
| Logger.SecureFieldTap | ios-sdk/Sources/FlowySDK/FlowyLogger.swift:80-91 | the secure-field report is a SECURE_TAP without coordinates |
| Logger.UnrecognisedTap | ios-sdk/Sources/FlowySDK/FlowyLogger.swift:80-91 | a tap without text or window is a TAP logged as "NIL" |
| Logger.ButtonTapNamesClass | ios-sdk/Sources/FlowySDK/FlowyLogger.swift:54-85 | a recognised "Submit" on a UIButton is logged as "Submit [UIButton]" |
| Logger.LogScreenView | ios-sdk/Sources/FlowySDK/FlowyLogger.swift:224-227 | the name becomes the current screen name, and one SCREEN event without text or coordinates records it |
| Logger.LogManualEvent | ios-sdk/Sources/FlowySDK/FlowyLogger.swift:211-220 | one event of the given type and text, without coordinates, under the unchanged current screen name |
| Logger.LogAction | ios-sdk/Sources/FlowySDK/FlowyLogger.swift:230-254 | one event of the given type without text, with the touch point, under the unchanged current screen name |
| Logger.ScreenNameCarried | ios-sdk/Sources/FlowySDK/FlowyLogger.swift:216-226 | after a screen view, the next manual event carries the new screen name |
| Logger.LabelError | ios-sdk/Sources/FlowySDK/FlowyLogger.swift:200-201 | a view yields an error text exactly when it is a label with non-empty error text |
| Logger.FirstErrorLabel | ios-sdk/Sources/FlowySDK/FlowyLogger.swift:196-207 | the error text of the first view that has one; none exactly when no view has one |
| Logger.BfsOrderCount | ios-sdk/Sources/FlowySDK/FlowyLogger.swift:193-207 | the breadth-first order visits exactly as many views as the queued trees hold |
| Logger.StatusScan | ios-sdk/Sources/FlowySDK/FlowyLogger.swift:191-208 | a scan result is always an error text. On a tree of at most 50 views, it is the first error label in breadth-first order. |
| Logger.ScanVisibleStatus | ios-sdk/Sources/FlowySDK/FlowyLogger.swift:191-208 | the queue loop finds exactly the first error label among the first 50 views in breadth-first order |
| Logger.StatusEvents | ios-sdk/Sources/FlowySDK/FlowyLogger.swift:196-205 | at most one ERROR event, present exactly when the scan finds an error label, under the current screen name |
| Logger.LogScreenAppear | ios-sdk/Sources/FlowySDK/FlowyLogger.swift:107-135 | nothing when the controller is gone. Otherwise the cleaned deduced name becomes current, and a SCREEN event with that name is logged first. A second event, an ERROR under the new name, comes exactly when the status scan finds an error label, and carries that label's text. |
| Logger.FirstStatus | ios-sdk/Sources/FlowySDK/FlowyLogger.swift:160-178 | the first string that is an error or a success, error checked first; none exactly when no string is either |
| Logger.PerformAfterActionScan | ios-sdk/Sources/FlowySDK/FlowyLogger.swift:144-180 | nothing without a key window. Otherwise no event when no recognised string is an error or a success, and else exactly one event for the first such string: ERROR for an error text, SUCCESS otherwise, with that string and the current screen name. |
| Logger.EmittedEventsAreRead | ios-sdk/Sources/FlowySDK/FlowyLogger.swift:100 | with a cooperating file system and a lawful codec, the events an operation emits are read back after what the log held |

## Left out

- The three `*+Swizzle.swift` files are left out because they are Objective-C runtime hooks. Only the values they pass in are modelled: the secure-field marker with no coordinates (`Logger.SecureFieldTap`). The window hook's substitution of "Tap" for missing text is also left out.
- `Flowy.swift` is a thin public facade over the logger and is left out. Its `trackError` calls a logger method that does not exist.
- `FlowyLogger.startMonitoring`, the background-notification observer and the print statements are platform plumbing and are left out.
- `FlowyLogger.interceptAction` is a no-op and is left out.
- Threads, `DispatchQueue` hops, the 0.1-second `asyncAfter` and `Thread.sleep` become one sequential order. In the uploader, whether expiration comes before completion is a parameter.
- `FileManager` and `FileHandle` are replaced by the `Platform` record. `JSONEncoder` and `JSONDecoder` are replaced by the `Codec` parameter and its `Lawful` promise.
- Vision requests and snapshots are replaced by the recognition `Outcome` input. UIKit type tests, font traits and `convert(_:to:)` are fields of `Ui.View` and `Ui.Controller`.
- `FlowyHeuristics.isSuccessText` is not part of this model. `Logger.PerformAfterActionScan` takes it as the `isSuccess` parameter.
- Lower-casing and alphanumerics cover ASCII only. Text length counts characters rather than grapheme clusters.
- Floating point is modelled with `real`, without rounding.
- UTF-8 decoding is the strict decoding of section 3 of RFC 3629. Any special handling of a leading byte-order mark by `String(data:encoding:)` is left out, because the SDK never writes one.
- `Storage.AppendAllThenRetrieve` requires every encoded line to be free of every newline character. RFC 8259, section 7, does not force U+0085, U+2028 or U+2029 to be escaped, so an encoder may emit them and split a record.
- The web dashboard and the FlowyTester demo app are outside the capture engine and are left out.
- `Heuristics.CleanScreenName` requires `CleanDefined`: the source traps when a hosting-controller name has its last '>' before its first '<'. The model excludes that input instead of modelling the crash.
- `Logger.LogAction` captures a hierarchy that the event never uses, so the capture is left out.

## Findings

| source | as written | input that shows it | evidently intended | confidence | as-written member | corrected member |
|---|---|---|---|---|---|---|
| ios-sdk/Sources/FlowySDK/FlowyUploader.swift:27-42 | The completion ends the identifier captured by value when the grant began, even if the expiration handler has already ended that grant | An empty log, with the grant expiring before the upload completes: the calls are begin(1), end(1), end(1) | Each grant is ended exactly once: the completion goes through the shared token, ending its identifier only while it is still valid | not executed | Uploader.TriggerUploadAsWritten, Uploader.ExpiredGrantEndedTwice | Uploader.TriggerUpload |
| ios-sdk/Sources/FlowySDK/FlowyVisionEngine.swift:66-78 | An inside hit only divides its distance by 100, so it can still lose to an outside hit | A 4000×1000 bitmap at scale 1 with a tap at (100, 500). Box {0, 0.4, 0.9, 0.2} contains the tap and has final distance 17. Box {0.02775, 0.49, 0.0015, 0.02} misses it and has final distance 14. The outside box wins. | As the comment says, any inside hit beats any outside hit, and distance decides within each group | not executed | VisionEngine.SelectObservationAsWritten, VisionEngine.OutsideHitBeatsInsideHit, VisionEngine.ProcessTap | VisionEngine.SelectObservation, VisionEngine.ProcessTapCorrected |
