# Photo editor and TTS arena, modelled in Dafny

The repository holds two unrelated applications, and this project models the deterministic core of each.

**The AI photo editor** (React/TypeScript) lets a user upload a portrait and apply AI edits: filters, virtual try-on of clothing, hair styles, make-up, backgrounds, text overlays and face retouching. Each applied style is a *facet*. The model covers:

- the linear edit history with a cursor (commit truncates the redo branch; undo and redo move the cursor and restore a full snapshot);
- the exclusive facets and the accumulating fashion-item list;
- the deterministic prompt built from the applied items;
- the hover preview, whose request counter discards stale answers (`App.tsx`);
- the try-on panel, the drag-to-select canvas, the assistant chat parser, the translation lookup and the local user store;
- the deterministic parts of the Gemini client: request parts, choice of response part, the style tag and the failure paths.

**The TTS arena** (Flask/Python) lets users vote between two text-to-speech models. The model covers:

- IP anonymisation and vote recording, with its win/match counters and the set of consumed dataset sentences keyed by a digest of the stripped text;
- the public and personal leaderboards and the month-by-month key dates;
- the vote-integrity detectors, with the rapid-voting run counter, the bounded security score and the vote gate;
- request validation and client-address selection;
- the bounded TTS cache and its refills, one vote per session, and the expiry sweep;
- the admin input checks and analyses, the admin guard, the account-age decision, and the TTS script formatting and dispatch.

Modelling conventions:

- Tables are sequences and maps.
- Times are integer microseconds or day numbers.
- SHA-256 is a collision-free tag of the stripped text.
- Float thresholds on ratios are compared exactly (`x/n > 0.2` as `5x > n`, bias thresholds as reals).
- Calls to the models, HTTP services, random numbers, UUIDs and clocks are parameters: the reply, the pick, or the current time.
- The editor's model call is an outcome: image data, no image, or a failure with its message.

In these places the code does not do what its comments or names suggest, and the model follows the code:

- **Closure capture.** `addHistoryEntry` merges the update record with the facets captured when the handler ran. It does not read the facets set earlier in the same handler (App.tsx:63-79). `PhotoEditor.StartEdit` and `PhotoEditor.FinishEdit` carry this capture as a `Pending` record.
- **Text-only replies.** A reply holding text instead of an image loses its text: the catch block rethrows one fixed message (geminiService.ts:246-249).
- **Adjustments.** `applyAdjustments` clears the live facets even when every setting is neutral and no edit is made (App.tsx:207-215).
- **Face swap.** `handleApplyFaceSwap` clears every live facet before the swap (App.tsx:261) and then sets only the face-swap image, so on screen it is exclusive like the other looks. Its history entry passes only the face-swap image (App.tsx:276), so the other eight facets come from the render the handler captured, as described under closure capture.
- **IPv6 anonymisation.** The docstring of `anonymize_ip_address` gives `2001:db8::1 -> 2001:db8::` (models.py:212), but the code keeps the first four colon-separated parts and appends `::` (models.py:222), so that address becomes `2001:db8::1::`. `ArenaModels.AnonymizeIpV6` follows the code.
- **Vote threshold.** The public leaderboard's threshold is `match_count > 250`, although the comment above it says 350 (models.py:347-348).

## Model

| member | source | states |
|---|---|---|
| EditHistory.Start | App.tsx:134-147 | a fresh upload gives a one-entry history with every facet cleared, on which neither undo nor redo is possible |
| EditHistory.Commit | App.tsx:76-78 | entries up to the cursor are kept, the new entry is appended and becomes current, redo is no longer possible and undo is whenever an entry preceded it |
| EditHistory.Back | App.tsx:615-621 | undo moves the cursor one step back exactly when it is past the first entry, after which redo is possible; entries never change |
| EditHistory.Forward | App.tsx:623-629 | redo moves the cursor one step forward exactly when it is before the last entry, after which undo is possible; entries never change |
| EditHistory.BackForward | App.tsx:615-629 | undo then redo, and redo then undo, return to the same history |
| EditHistory.CommitAfterBack | App.tsx:76-78 | an edit made after an undo discards the entry that was undone and keeps every earlier one |
| EditHistory.Merge | App.tsx:63-75 | each facet of the new entry is the given update when present and the captured facet otherwise |
| EditHistory.MergeExtremes | App.tsx:63-75 | an empty update snapshots the captured facets; an update giving every facet ignores them |
| PhotoEditor.StartEdit | App.tsx:93-102 | without an uploaded image only the upload-first error is set and no request is made; otherwise loading starts, the error clears and the original is sent with the prompt and extra image |
| PhotoEditor.FinishEdit | App.tsx:104-123 | a non-empty image is displayed and committed on top of the captured history with the merged facets; anything else leaves history and screen alone and shows the thrown message or the no-image error; loading always ends |
| PhotoEditor.EditCommitsOnlyDeliveredImages | App.tsx:93-123 | an edit changes the history exactly when the model delivers an image, and a missing upload never changes it |
| PhotoEditor.Select | App.tsx:163-348 | each look handler sets its own look and clears the rest, both live and in the update record; a retouch with nothing ticked does nothing; a request is made exactly when an image is uploaded |
| PhotoEditor.SelectedIsExclusive | App.tsx:222-248 | after a selection a facet is clear exactly when it is not the one the selection sets |
| PhotoEditor.SelectionClearsOtherFacets | App.tsx:163-348 | a delivered look edit commits a snapshot holding that look with every other facet clear, and the screen agrees with it |
| PhotoEditor.ApplyAdjustments | App.tsx:207-220 | the live facets are cleared in every case, and an edit is requested exactly when an image is uploaded and some setting differs from neutral |
| PhotoEditor.CatalogueOnly | App.tsx:180 | exactly the non-custom entries are kept |
| PhotoEditor.CatalogueOnlyCounts | App.tsx:180 | each catalogue entry is kept as many times as it occurs, and custom entries never |
| PhotoEditor.CatalogueOnlyAppend | App.tsx:180 | the filter keeps the input's order: a concatenation filters part by part, and a single entry stays exactly when it is from the catalogue |
| PhotoEditor.IndexOfId | App.tsx:181 | the index found is that of the first entry with the id, and none is found only when no entry has it |
| PhotoEditor.MergeFashion | App.tsx:175-188 | a custom item replaces the whole list with itself in the empty colour; a catalogue item drops custom entries and then recolours its own entry in place or is appended, leaving every other entry as it was |
| PhotoEditor.CatalogueOnlyDistinct | App.tsx:180 | dropping custom entries keeps ids distinct |
| PhotoEditor.FashionIdsStayDistinct | App.tsx:175-188 | selecting items never yields two entries with one id |
| PhotoEditor.InstructionsAppend | App.tsx:190 | the instructions follow the applied items in order: a single item gives its own prompt with the first colour placeholder filled, and the instructions of two runs of items are those of the first run followed by those of the second |
| PhotoEditor.FashionPromptAppend | App.tsx:190 | appending an item inserts the separator and its instruction before the final full stop |
| PhotoEditor.FashionPromptSingle | App.tsx:190 | one item gives the prefix, its instruction and a full stop |
| PhotoEditor.DataUrlPayload | App.tsx:178 | a payload exists exactly when the URL holds a comma, and it is the comma-free text right after the first comma |
| PhotoEditor.SelectFashionItem | App.tsx:170-205 | only the applied-item list is set live; the update record carries the new list and clears every other facet; a custom item sends its own prompt and payload, a catalogue item the combined prompt |
| PhotoEditor.FashionSnapshotClearsOtherFacets | App.tsx:193-195 | a delivered fashion edit commits the new list with every other facet clear while the live hair style is left as it was |
| PhotoEditor.UploadImage | App.tsx:126-150 | the new image is shown, every facet is cleared, detection starts and the history restarts with one snapshot the screen agrees with |
| PhotoEditor.DetectionFinished | App.tsx:151-160 | detection ends; a detector answer is stored and a failure keeps the old result |
| PhotoEditor.UploadNewImage | App.tsx:531-543 | back to the uploader with an empty history on which neither undo nor redo is possible; the hover counter is unchanged |
| PhotoEditor.Reset | App.tsx:522-600 | nothing happens without an image, or for the fashion reset with no item applied; otherwise the original is shown and committed with exactly the named facets cleared |
| PhotoEditor.Restore | App.tsx:602-613 | the displayed images and all nine facets come from the entry; nothing else changes |
| PhotoEditor.Undo | App.tsx:615-621 | without an earlier entry nothing changes; otherwise the cursor steps back and the screen shows that entry |
| PhotoEditor.Redo | App.tsx:623-629 | without a later entry nothing changes; otherwise the cursor steps forward and the screen shows that entry |
| PhotoEditor.UndoRedoRoundTrip | App.tsx:615-629 | from a state showing its current entry, undo then redo, and redo then undo, change nothing |
| PhotoEditor.HoverStart | App.tsx:631-641 | ignored while loading or without an image; otherwise the counter is bumped, its new value tags a request for the filter, and the preview starts loading |
| PhotoEditor.HoverResolve | App.tsx:643-656 | an answer for an outdated request changes nothing; for the current request, a delivered image becomes the preview the viewer shows, an error clears the preview so the displayed images show again, and a null answer keeps the preview; a current answer ends loading; only the preview changes |
| PhotoEditor.HoverEnd | App.tsx:659-663 | the counter is bumped and the preview and its loading flag are cleared |
| PhotoEditor.HoverEndDiscardsEarlierRequests | App.tsx:643-663 | after the hover ends no earlier request can bring a preview back, and the displayed images are shown |
| PhotoEditor.LatestHoverWins | App.tsx:631-656 | with two overlapping hovers, the second request's image is previewed whatever the first answers and in whichever order they arrive |
| FashionControls.ItemClick | FashionControls.tsx:30-36 | a garment with colours opens its picker exactly when it was not the open one, closes it otherwise, and applies nothing; a garment without colours is applied at once with the empty colour |
| FashionControls.ClickTwice | FashionControls.tsx:30-32 | two clicks on a coloured garment restore its open picker and leave a closed or foreign one closed |
| FashionControls.ColorSelect | FashionControls.tsx:38-41 | choosing a colour hands the garment in that colour to the editor and closes the picker |
| FashionControls.AppliedColor | FashionControls.tsx:43-49 | a colour is found exactly when the garment is applied, and it is the colour of the first applied entry with the garment's id |
| FashionControls.ColorSelectApplies | FashionControls.tsx:38-49 | after choosing a colour for a catalogue garment, the garment is shown as applied in exactly that colour |
| FashionControls.ItemsIn | FashionControls.tsx:92-101 | a category collects exactly the catalogue garments whose type maps to it |
| FashionControls.ItemsInCounts | FashionControls.tsx:92-101 | a garment appears under its own category as often as the catalogue holds it, and never under another |
| FashionControls.ItemsInAppend | FashionControls.tsx:92-101 | a category's garments keep catalogue order: a concatenated catalogue is grouped part by part, and a single garment is listed exactly under its category |
| FashionControls.Present | FashionControls.tsx:105-106 | exactly the categories of the order that hold a garment are kept, in the order given |
| FashionControls.HeadingsNonEmpty | FashionControls.tsx:106 | no heading is shown without garments |
| FashionControls.HeadingsInOrder | FashionControls.tsx:103-107 | headings follow the fixed category order, so no category is shown twice |
| FashionControls.HeadingsComplete | FashionControls.tsx:103-110 | a category gets a heading exactly when some garment belongs to it |
| FashionControls.ItemsInTheirCategory | FashionControls.tsx:62-110 | every catalogue garment is listed, and only under the heading of its own type's category |
| ImageAnnotation.DragRect | ImageAnnotation.tsx:92-95 | the rectangle has non-negative sides, its origin is the smaller coordinate of the two corners and its far edge the larger |
| ImageAnnotation.DragRectSymmetric | ImageAnnotation.tsx:92-95 | dragging from a to b or from b to a gives the same rectangle |
| ImageAnnotation.DragRectIsBoundingBox | ImageAnnotation.tsx:92-95 | the rectangle holds both corners and lies inside every box that holds them, so it is the smallest such box |
| ImageAnnotation.MouseDown | ImageAnnotation.tsx:51-59 | a press is ignored when disabled or off the canvas; otherwise a drag starts at the pointer and the selection is cleared |
| ImageAnnotation.MouseMove | ImageAnnotation.tsx:61-86 | a preview is drawn exactly while a drag with a start point is on and the pointer is on the canvas, and it is the drag rectangle |
| ImageAnnotation.MouseUp | ImageAnnotation.tsx:88-103 | without a start point nothing happens; otherwise the drag ends, and a selection is reported exactly when both sides exceed five pixels; a release never clears |
| ImageAnnotation.MouseLeave | ImageAnnotation.tsx:111 | leaving stops drawing and keeps the start point |
| ImageAnnotation.PressRelease | ImageAnnotation.tsx:51-103 | a press then a release ends the drag and selects exactly when the two points are more than five pixels apart both ways |
| ImageAnnotation.ClickSelectsNothing | ImageAnnotation.tsx:97 | a click without movement never selects |
| ImageAnnotation.LeaveKeepsPendingRelease | ImageAnnotation.tsx:61-111 | after leaving mid-drag no preview is drawn, but a release reports the same as without leaving |
| AssistantChat.ParseMessage | AIAssistantControls.tsx:47-74 | one element per piece of the reply cut at the fences; even-numbered pieces are text kept verbatim, odd-numbered ones are prompts trimmed |
| AssistantChat.ButtonsAskForTrimmedPrompts | AIAssistantControls.tsx:56-63 | the button under each fenced piece asks for one image at aspect ratio 1:1 of that piece trimmed |
| AssistantChat.UnfencedIsText | AIAssistantControls.tsx:47-53 | a reply holding no fence renders as a single text element equal to the whole reply |
| AssistantChat.OneFencedPrompt | AIAssistantControls.tsx:47-63 | text, fenced block, text renders as the text before, the trimmed prompt, and the text after |
| AssistantChat.ParseKeepsEverything | AIAssistantControls.tsx:48-53 | joining the pieces with the fence gives the reply back, so no character of the reply is dropped |
| AssistantChat.SendMessage | AIAssistantControls.tsx:36-41 | a message is sent exactly when the trimmed input is non-empty; it is sent trimmed and the box is emptied, otherwise the box keeps its text |
| AssistantChat.SendDisabled | AIAssistantControls.tsx:139 | an enabled button always leads to a send; a disabled one on an enabled panel means the send would do nothing |
| AssistantChat.SentIsTrimmed | AIAssistantControls.tsx:37-38 | sending the sent text again sends the same text: trimming is idempotent |
| Language.Initial | LanguageContext.tsx:20-21 | the first locale is the stored one unless it is absent or empty, and English otherwise; nothing is loaded yet |
| Language.SetLocale | LanguageContext.tsx:43-46 | the new locale is persisted and becomes current, and the translations are kept |
| Language.LoadFinished | LanguageContext.tsx:23-41 | loaded data replaces the translations; a failed load switches to English (a no-op when already English) and keeps the old translations and the stored choice |
| Language.FallbackSettles | LanguageContext.tsx:35-46 | after a failed switch a second failure changes nothing, and the stored choice still names the chosen locale for the next start |
| Language.Lookup | LanguageContext.tsx:49 | the translation of a key when it is present and non-empty, the key itself otherwise |
| Language.Translate | LanguageContext.tsx:48-56 | without replacements the lookup comes back unchanged, which for an unknown key is the key itself |
| Language.FillWithoutPlaceholders | LanguageContext.tsx:50-54 | a text holding none of the placeholders comes back unchanged |
| Language.FillsFirstOnly | LanguageContext.tsx:52 | a replacement fills only the first occurrence of its placeholder and keeps everything after it, later occurrences included |
| GeminiService.FindFirst | geminiService.ts:235-240 | the index found is that of the first part with the property, and none is found only when no part has it |
| GeminiService.ChoosePart | geminiService.ts:235-245 | image data is chosen exactly when some part is an image, and then it is the first image part's data; otherwise the first part with non-empty text; nothing only when neither kind exists |
| GeminiService.EditRequestParts | geminiService.ts:204-225 | the source image first, the extra image as PNG in the middle exactly when one is given and non-empty, and the prompt with a space and the suffix last |
| GeminiService.EditImageWithPrompt | geminiService.ts:202-250 | the image data when a part is an image, no image when the reply has neither image nor text, and the one fixed failure message for a text-only reply or a failed call |
| GeminiService.TagClose | geminiService.ts:53 | the lazy match stops at the first closing bracket after the start, and fails when a line break comes first |
| GeminiService.SplitStyleTag | geminiService.ts:52-57 | without a leading tag the style is Unknown and the text is kept; with one, the style is the tag's content, which holds no closing bracket or line break, and the analysis is the rest after the tag with leading white space removed |
| GeminiService.AnalyzeImage | geminiService.ts:30-81 | the three answers are combined exactly when the analysis and the prompt are non-empty and every call answered; every other case is the one fixed failure message |
| GeminiService.Present | geminiService.ts:327 | exactly the present results are kept, each value as many times as it was returned |
| GeminiService.PresentAppend | geminiService.ts:327 | the present results keep their order: a concatenation is filtered part by part, and a single result gives its value or nothing |
| GeminiService.PerspectiveImages | geminiService.ts:297-338 | success holds between one and the requested number of images: the returned images in their order (the present-results filter) and each as many times as it was returned; no image or a failed call is the one fixed failure message |
| GeminiService.RecognizeClothing | geminiService.ts:110-159 | a result exactly when the call answered with non-blank text that parses, and then it is the parse |
| AuthStore.Signup | AuthContext.tsx:56-79 | sign-up fails exactly when the name is taken, and then changes nothing; otherwise it appends one unverified user holding the token, signs nobody in, and returns the token |
| AuthStore.SignupKeepsNamesUnique | AuthContext.tsx:58-74 | sign-up keeps the stored names unique |
| AuthStore.FindUser | AuthContext.tsx:84 | the lookup finds the first stored user with the name, and nothing exactly when the name is not stored |
| AuthStore.Login | AuthContext.tsx:81-103 | login fails, in order, for an unknown name, a wrong password, then an unverified account (checked on the first user with the name); otherwise it signs that user in and leaves the list alone |
| AuthStore.FindToken | AuthContext.tsx:108 | the lookup finds the first user holding the token, and nothing exactly when nobody holds it |
| AuthStore.VerifyEmail | AuthContext.tsx:105-126 | verification fails exactly when nobody holds the token; otherwise only the first holder changes, becoming verified without a token, and is signed in |
| AuthStore.Logout | AuthContext.tsx:128-131 | logout signs everyone out and leaves the user list alone |
| AuthStore.TokenSingleUse | AuthContext.tsx:115-119 | when only one user holds a token, verifying with it a second time fails |
| AuthStore.SignupVerifyLogin | AuthContext.tsx:56-126 | signing up under a free name with an unused token, verifying with that token, then logging out and in with the same password signs that user in |
| ArenaModels.AnonymizeIpAbsent | models.py:214-215 | the result is none exactly when the address is absent or empty |
| ArenaModels.AnonymizeIpV6 | models.py:218-223 | an address with a colon and at least three colons becomes everything before its fourth colon (or all of it) followed by `::`; with fewer than three colons it is returned unchanged |
| ArenaModels.FourPartsCount | models.py:220-222 | the first four colon-separated groups, joined again, hold exactly three colons |
| ArenaModels.FourPartsPrefix | models.py:220-222 | the first four groups, joined again, are a prefix of the address ending at a colon or at its end |
| ArenaModels.AnonymizeIpV4 | models.py:224-229 | an address without a colon made of exactly four dot-separated parts a.b.c.d becomes a.b.0.0; any other is unchanged |
| ArenaModels.AnonymizedV6IsFixed | models.py:218-223 | an anonymised IPv6 address anonymises to itself |
| ArenaModels.AnonymizedV4IsFixed | models.py:224-229 | an anonymised IPv4 address anonymises to itself |
| ArenaModels.AnonymizeIpIdempotent | models.py:207-231 | anonymising twice is the same as anonymising once |
| ArenaModels.MarkConsumed | models.py:1003-1021 | afterwards the text's digest is present and maps to the returned row; no other row changes and only that digest can be added; an already consumed text leaves the table unchanged, and a new row records the text, session and usage |
| ArenaModels.MarkConsumedIdempotent | models.py:1007-1010 | marking the same text a second time adds nothing and returns the first row |
| ArenaModels.ConsumedUpToStrip | models.py:992-1000 | after marking a text, any text with the same stripped form reads as consumed |
| ArenaModels.UnconsumedSpec | models.py:1024-1040 | the filtered pool holds exactly the sentences of the pool whose digest is not consumed, and is no longer than the pool |
| ArenaModels.GetUnconsumed | models.py:1024-1040 | the loop returns the order-preserving filter of the pool by "not consumed", and [] for an empty pool |
| ArenaModels.TruncateAgent | models.py:262 | the stored user agent is none exactly for an absent or empty one, otherwise its first 500 characters: a prefix of it, the whole when it is short enough |
| ArenaModels.CountMatch | models.py:291-297 | a counted match adds one win and one match to the chosen model and one match to the rejected one, changes no other model, and keeps wins within matches |
| ArenaModels.RecordVote | models.py:234-330 | the vote fails exactly when either model is missing for the type; otherwise one vote row is appended with the given user, text, models, model type, time and the user agent cut to 500 characters, the anonymised IP, the stripped-text digest and the origin; it counts exactly when the text is an unconsumed dataset sentence; a non-counting vote leaves counters and the consumed table unchanged; a counting one updates the two models' counters and consumes the sentence; two Elo-history rows are appended, for the chosen and the rejected model, both tied to the new vote and the model type, holding the unchanged ratings when the vote does not count; wins stay within matches |
| ArenaModels.CountsOnce | models.py:244-251 | once a vote on a dataset sentence has counted, no later vote on the same stripped sentence counts |
| Leaderboard.TruncToInt | models.py:370 | `int()` of a non-negative Elo is its floor and of a negative one its ceiling |
| Leaderboard.TruncMonotone | models.py:370 | truncation keeps the order of two Elo scores |
| Leaderboard.Eligible | models.py:344-348 | the query keeps exactly the models of the type with more than 250 counted matches |
| Leaderboard.PublicBoard | models.py:333-376 | one row per eligible model, ranked 1, 2, … in order, each with more than 250 votes |
| Leaderboard.PublicBoardOrdered | models.py:348 | the board lists higher (truncated) Elo first |
| Leaderboard.PublicBoardTiers | models.py:352-360 | ranks 1–2 are tier-s, 3–4 tier-a, 5–7 tier-b and the rest have no tier, each in both directions |
| Leaderboard.PublicBoardAt | models.py:348-351 | row i of the board is the i-th model of the descending Elo order, ranked i + 1 |
| Leaderboard.PublicBoardSound | models.py:348-371 | every row is a model of this type past the threshold, shown with its own truncated Elo |
| Leaderboard.PublicBoardComplete | models.py:348-351 | every model of this type past the threshold has a row |
| Leaderboard.VotesOf | models.py:395 | the user's votes of this type are exactly the table's votes with that user and type |
| Leaderboard.Tally | models.py:398-403 | the tally fails (the dictionary's KeyError) exactly when a vote names a model not of this type; otherwise every model of the type has its wins and matches among the user's votes |
| Leaderboard.TallyStep | models.py:400-403 | counting one more vote keeps the tally equal to the wins and matches of the votes counted so far |
| Leaderboard.Unranked | models.py:406-425 | every unranked row shows a model's tally with at least one match and its win rate |
| Leaderboard.UnrankedMembers | models.py:407-425 | the unranked rows are for models of this type, and every such model with a match has a row |
| Leaderboard.WinsWithinOwnMatches | models.py:401-403 | a model's wins among the user's votes never exceed its matches |
| Leaderboard.RankNumbers | models.py:431-432 | ranking leaves every row as it was apart from its rank, and the ranks shown are exactly 1 to the number of rows |
| Leaderboard.BoardRows | models.py:406-432 | each ranked row shows the tally of a model of this type, ranked by its place |
| Leaderboard.BoardOrdered | models.py:428 | the rows are in descending order of displayed win rate |
| Leaderboard.BoardComplete | models.py:413-425 | every model of this type with a tallied match has a ranked row |
| Leaderboard.UserBoard | models.py:379-434 | the personal board fails exactly when a vote names an unknown model; otherwise rows are ranked 1..n, each a model of the type with 0 < matches, wins ≤ matches, both counted from the user's votes, in descending win-rate order, and every model the user voted on has a row |
| Leaderboard.BoardOfTally | models.py:398-434 | the board built from a correct tally has every property the personal board promises |
| KeyDates.MonthStart | models.py:550 | the first of a month number is a valid date on day 1 of exactly that month, at the given time of day |
| KeyDates.SameMonth | models.py:556-562 | two valid dates share a month number exactly when year and month agree, and one's month number is smaller exactly when it is in an earlier month |
| KeyDates.LeByMonth | models.py:553 | the datetime order compares month number first, then day and time of day |
| KeyDates.NextMonth | models.py:556-559 | stepping a first-of-month gives the first of the following month at the same time of day, December rolling into January of the next year |
| KeyDates.Earliest | models.py:534-538 | the first vote is one of the votes and no later than any of them |
| KeyDates.Latest | models.py:539-543 | the last vote is one of the votes and no earlier than any of them |
| KeyDates.KeyDates | models.py:545-565 | no votes give []; otherwise one date per month from the first vote's month to the last vote's: the firsts of the earlier months at the first vote's time of day, then the first of the last month or, when the loop stopped early, the last vote itself |
| KeyDates.Start | models.py:549-551 | the loop starts on the first of the first vote's month, not after the last vote, with no dates |
| KeyDates.Step | models.py:553-559 | one turn of the loop appends the current first-of-month and moves to the next month, keeping the loop's state |
| KeyDates.Finished | models.py:561-563 | when the loop stops, the final check (read with Python's and/or precedence) leaves one date per month up to the last vote's |
| Security.CountSinceAppend | security.py:24-29 | the window count over two batches of votes is the sum of the counts over each |
| Security.DetectSuspicious | security.py:13-52 | no user gives (false, none, 0); otherwise the count is the user's votes in the window, and the user is suspicious exactly when it exceeds max_votes_per_hour × hours_back or, for windows of three hours or more, the user has over 100 votes in the last three hours; a reason is given exactly when suspicious |
| Security.SuspicionMonotone | security.py:24-50 | adding votes never clears a suspicion |
| Security.DetectModelBias | security.py:55-81 | no user gives all zeros; under min_votes the user is not biased and only the total is reported; otherwise the count is the user's votes choosing the model, the ratio is count/total in [0, 1], and biased holds exactly when ratio ≥ threshold |
| Security.Share | security.py:77 | the ratio lies in [0, 1], times the total gives the part, and is 0 for an empty total |
| Security.WinsWithinVotes | security.py:70-77 | a user chose a model in at most as many votes as they cast |
| Security.Latest | security.py:229-231 | the 50 most recent vote times (all of them when fewer), newest first: a sub-multiset of the user's times, with every time left out no later than every time kept |
| Security.IntervalsOfNewestFirst | security.py:237-242 | for votes listed newest first no interval is negative, and the intervals summed for the average add up to the time from the oldest vote to the newest |
| Security.TrailingFastMeans | security.py:255-262 | the open run is at least k long exactly when the last k intervals are all under five seconds |
| Security.CountRunsMeaning | security.py:253-262 | the counting loop's state is the number of closed runs of ten or more fast intervals, plus the length of the open run |
| Security.SustainedMeaning | security.py:253-265 | with the final check, every maximal run of ten or more intervals under five seconds counts exactly once, a trailing run included |
| Security.DetectRapid | security.py:218-281 | no user or fewer than 50 votes gives (false, []); otherwise there are exactly 49 non-negative intervals between consecutive latest votes, and rapid holds exactly when over 20% are under 1 s, or over 60% are under 3 s with a sustained run, or there are two sustained runs |
| Security.ModelsIn | security.py:356-368 | the models listed are exactly those chosen or rejected in some vote of the user |
| Security.MaxBias | security.py:349-376 | the maximum ratio over models with at least five appearances, attained by one of them, or 0 when there is none |
| Security.Clamp | security.py:398 | the clamped score is never negative, never below the raw score, unchanged when non-negative, and at most 100 when the raw score is |
| Security.Score | security.py:296-398 | the score of a known account lies in [0, 100] |
| Security.SecurityScore | security.py:284-401 | no user or an unknown user scores 0 with no flags; otherwise the score is 100 minus the age, flag, new-account and bias deductions, clamped to [0, 100] |
| Security.SecurityScoreFlags | security.py:326-338 | the flags reported are the frequency detector's verdict on the 24-hour window and the rapid detector's verdict |
| Security.SecurityScoreAsWritten | security.py:299-345 | the score as written raises exactly when the account has no join date |
| Security.SameDayAccountEscapes | security.py:344-345 | as written, an account created today with 21 votes loses no points for being new, while the intended rule deducts 15 |
| Security.MissingJoinDateRaises | security.py:309-311 | as written, a missing join date raises instead of scoring; the intended score deducts 20 points and stays at most 80 |
| Security.AsWrittenAgreesElsewhere | security.py:344-345 | wherever the join age is known and non-zero, the written and the intended scores agree |
| Security.ScoreMonotone | security.py:329-338 | raising the suspicious or the rapid flag never raises the score |
| Security.BiasPenaltyMonotone | security.py:382-392 | a higher bias ratio never earns a smaller deduction |
| Security.VoteAllowed | security.py:404-449 | the gate rejects in order: no user, an active timeout, a score under 20, a suspicious pattern, rapid voting; it allows exactly when none applies, and reports the score it read |
| Security.VoteAllowedAsWritten | security.py:404-449 | the gate as written: no user and an active timeout are answered as before, but past them a known user without a join date makes the request fail, because the score is computed outside the gate's try |
| Security.VoteAllowedAsWrittenAgrees | security.py:404-449 | off the two misread ages the written gate gives the modelled gate's answer |
| Security.AllowedMeans | security.py:404-449 | an allowed vote comes from a known user without an active timeout, with a known account, a score of at least 20 and neither flag raised |
| ArenaApp.RefusalStatus | app.py:586-855 | every refusal is answered with a 4xx or 5xx status, a 5xx exactly for too few models, a failed generation or a failed recording; the verification, login, text and used-sentence refusals are all 4xx |
| ArenaApp.Header | app.py:99-105 | a header counts as given exactly when it is present and non-empty, and then reads as its value |
| ArenaApp.ClientIp | app.py:96-107 | the client address is the first hop of X-Forwarded-For when that header is given, else X-Real-IP, else CF-Connecting-IP, else the socket's remote address |
| ArenaApp.FirstForwardedMeans | app.py:101 | the first hop is the part of the chain before its first comma (the whole chain when it has none), stripped |
| ArenaApp.ValidText | app.py:593-596 | the text is accepted exactly when its stripped form is non-empty and at most 1000 characters, and the stripped form is what is used; otherwise the request is refused as bad text |
| ArenaApp.ValidTextStable | app.py:593 | accepted text is already stripped, so accepting it again gives the same text |
| ArenaApp.LineProblem | app.py:961-978 | a script line is fine exactly when it is an object with a truthy text and a speaker that is an int 0 or 1 (a Python boolean included) |
| ArenaApp.FirstProblem | app.py:960-978 | the scan finds no problem exactly when every line is fine, and otherwise reports the problem of the first bad line |
| ArenaApp.ValidScript | app.py:956-978 | a script is accepted exactly when it is a list of at least two fine lines; a missing, non-list or too short script is refused for its format, and otherwise the first bad line's problem is reported |
| ArenaApp.BooleanSpeakerAccepted | app.py:972-973 | a line whose speaker is `True` passes the speaker check |
| ArenaApp.CacheInsert | app.py:500-513 | a finished pair is added exactly when its sentence is not cached and the cache has room; adding it marks the sentence consumed for cache use, and otherwise nothing changes |
| ArenaApp.CacheInsertBounded | app.py:504 | insertion never lets the cache exceed its capacity, adds at most one entry, and an added sentence is consumed |
| ArenaApp.Refills | app.py:639-648 | at most 8 refill tasks, some exactly when the cache is below capacity, never more than the free slots, and exactly the free slots when there are at most 8 |
| ArenaApp.NewSession | app.py:621-631 | a new session is unvoted, created now and expires thirty minutes later |
| ArenaApp.GenerateTts | app.py:583-732 | the guards refuse in order (verification, login, bad text, used sentence with the number of sentences left); any refusal changes no session, no cache entry and starts no refill; success returns the new session's id |
| ArenaApp.GenerateTtsOpens | app.py:610-718 | a session opens only for a valid, English, unused sentence; it is unvoted, expires in thirty minutes and differs from the old map only at its id; a cached sentence is taken out of the cache, reuses the cached pair and starts the refills, and otherwise two models were available and generated |
| ArenaApp.CachedSentenceRefused | app.py:500-614 | once the cache keeps a sentence, it is consumed, so a request for it is refused as used before the cache is consulted and opens no session |
| ArenaApp.HitRefillsWithinCapacity | app.py:639-648 | after a hit, the cache plus the refills it starts never exceeds the capacity, and at least one refill starts |
| ArenaApp.CheckVote | app.py:780-830 | the vote guards refuse in order (verification, login, the vote gate, unknown session, a key other than "a"/"b", expiry, an earlier vote), an expired session is removed and other refusals change nothing; an accepted ballot comes from a live unvoted session, with "a" choosing model A over B and "b" the reverse |
| ArenaApp.SubmitVote | app.py:780-891 | a refused vote keeps the store; a recording error answers with that error and leaves the session open; a recorded vote stores the new tables and marks the session voted |
| ArenaApp.ChoiceSwapsRoles | app.py:819-824 | whenever choosing "a" is accepted, choosing "b" is accepted too with chosen and rejected swapped |
| ArenaApp.OneVotePerSession | app.py:814-816 | after a recorded vote, every further vote on that session before it expires is refused as already voted |
| ArenaApp.SweepExpired | app.py:1245-1251 | the removed ids are exactly the sessions with now > expires_at, and the kept sessions are exactly the others, unchanged |
| ArenaApp.CleanupExpiredSessions | app.py:1241-1261 | both session maps keep exactly their unexpired sessions, and the counts are the numbers removed from each |
| ArenaApp.SweepKeepsLive | app.py:1245-1260 | a sweep is idempotent, and a session that has not expired survives it |
| ArenaApp.RemoveFirst | app.py:1572-1573 | popping the first occurrence removes exactly one copy of the element |
| ArenaApp.WeightedSelect | app.py:1556-1580 | the selection returns num_to_select models when enough exist (all of them otherwise, none for a non-positive count), each from the candidates, with no model picked more often than it occurs, so distinct candidates give distinct picks |
| Admin.CreateTimeout | admin.py:719-755 | a timeout is created exactly when the user id, stripped reason and duration are all given and non-zero, 1 ≤ duration ≤ 365, the user exists and has no active timeout; a missing field is refused first; the new row is active and runs `duration` days from now |
| Admin.TimeoutSuspends | admin.py:741-755 | while a created timeout runs, a second one is refused and the vote gate turns the user's votes away as suspended |
| Admin.NewTimeoutActive | admin.py:749-755 | the created timeout is active for the user until it expires |
| Admin.CampaignStatus | admin.py:852-854 | only "resolved" and "false_positive" are accepted, and anything else is an invalid status |
| Admin.FirstMatches | admin.py:883-885 | at most n names, each a matching name of the table, and every matching name when fewer than n were found |
| Admin.UserSearch | admin.py:877-891 | a stripped query under two characters finds nothing; otherwise at most ten names that contain the query ignoring case, and all of them when fewer than ten |
| Admin.StatsOf | admin.py:183-192 | one row per model of the user's votes that still exists, with its name, choices, appearances and ratio, and no other rows |
| Admin.AppearsIffMatched | admin.py:166-180 | a model has an appearance exactly when some vote chose or rejected it |
| Admin.UserBias | admin.py:163-195 | a user without votes has an empty bias table |
| Admin.UserBiasRows | admin.py:163-195 | at most five rows in descending ratio order, each a model that still exists, named, with its choices and appearances counted from the user's votes, at least one appearance, choices ≤ appearances and ratio choices/appearances |
| Admin.UserBiasTop | admin.py:190-195 | a model of the user's votes that still exists but has no row was beaten by five rows with ratios at least as high |
| Admin.BiasedCandidates | admin.py:632-653 | every collected entry is for an existing, non-zero voter, over at least five votes, with the verdict and figures `detect_model_bias` gives for that voter and model; and every pair that qualifies is collected |
| Admin.Dedupe | admin.py:656-662 | no two kept entries share a (user, model) key, every kept entry comes from the input, and every input key is kept |
| Admin.DedupeKeepsFirst | admin.py:658-662 | the entry kept for a key is the first one with that key |
| Admin.SecurityBiased | admin.py:656-679 | the list has at most twenty entries, sorted by bias ratio, highest first |
| Admin.SecurityBiasedTop | admin.py:656-679 | the list is the top twenty: a qualifying pair left out is outranked by twenty listed entries with a ratio at least its own, so with fewer than twenty listed every qualifying pair is listed |
| Admin.SecurityBiasedUnique | admin.py:656-679 | no (user, model) pair is listed twice, and every listed entry is a biased candidate |
| Admin.UniqueKeysPermutation | admin.py:664 | sorting a list without repeated keys leaves none repeated |
| Admin.DailyVotes | admin.py:49-59 | exactly 31 consecutive days ending today, each with its grouped count or 0 when it has none |
| Admin.EloDates | admin.py:319-329 | the loop over datetimes: starting at the earliest entry (30 days before the latest when they are out of order), one day per step of 24 hours while the step is no later than the latest; the last day listed is the latest's own day exactly when the start's time of day is not after the latest's |
| Admin.LateStartMissesLatestDay | admin.py:325-329 | from 15:00 on one day to 10:00 two days later, the loop lists only the first two days |
| Admin.ScoreByDate | admin.py:349-352 | every entry's date has a score, and every score is that of some entry for its date |
| Admin.ScoreByDateLast | admin.py:350-352 | a date's score is that of its last entry |
| Admin.ForwardFill | admin.py:355-361 | one score per day: a known day's own score, otherwise the previous day's, and current_elo before any known day |
| Admin.ForwardFillLatest | admin.py:355-361 | each filled score is that of the latest known day up to it, or current_elo when none is known yet |
| Admin.EloTimeline | admin.py:347-366 | one score per day: the date's score from the history dictionary when it has one, otherwise the previous day's, and current_elo on a first day without one (so on every day when there is no history) |
| Admin.EloTimelineWithoutHistory | admin.py:364-366 | without history every day shows current_elo, which is what the fill would give |
| Admin.SecondTimeoutRefused | admin.py:741-745 | a request that would succeed is refused as already timed out once the user has an active timeout |
| ArenaAuth.IsAdmin | auth.py:29-35 | false for a missing or unauthenticated user; otherwise true exactly when the username equals some stripped comma-separated entry of the administrator list |
| ArenaAuth.AdminNamesMeans | auth.py:34-35 | a name is among the stripped entries exactly when some comma-separated part strips to it |
| ArenaAuth.AdminListRoundTrip | auth.py:34-35 | writing comma-free, already stripped names as a comma-separated list makes exactly those names administrators (when authenticated) |
| ArenaAuth.EmptyListAdmitsOnlyBlankName | auth.py:34 | an unset list has the single entry "", so it admits only an authenticated user with an empty name |
| ArenaAuth.AdminRequired | auth.py:38-51 | an unauthenticated visitor is redirected to login, an authenticated non-administrator to the arena, and the view runs exactly for an administrator |
| ArenaAuth.HasKey | auth.py:68 | Python's `in` on a decoded body answers for objects, lists and strings, by key for an object, and raises for the rest |
| ArenaAuth.CheckAccountAge | auth.py:54-91 | a network failure, a non-OK status, a body without createdAt, or a body that cannot be read (not an object, a non-string createdAt, an unparsable date) gives (False, None, error) with the matching error; otherwise the creation date is the parsed one and the account is old enough exactly when now − created ≥ min_days |
| ArenaAuth.ExtraFieldsIgnored | auth.py:66-86 | a profile's other fields, whatever their JSON types, do not change the decision made from a string createdAt |
| ArenaAuth.AccountAgeMonotone | auth.py:80-84 | an account old enough now is still old enough later and against a smaller minimum |
| Tts.RenderSnoc | tts.py:184-187 | rendering one more turn appends that turn's piece |
| Tts.PlayDialogText | tts.py:180-190 | a string script passes through unchanged; a list script converts exactly when every turn has a text, into one "Host 1: text" or "Host 2: text" line per turn, in order, each ended by a newline, with a missing speaker read as 0; a turn without text fails with the missing key |
| Tts.BodiesAppend | tts.py:184-187 | the bodies follow the turns in order: a single turn gives its own body, and the bodies of two runs of turns are those of the first run followed by those of the second |
| Tts.RenderLines | tts.py:183-187 | newline-terminated lines concatenated are the lines' bodies joined by newlines plus a final empty remainder |
| Tts.SplitRenderedLines | tts.py:183-187 | when no body holds the newline, splitting the rendering on it gives back the bodies, then "" |
| Tts.HostBodyWithoutNewline | tts.py:186-187 | a "Host n:" line holds a newline only where its text does |
| Tts.PlayDialogOneLinePerTurn | tts.py:183-187 | when no text holds a newline, reading the PlayDialog script line by line gives exactly one "Host n: text" line per turn, in order, then the empty remainder |
| Tts.RenderOpensWithFirst | tts.py:210-215 | a rendering of at least one turn opens with the first turn's piece |
| Tts.DiaText | tts.py:206-219 | a string script passes through; a list script becomes one "[S1] text " or "[S2] text " segment per turn (missing speaker read as 0, missing text as ""), each text stripped with its speaker tags deleted, and the whole stripped |
| Tts.TagIsBracketed | tts.py:213 | a speaker tag is four characters and neither begins nor ends with white space |
| Tts.SegmentOpensWithTag | tts.py:215 | every Dia segment opens with its speaker's tag |
| Tts.DiaStartsWithFirstTag | tts.py:210-216 | a Dia script of at least one turn opens with the first speaker's tag |
| Tts.CleanTextWithoutTags | tts.py:214 | a text without speaker tags is only stripped |
| Tts.NestedTagSurvivesCleaning | tts.py:214 | deleting the tags in one pass can build a new one: "[S[S1]1]" cleans to "[S1]" |
| Tts.StripBracketed | tts.py:214 | a bracketed text is its own strip |
| Tts.DeleteInnerTag | tts.py:214 | deleting "[S1]" from "[S[S1]1]" leaves "[S1]" |
| Tts.TagWithoutOther | tts.py:214 | "[S1]" holds no "[S2]" to delete |
| Tts.PredictTts | tts.py:248-272 | csm-1b, playdialog-1.0 and dia-1.6b go to their own clients; a name in the mapping goes to the router with its provider and model; every other name fails with "Model … not found" |
| Strings.StripByEnds | app.py:593 | what stripping leaves starts and ends with a non-space character, and is empty exactly when the text was blank |
| Strings.StripIdempotent | app.py:593 | stripping a stripped text changes nothing |
| Strings.Split | models.py:220-226 | a split has at least one piece and no piece contains the separator |
| Strings.SplitHead | app.py:101 | the first piece is a prefix of the text, and there is a second piece exactly when the separator occurs |
| Strings.JoinSplit | models.py:220-222 | joining the pieces with the separator gives the text back |
| Strings.SplitJoin | auth.py:34-35 | splitting a join of separator-free pieces on that one character gives the pieces back |
| Strings.SplitCount | models.py:220-227 | a split on one character has one piece more than the character's occurrences |
| Strings.ReplaceFirst | LanguageContext.tsx:52 | a text without the pattern is unchanged; otherwise exactly the first occurrence is replaced |
| Sorting.SortDesc | admin.py:664 | the result is ordered by descending key and is a permutation of the input |
| Sorting.SortDescStable | admin.py:664 | elements with equal keys keep their original relative order, as Python's sort is stable |
| Sorting.TopElements | admin.py:664-679 | the first n after sorting are ordered, drawn from the input, as many as it allows, and are the sorted list's own head |

## Left out

- Floating point: the Elo update (models.py:196-204), the selection weights 1/(votes+500) (app.py:1551-1554), the coordinated-voting confidence (security.py:146-165), the average vote interval of `detect_rapid_voting`, and the win-rate rounding. Weights are not modelled; `ArenaApp.WeightedSelect` takes the random picks as indices. The displayed win rate is a parameter function of the ratio.
- `detect_coordinated_voting` (security.py:84-215): its score is a float confidence; it is outside the vote gate.
- Concurrency and scheduling: the thread pool, locks, background refill threads, the scheduler and the Hub upload and sync. A refill is modelled only by how many are started.
- Network and foreign calls: Gemini and Imagen requests, chat sessions, the TTS router, fal, PyHT and Dia HTTP bodies, Turnstile and Hugging Face OAuth. `Tts.PredictTts` returns which client would be called, not the request.
- SQL specifics: queries are filters over sequences. Ties in `order_by` are broken by a stable sort of the given order, which SQL does not promise. The `ilike` search treats `%` and `_` in the query as literal characters, and case folding is ASCII only.
- HTTP header names are matched exactly; Flask matches them ignoring case.
- Calendar bounds: dates are not limited to year 9999, so the month step never overflows as Python's `datetime` would.
- Saving preference data after a vote, and the `avg_interval` value of the rapid-voting detector.
- Conversational scripts: a line whose text is not a string is outside the model.
- The local user store reads its JSON once; a parse failure of the stored value is not modelled.
- Translations: a load that finishes after the locale has changed again is applied like any other.
- The canvas scaling in `getMousePos`; positions are already canvas coordinates.
- `Tts.PredictTts`: the mapping is the fixed table of tts.py:25-138. No property of the table itself, such as distinct targets, is stated.
- The vote row's session duration, generation date and cache-hit flag (models.py:260-264) are not modelled: nothing in the modelled code reads them back.
- `submit_podcast_vote` applies the same guards as `ArenaApp.CheckVote` and is not modelled separately.
- Photo-editor handlers outside the edit history: face swap, background removal, clothing extraction, and model, perspective and prompt generation. They follow the `StartEdit`/`FinishEdit` pattern with other model calls. Of the client's calls only `editImageWithPrompt`, `analyzeImageAndGeneratePrompt`, `generateDifferentPerspectiveImage` and `recognizeClothing` are modelled.
- UI rendering, styling, the remaining components, `constants.ts` (catalogue data), `imageUtils.ts` (file reading), `tts.old.py` and the migration scripts.
- JavaScript's `replace` with a string pattern also expands `$` sequences in the replacement. `Strings.ReplaceFirst` inserts the replacement literally.
- Admin.UserBias: its own contract states only the empty case. The properties of its rows are stated by `Admin.UserBiasRows` and `Admin.UserBiasTop`.
- Security.VoteAllowed: it reads the corrected score, so it answers a user without a join date and scores a same-day account as new. As written, the score is computed outside the gate's `try` (security.py:434), and a user without a join date makes the request fail; that gate is `Security.VoteAllowedAsWritten`.
- Admin.DailyVotes: assumes the grouped query's keys are dates. `func.date` has no declared result type, so on SQLite the keys may be `YYYY-MM-DD` strings, which never equal the `date` objects looked up at admin.py:59, and every day would read 0. The behaviour depends on the database driver.
- ArenaAuth.CheckAccountAge: a body that is not JSON is a parse error. Newer versions of `requests` raise a `JSONDecodeError` that is also a `RequestException`, which would give the network-error message instead.
- ArenaApp.GenerateTtsOpens: its cache-hit clause describes the source's branch, but that branch is unreachable through `ArenaApp.CacheInsert`, which marks every cached sentence consumed (see `ArenaApp.CachedSentenceRefused`). The intended order of the two checks is unclear, so no corrected version is given.
- Security.SecurityScore: this is the corrected score. A missing join date deducts 20 as the first branch intends, and a same-day account is treated as new (see Findings).

## Findings

| source | as written | input that shows it | evidently intended | confidence | as-written member | corrected member |
|---|---|---|---|---|---|---|
| security.py:344 | `if account_age_days and account_age_days < 7 and total_votes > 20` treats an age of 0 days as false | an account created today with 21 votes | every account younger than 7 days with over 20 votes loses 15 points | not executed | Security.SameDayAccountEscapes | Security.SecurityScore |
| security.py:300-345 | `account_age_days` is assigned only when `join_date` is set, but line 344 reads it unconditionally | a user with no join date | the score deducts 20 for the missing date and goes on, as the else branch at lines 309-311 intends | not executed | Security.MissingJoinDateRaises | Security.SecurityScore |
