# WeQuizWorkers: dwell-time trigger and quiz parser

WeQuizWorkers is a Cloudflare Worker behind a location-based quiz app. This
project models the two pieces of its logic in `src/index.js`:

- **The dwell-time trigger** behind `POST /track-user-location`. The worker keeps
  one anchor per user in the in-memory store `userLocations`: a location and
  the time it was recorded. Each report from a user gets one of three outcomes:
  - `Initialized`: the user has no entry yet. The report is stored as the anchor.
  - `Triggered(location)`: the report is strictly closer than 50 metres to the
    anchor and at least ten minutes after it. The store is left as it was, so
    the anchor does not advance.
  - `Updated`: any other report. It becomes the new anchor.

  `location_tracker.dfy` models the store as the class `Tracker`, whose
  `userLocations` field is a `map`. `Update` is the handler's decision branch.
  The pure functions `Decide` and `Next` specify `Update`. `Replay` and
  `Outcomes` run those functions over a sequence of reports, for the lemmas
  about report histories.

- **`parseQuiz`**. It runs a global regular expression repeatedly with `exec`.
  Each call searches from `lastIndex` and moves `lastIndex` to the end of the
  match. Every match pushes one record: the question, options a to d and the
  answer, each capture trimmed.

  `quiz_parser.dfy` defines what a match is with the predicate `PiecesAt`. It
  accepts every way a stretch of text can be split along the six pieces of the
  pattern: a numbered question line, four labelled option lines and an answer
  line. `MatchPieces` is a backtracking matcher that tries choices in the
  engine's greedy order. It is proved sound and complete against `PiecesAt`.
  `Leftmost` is the search from a start position. The class `QuestionRegex`
  holds `lastIndex`, and its `Exec` method is one call of `exec`. `ParseQuiz`
  is the source's `while` loop, proved equal to the function `Quiz`.
  `js_text.dfy` holds the ECMAScript `\s` whitespace class and
  `String.prototype.trim`. `wrappers.dfy` holds `Option`.

A question block reads naturally as six lines, but the expression is not
line-based. Every `\s*` in it also matches line feeds. So blank lines may sit
between the labelled lines, and the question text itself may start on a line
after its number. In that case the trimmed question contains a line feed. The
model follows the code here: only options a to d and the answer are proved free
of line feeds.

`quiz_blocks.dfy` goes the other way, from records to text. A question written
in the layout the quiz prompt asks for (src/index.js:72-79, without the
prompt's indentation) is `n. q`, then `a) `, `b) `, `c) `, `d) ` and `Answer: `
lines, each followed by its field. Whenever the number is a digit run and each
field is non-empty, on one line and trimmed, `parseQuiz` reads back exactly the
one record the block was written from. The proof holds for every split the
pattern admits, so it does not depend on which one the engine's backtracking
picks.

## Model

| member | source | states |
|---|---|---|
| LocationTracker.DwellReached | src/index.js:38-39 | the integer test `now - since >= 600000` holds exactly when the elapsed milliseconds, divided by 1000 and by 60, reach 10 minutes (inclusive) |
| LocationTracker.IsNearby | src/index.js:37 | the strict distance test: a report counts as nearby exactly when it is less than 50 metres from the anchor |
| LocationTracker.Decide | src/index.js:29-46 | Initialized exactly when the user has no entry; Triggered exactly when there is an entry, it is under 50 metres away and ten minutes old; Triggered carries the reported location |
| LocationTracker.Next | src/index.js:29-45 | the key set gains exactly the reporting user; every other user's entry is unchanged; a trigger leaves the whole store unchanged; otherwise the user's entry becomes the reported location and time |
| LocationTracker.Tracker.constructor | src/index.js:3 | the store starts empty |
| LocationTracker.Tracker.Update | src/index.js:29-46 | the outcome and new store agree with Decide and Next; first sighting gives Initialized and stores the report; 50 metres or more gives Updated and overwrites whatever the elapsed time; under 50 metres and at least ten minutes gives Triggered with the store unchanged; under 50 metres and under ten minutes gives Updated and overwrites; other users' entries are unchanged; keys never disappear and the reporting user is present |
| LocationTracker.ReplayKeys | src/index.js:29-45 | after any sequence of reports, the keys are the starting keys plus exactly the reporting users |
| LocationTracker.ReplayKeepsSilentUsers | src/index.js:30-45 | a user who sends no report keeps their entry across any sequence of reports by others |
| LocationTracker.ReplayAnchorsComeFromReports | src/index.js:30-45 | every stored anchor is the user's starting entry or the location and time of one of that user's own reports |
| LocationTracker.OutcomeAt | src/index.js:29-46 | in any sequence of reports, each report gets the outcome Decide gives it against the store the earlier reports left behind |
| LocationTracker.TriggerKeepsAnchor | src/index.js:37-41 | while every report stays within 50 metres of the anchor and at least ten minutes after it, every report triggers and the store never changes, so the anchor does not advance |
| LocationTracker.FrequentReportsNeverTrigger | src/index.js:37-46 | a user whose reports are less than ten minutes apart (the first less than ten minutes after the anchor) gets Updated for every report, wherever they are |
| JsText.IsSpace | src/index.js:107 | defines `\s`: the ECMAScript WhiteSpace and LineTerminator characters (tab, line feed, vertical tab, form feed, carriage return, space, no-break space, ogham space mark, the spaces U+2000 to U+200A, line and paragraph separators, narrow no-break space, medium mathematical space, ideographic space and the byte order mark); `trim()` removes the same set |
| JsText.Trim | src/index.js:112-119 | defines `trim()` as `trimStart` followed by `trimEnd`; TrimSplits and TrimPadded state what it returns |
| JsText.TrimSplits | src/index.js:112-119 | `trim` removes whitespace from both ends: the result is a slice of the input with only whitespace around it, starts and ends with non-whitespace, and is empty exactly when the input is all whitespace |
| JsText.TrimKeepsNoNewline | src/index.js:114-119 | trimming a text without line feeds gives a text without line feeds |
| JsText.TrimPadded | src/index.js:112-119 | trimming whitespace followed by a non-empty trimmed string gives back exactly that string |
| QuizParser.PiecesAt | src/index.js:107 | a split of the text from a position along the six pieces of the pattern: each piece is a `\d+\.` prefix or a `\s*` run followed by its label, then a `\s*` run, then a non-empty, line-feed-free stretch that ends at its line end; a line feed follows every piece but the last |
| QuizParser.PrefixEndExact | src/index.js:107 | the greedy end of `\d+\.`, or of `\s*` followed by a label, is the only place that prefix can end |
| QuizParser.MatchPieces | src/index.js:107 | a split the backtracking matcher returns is a split along the pattern (soundness) |
| QuizParser.MatchPiecesComplete | src/index.js:107 | whenever the text splits along the pattern from a position, the matcher finds a split there (completeness) |
| QuizParser.MatchShape | src/index.js:107 | a match lies inside the text and starts with a digit; its six `[^\n]+` stretches come in order, each non-empty and free of line feeds; the literal "Answer:" ends where the last `\s*` begins, after the match start |
| QuizParser.Leftmost | src/index.js:110 | a match found from a position starts at or after it and is a genuine match of the pattern |
| QuizParser.LeftmostIsFirst | src/index.js:110 | no match starts between the search position and the match Leftmost returns; when it returns none, no match starts anywhere at or after that position |
| QuizParser.QuestionRegex.constructor | src/index.js:107 | a fresh expression has `lastIndex` 0 |
| QuizParser.QuestionRegex.Exec | src/index.js:110 | the result is the leftmost match from `lastIndex`; on a match `lastIndex` moves to its end, otherwise it resets to 0 |
| QuizParser.ScanFrom | src/index.js:110-121 | the matches successive `exec` calls return, starting with `lastIndex` at the given position; each lies inside the text, so its groups can be read |
| QuizParser.ScanFromGenuine | src/index.js:110-121 | every match the repeated search returns is a genuine match of the pattern |
| QuizParser.ScanFromAfter | src/index.js:110-121 | every match the repeated search returns starts at or after where the search began |
| QuizParser.ScanFromOrdered | src/index.js:110-121 | the matches come in text order, and each ends before the next begins (no overlap) |
| QuizParser.ScanFromComplete | src/index.js:110-121 | the repeated search misses no match: every position at or after the start where the pattern matches lies inside some match the search returns |
| QuizParser.ScanFromCount | src/index.js:107-121 | the repeated search returns no more matches than there are occurrences of "Answer:" from where it began |
| QuizParser.RecordOf | src/index.js:111-120 | the record pushed for a match: group 1, which runs from the match start through the question line, and groups 2 to 6, each trimmed; RecordOfWellFormed states its shape |
| QuizParser.RecordOfWellFormed | src/index.js:111-120 | the record built from any match is complete: every field is trimmed, the question is non-empty and starts with the match's first character, the first digit of its number, and a to d and the answer contain no line feed |
| QuizParser.Quiz | src/index.js:105-124 | what parseQuiz returns: one record per match of the repeated search from position 0, in order; QuizWellFormed, QuizEmptyIffNoMatch, QuizCount and QuizRoundTrip state its properties |
| QuizParser.QuizWellFormed | src/index.js:106-123 | every record parseQuiz returns is well formed in that sense |
| QuizParser.QuizEmptyIffNoMatch | src/index.js:106-123 | parseQuiz returns no records exactly when no stretch of the text splits along the pattern |
| QuizParser.EmptyTextNoQuiz | src/index.js:105-124 | the empty text gives no records |
| QuizParser.QuizCount | src/index.js:107-121 | there are no more records than occurrences of "Answer:" in the text |
| QuizParser.ParseQuiz | src/index.js:105-124 | the loop returns exactly one record per match, in the order of the repeated search; every record is well formed; the count is at most the number of "Answer:" occurrences |
| QuizBlocks.BlockHasSplit | src/index.js:107 | a block in the canonical layout, whose heads fit the pattern's prefixes and whose fields are single-line, trimmed and non-empty, splits along the pattern |
| QuizBlocks.BlockSplits | src/index.js:107 | every split of such a block yields exactly the block's fields once trimmed, piece by piece, and the last piece ends where the block does |
| QuizBlocks.QuizRoundTrip | src/index.js:105-124 | a question written as `n. q` followed by the `a) `, `b) `, `c) `, `d) ` and `Answer: ` lines, with a digit run for `n` and single-line, trimmed, non-empty fields, parses to exactly one record holding `n. q`, the four options and the answer |

## Left out

- HTTP routing, `parseJson`, `createResponse`, the error envelopes and the `fetch` listener (src/index.js:5-26, 47-50, 101, 126-136) are request and response plumbing around the modelled logic.
- The quiz generation request to the Perplexity API (src/index.js:53-99) is a network client. The call to `parseQuiz` inside it is covered by `ParseQuiz`.
- geolib's `getDistance` (src/index.js:1, 35) is a floating-point haversine computation in a library outside this repository. It is the parameter `dist`, an arbitrary function returning whole metres.
- The clock `new Date()` (src/index.js:27) is the integer millisecond parameter `now`.
- LocationTracker.DwellReached: the source computes elapsed minutes in floating point. The model uses the integer test on milliseconds and proves it equal to the exact real-valued test. Floating-point rounding is not modelled.
- Concurrent requests racing on `userLocations` are not modelled. Reports are handled one at a time by a single caller.
- Store keys are modelled as strings, and only missing keys count as unseen. JavaScript's coercion of non-string user ids to keys is not modelled. Nor are ids that name inherited members of `Object.prototype`, which the truthiness test at src/index.js:29 treats as already present.
- Strings are sequences of Unicode scalar values, not UTF-16 code units. Text containing characters outside the Basic Multilingual Plane may be indexed differently by the JavaScript engine.
- QuizParser.MatchPieces: it tries choices in the engine's backtracking order, but its contract states only soundness and completeness. The model does not prove that the split it picks is the one the engine picks. The properties of records therefore hold for any split the pattern admits.
- `exec` details not exercised by `parseQuiz` are not modelled: sticky or unicode flags, and the special handling of empty matches (this pattern cannot match the empty string).
