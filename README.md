# DuckRate2.0 in Dafny

DuckRate2.0 is a browser extension that adds a "RMP Rating" column to the
course table of the University of Oregon's DuckWeb class search. It has two
parts.

- The content script (`content.js`) runs on the page. It inserts a rating
  header after the instructor header. It finds every body row whose
  instructor link holds a plausible name, normalises that name, and inserts
  one rating cell after the instructor cell. The cell shows a cached badge,
  or a loading indicator while a lookup message is answered. Replies are
  cached per name.
- The background worker (`background.js`) answers each lookup. It memoises
  the school id of the University of Oregon after the first successful
  search for it, searches
  the RateMyProfessor GraphQL API for the teacher, and replies with the
  first match, "not found", or an error.

The model has seven modules:

- `Wrappers`: `Option` and `Result`.
- `Messages`: the request and the three reply shapes.
- `Names`: the pure string logic. This is `extractProfessorName` (group
  removal, whitespace collapsing, `trim`) and the instructor filter of
  `findProfessorCells`.
- `Badges`: the decisions `createRatingBadge` takes.
- `Page`: the content script.
  - The class `Page` holds the table, `columnHeaderAdded` and `ratingCache`.
  - Its methods change them as the script does.
  - Each method is proved against pure functions (`Scan`, `HeaderStep`,
    `ProcessRow`, `RowOutcome`, `PassRows`), and the properties are lemmas
    about those functions.
- `Background`: the worker.
  - The class `Worker` holds `cachedSchoolId`.
  - Every network round trip is an input (`HttpReply`) describing how it
    ended.
- `Extension`: the two halves joined. A pending lookup's message is handed
  to the worker's listener.

The table is abstract. A body row is a sequence of cells, and only three
kinds are told apart: instructor cells (with the text of their `a.email`
link), inserted rating cells (with what they show) and all other cells. A
header row is likewise a sequence of instructor, rating and other header
cells. The script's cell handles are (row, cell) positions.

## Model

| member | source | states |
|---|---|---|
| Names.TrimStartSuffix | content.js:30 | `TrimStart` keeps a suffix of the text that does not start with whitespace |
| Names.TrimStartCutsSpaces | content.js:30 | every character removed at the front is ECMAScript whitespace or a line terminator |
| Names.TrimEndPrefix | content.js:30 | removing the trailing run leaves a prefix of the text that does not end with whitespace |
| Names.TrimEndCutsSpaces | content.js:30 | every character removed at the back is whitespace or a line terminator |
| Names.Trim | content.js:30 | the trimmed text is no longer than the input, and neither of its ends is whitespace |
| Names.TrimStartKeepsWords | content.js:30 | removing the leading run keeps every non-whitespace character, in order |
| Names.TrimEndKeepsWords | content.js:30 | removing the trailing run keeps every non-whitespace character, in order |
| Names.TrimIsSlice | content.js:30 | `trim` returns a contiguous slice of its input, and neither end of that slice is whitespace |
| Names.TrimFixed | content.js:58 | a text with non-whitespace ends is its own `trim` |
| Names.StripGroups | content.js:55 | removing groups never makes the text longer |
| Names.StripGroupsNoGroup | content.js:55 | after `/\([^)]*\)/g` is replaced, no `(` is followed anywhere later by a `)` |
| Names.StripGroupsRemovesGroup | content.js:55 | the leftmost group is removed with its contents, and the text before it is kept |
| Names.StripGroupsFixed | content.js:55 | a text with no group in it is unchanged |
| Names.StripGroupsNoClose | content.js:55 | a text without `)` is unchanged |
| Names.StripGroupsKeepsAbsent | content.js:55 | group removal introduces no character that was absent |
| Names.CollapseSpaces | content.js:58 | replacing whitespace runs never makes the text longer |
| Names.NonSpaces | content.js:58 | the reference for "the words of a text": its non-whitespace characters in order, never more than the text has |
| Names.CollapseKeepsWords | content.js:58 | collapsing keeps every non-whitespace character, in order, and adds none |
| Names.CollapseBeforeRun | content.js:58 | a text that ends in a word collapses on its own before a following whitespace run, and that run becomes one space |
| Names.CollapseRun | content.js:58 | between two words, a whitespace run of any length and of any kind becomes exactly one space, and the text on each side collapses on its own |
| Names.CollapseSingleSpaced | content.js:58 | after `\s+` is replaced by one space, whitespace occurs only as single plain spaces; the first character is whitespace exactly when the input's was |
| Names.CollapseFixed | content.js:58 | a text that is already single-spaced is unchanged |
| Names.CollapseNoGroup | content.js:58 | collapsing whitespace creates no `(`…`)` group |
| Names.CollapseKeepsAbsent | content.js:58 | collapsing introduces no non-whitespace character that was absent |
| Names.ExtractProfessorName | content.js:53-61 | the name is no longer than the cell text, and neither of its ends is whitespace |
| Names.ExtractKeepsWords | content.js:53-61 | the name keeps exactly the non-whitespace characters left after group removal, in order |
| Names.ExtractJoinsWords | content.js:53-61 | two words separated by any whitespace run ("Jane  Smith", "Jane\tSmith") come out as the two words joined by one space |
| Names.ExtractedIsClean | content.js:53-61 | an extracted name has no group, no leading or trailing whitespace, and no whitespace except single spaces |
| Names.CleanIsFixed | content.js:53-61 | every step of the extraction leaves a clean name unchanged |
| Names.ExtractIdempotent | content.js:53-61 | extracting twice gives the same name as extracting once |
| Names.ExtractDropsMarker | content.js:54-58 | `Name (P)` is extracted as `Name` for every tidy name without `(` and every marker without `)` |
| Names.MarkerStripped | content.js:55 | removing the marker group leaves the name followed by its separating space |
| Names.TrailingSpaceTrimmed | content.js:55 | `trim` removes that trailing space |
| Names.LettersAreClean | content.js:53-61 | a single-spaced text of ASCII letters with letter ends is a clean name |
| Names.ContainsStaffAt | content.js:36 | "staff" in any letter case, at any position, is detected |
| Names.StaffFound | content.js:36 | a detected "staff" is at some position of the text |
| Names.InstructorNameIff | content.js:34-37 | a text is accepted if and only if it is longer than two characters, is not "TBA", and does not contain "staff" in any case |
| Names.StaffRejected | content.js:34-37 | a text that contains "staff" in any case is rejected |
| Names.NoFNoStaff | content.js:36 | a text without `f` or `F` contains no "staff" |
| Names.WithoutFPasses | content.js:34-37 | a text of three or more characters without `f` or `F` is accepted unless it is "TBA" |
| Names.InstructorNameBounds | content.js:34-37 | accepted texts have at least three characters; only the upper-case "TBA" is excluded, so "tba" passes |
| Badges.MoodOf | content.js:118-127 | the score bucket: angry below 3, neutral from 3 to below 4, happy from 4 |
| Badges.MoodMonotone | content.js:119-127 | a higher score is never put in a worse bucket |
| Badges.RatingNoun | content.js:134 | the noun is "rating" exactly when there is one rating, otherwise "ratings" |
| Badges.IfNonZero | content.js:131-136 | a number is shown exactly when it is non-zero (JavaScript truthiness) |
| Badges.CreateRatingBadge | content.js:111-151 | a successful reply, and only that, gives a rated badge with the bucket, score, count, tooltip and profile id of its data and the noun `RatingNoun` of its count, whose score, would-take-again share and difficulty are shown exactly when non-zero; every other reply gives the "not found" badge |
| Badges.FailuresRenderAlike | content.js:145-148 | the `error` and `message` failure replies render the same badge |
| Page.MessageOf | content.js:192-193 | the lookup message carries the `getProfessorRating` action and the normalised name |
| Page.FirstInstructor | content.js:23 | the first instructor cell of a row, or none when the row has no instructor cell |
| Page.Candidate | content.js:23-37 | a row yields a record only from its first instructor cell, and only if that cell has a link; the record's text is the trimmed link text |
| Page.CandidateFilter | content.js:23-37 | a row yields a record exactly when its first instructor cell has a link whose trimmed text passes the instructor filter |
| Page.ScanCorrect | content.js:11-50 | the records list every qualifying row exactly once, in table order, and nothing else |
| Page.ScanSound | content.js:21-47 | each record comes from its own row's first instructor cell |
| Page.ScanOrdered | content.js:21-47 | records are in strictly increasing row order |
| Page.ScanComplete | content.js:21-47 | every qualifying row has its record in the list |
| Page.Scan | content.js:11-50 | at most one record per body row |
| Page.Page.FindProfessorCells | content.js:11-50 | no records without `#table1`; otherwise exactly `Scan` of the body rows |
| Page.InstructorHeaderAt | content.js:74 | the position of the first instructor header |
| Page.WithRatingHeader | content.js:104-105 | the rating header goes right after the first instructor header, and all other headers keep their order; there is no insertion without an instructor header |
| Page.HeaderStep | content.js:64-108 | once the flag is set nothing changes; a missing table, header row or instructor header changes nothing; the flag is set exactly when the header is inserted |
| Page.HeaderStepIdempotent | content.js:65-107 | running the header step again changes nothing, so the rating header is never inserted twice |
| Page.InitEffect | content.js:213-227 | the flag after `init` is the header step's; a table stays present or absent, keeps its number of rows and gets the header of the header step |
| Page.InitIdempotent | content.js:213-227 | running `init` again, with any cache, changes neither the flag nor the table: no second rating header and no second rating cell in any row |
| Page.Page.constructor | content.js:5-8 | the script starts with an empty cache and the flag unset |
| Page.Page.AddRatingColumnHeader | content.js:64-108 | the flag and table change as `HeaderStep` says; the cache is untouched |
| Page.CachedBadge | content.js:178-183 | corrected cache test: a badge exactly for a name that is an own key of the cache, rendered from the cached reply |
| Page.ProcessRow | content.js:154-189 | a row is unchanged if the normalised name is shorter than 3 characters or the row already has a rating cell; otherwise exactly one rating cell is inserted right after the instructor cell, and every other cell keeps its place |
| Page.RowOutcome | content.js:154-193 | a lookup is sent only for an inserted cell whose name is not cached, addressed to that cell and carrying that name; a cached name is rendered at once |
| Page.PassRow | content.js:154-189 | a row without a record is left unchanged, and a row gains at most one cell |
| Page.PassRows | content.js:222-226 | the reference for one pass: each row is annotated from its own record only, and the number of rows is kept |
| Page.FirstInstructorAfterInsert | content.js:176 | inserting a rating cell after the instructor cell leaves that cell, and the first instructor cell, where they were |
| Page.CandidateKept | content.js:176 | annotating a row leaves its record unchanged |
| Page.SettledRowUnchanged | content.js:161-165 | a row that already has a rating cell is left alone, whatever the cache holds |
| Page.PassRowsIdempotent | content.js:161-165 | a second pass, with any cache, changes nothing after a first one: no row gets two rating cells |
| Page.OutcomeSent | content.js:178-193 | an outcome stands for a lookup exactly when it is a sent one, and then for that lookup only |
| Page.SentOf | content.js:222-226 | the reference list of lookups of a run of records, each taken on its row as found: at most one per record |
| Page.SentOfHas | content.js:222-226 | every record whose row sends has its lookup in the list |
| Page.SentOfNone | content.js:222-226 | records of which none sends give the empty list |
| Page.PassSendsUncached | content.js:154-193 | a pass sends a lookup for every row it annotates whose name the cache lacks, addressed to the new rating cell and carrying that name |
| Page.PassedRowSkipped | content.js:161-165 | after a pass, the record of a row is skipped by any later pass, whatever the cache |
| Page.SecondPassSendsNothing | content.js:213-227 | a second pass over the rows of a first one, with any cache, sends no lookup |
| Page.CachedBadgeAsWritten | content.js:179-183 | the cache test as written: a cached name renders the badge of its cached reply; an uncached name inherited from `Object.prototype` renders "not found"; it misses only for a name that is neither |
| Page.InheritedNameCounterexample | content.js:179-183 | "constructor" passes the filter and normalisation; with an empty cache the test as written renders "not found" and sends nothing, while the own-key test misses |
| Page.Page.ProcessProfessorCell | content.js:154-210 | only the record's row changes, as `ProcessRow` says; the cache and flag are untouched; the outcome is `RowOutcome`; a sent lookup's cell shows the loading indicator |
| Page.Page.OnReply | content.js:194-208 | on a transport error the indicator is removed and the cache is unchanged; on a reply, whether success or failure, it is cached under the name and its badge replaces the indicator; nothing else changes |
| Page.Page.Init | content.js:213-227 | the flag and table become `InitEffect`: the header step, then one pass over the body rows with the current cache; the lookups sent are exactly `SentOf` the records found, in table order; each awaits its reply in a loading cell, for a name not in the cache |
| Page.Page.ProcessCells | content.js:222-226 | the records are processed in order, as `ProcessRecords` says; the lookups sent are exactly `SentOf` the records on the rows as found; each is for an uncached name whose cell shows the indicator |
| Page.ProcessRecords | content.js:222-226 | applying the records in order keeps the number of rows |
| Page.ProcessRecordsIsPass | content.js:217-226 | processing the found records in table order gives exactly the reference pass `PassRows` |
| Background.MakeGraphQLRequest | background.js:54-86 | a result exactly for an ok status with a parsable body without `errors`; a bad status is reported with that status before the body is parsed; a body with `errors` fails the query; fetch and parse failures are thrown |
| Background.FirstSchoolId | background.js:102-104 | the id read from a search is the first edge's `legacyId`; there is none when the request fails, when no edges come back, or when the first node is null |
| Background.SchoolIdStep | background.js:89-115 | a truthy memo is returned without a request; otherwise a request is made; the memo changes only to the searched id, which is then returned; a failed search returns null and keeps the memo; a successful one returns its id and memoises it |
| Background.MemoSettles | background.js:91-93 | once the memo is truthy, later calls run one after another make no request and never change it |
| Background.FailuresKeepMemo | background.js:109-114 | a run of failed searches, one call after another, keeps a falsy memo and makes one request per call |
| Background.FirstSuccessIsFinal | background.js:102-107 | in calls run one after another, the first search that yields a truthy id fixes the memo for good, after exactly one request |
| Background.MemoAfter | background.js:89-115 | after a run of calls the memo is the one it started with, or an id one of the searches returned |
| Background.RequestsMade | background.js:89-115 | a run of calls makes at most one request per call |
| Background.Worker.constructor | background.js:6 | the worker starts with no memoised id |
| Background.Worker.GetSchoolId | background.js:89-115 | the returned id, the new memo and the request flag are those of `SchoolIdStep` |
| Background.SearchProfessor | background.js:118-134 | exactly the edges a successful search returned; the empty list when the request fails or there are no edges |
| Background.DataOf | background.js:161-171 | the reply data: the name is the first and last name joined by one space, and each other field is copied from the teacher node |
| Background.Respond | background.js:144-186 | no truthy school id gives the school error; success exactly for a truthy id with a non-null first node, whose data is sent; "not found" exactly for a truthy id with no edges; a null first node sends the `TypeError` message |
| Background.RenderedReply | background.js:157-179 | the page shows a rated badge exactly when the school was found and the first edge names a teacher, in that teacher's rating bucket; otherwise it shows "not found" |
| Background.Worker.OnMessage | background.js:137-191 | other actions: no reply, the channel is not kept open, and nothing changes. A rating lookup keeps the channel open, updates the memo as `getUOSchoolId` does, searches only with a truthy id and for the requested name, and sends exactly one reply, `Respond` |
| Extension.Deliver | content.js:192-193 | the message of a pending lookup, handled by the worker, updates the memo as `getUOSchoolId` does, searches for the pending name only with a truthy school id, and comes back as exactly one reply, `Respond` |

## Left out

- Markup and styling are not modelled: element creation, attributes, class names, the sort handle and title of the header (content.js:76-103), and the inner HTML of badges. A badge is the decisions behind it (`Badges.Badge`).
- Number formatting with `toFixed` is left out: a badge keeps the numbers it would print.
- The start-up hooks and the `MutationObserver` that re-runs `init` are left out (content.js:229-259). A re-run is `Page.Page.Init` called again, and `InitIdempotent` states that it then changes nothing.
- Page.Page.Init: replies arriving during the 200 ms pauses between rows are not interleaved with the pass. The model covers the schedule where every reply arrives after the pass, so the cache is fixed while the pass runs and a name repeated in a later row is looked up again. Interleaved replies are `OnReply` calls that only fill their own cell and the cache.
- The message transport (`chrome.runtime.sendMessage` and `sendResponse`) is not modelled. A sent lookup is a `Pending` value, and its callback is `Page.Page.OnReply`, called with what arrived. A callback that receives no reply object at all is not modelled.
- `fetch`, the request headers, JSON encoding and the GraphQL query texts are not modelled. Each round trip is an `HttpReply`, and only the part of the parsed body that the code reads is kept. A JSON `null` body, and a body whose `data` is not an object, are not distinguished from a missing path.
- Background.Worker.OnMessage: the teacher query keeps the numeric school id. The base64 encoding of `School-<id>` by `btoa` is not modelled.
- Background.MakeGraphQLRequest: the text of a thrown error is kept only where the reply shows it (the `TypeError` of a null node). The status and `errors` texts, which are only logged, are not kept.
- All `console` logging is left out.
- Background.Worker.OnMessage: lookups are modelled one at a time, each run to completion before the next starts. In the extension every message starts its own asynchronous handler, and the page does not wait for replies. So lookups that overlap the first school search each find the memo unset and make their own search, and a late reply writes the memo again. Background.MemoSettles, Background.FailuresKeepMemo and Background.FirstSuccessIsFinal describe calls run one after another.
- Page.Page.OnReply: the table changes only through the script in this model. The page's own replacement of rows, which is why the `MutationObserver` exists, is not modelled. Nor is a reply that arrives after its cell was detached; content.js:202 still caches such a reply.
- Background.MakeGraphQLRequest: on a bad status the code reads the body text for its log before throwing (background.js:69). A failure of that read, which would throw its own error instead of the status error, is not modelled.
- Page.ProcessRow, Page.RowOutcome, Page.PassRow, Page.PassRows, Page.SentOf, Page.PassSendsUncached, Page.Page.ProcessProfessorCell, Page.Page.ProcessCells and Page.Page.Init use the corrected own-key cache test (`CachedBadge`). For a name inherited from `Object.prototype`, such as "constructor", they insert a loading cell and send a lookup, where the code as written (content.js:179) renders "Not on RMP" and sends nothing. The behaviour as written is `Page.CachedBadgeAsWritten` (see Findings).
- Teacher fields are numbers, and `null` or `NaN` ratings from the review site are not modelled.
- Lengths are counted in characters. JavaScript counts UTF-16 code units, which differ only for characters outside the Basic Multilingual Plane.
- `toLowerCase` is modelled as ASCII lower-casing. For the "staff" test this is exact: no character outside A-Z lowers to s, t, a or f.
- Page.Page.OnReply: storing a reply under the name `__proto__` replaces the cache object's prototype in JavaScript. The model stores it as an ordinary key.

## Findings

| source | as written | input that shows it | evidently intended | confidence | as-written member | corrected member |
|---|---|---|---|---|---|---|
| content.js:179-183 | the cache test reads `ratingCache[professorName]` on a plain object, so names inherited from `Object.prototype` read a truthy inherited value | an instructor named "constructor" (also "toString", "valueOf", …), with an empty cache | only names the script cached should hit: an own-key test or a `Map`. Otherwise the row shows "Not on RMP" and no lookup is ever sent | high that the code behaves so; low that such a name occurs; not executed | Page.CachedBadgeAsWritten, Page.InheritedNameCounterexample | Page.CachedBadge |
