# Toilex core, modelled in Dafny

Toilex is a joke "bathroom" web app. It has four parts:

- an anonymous two-person chat, matched through a waiting queue and polled over HTTP;
- a click game with a global counter and a leaderboard;
- a session tracker with statistics;
- a stool-photo analyzer.

This project models the parts of those features that hold logic:

- The in-memory chat matcher `ChatStore` (`chat.dfy`, module `Chat`). It is a class whose four fields are updated in place:
  - the waiting queue;
  - the room table, where each room has two users and an append-only message log;
  - the user-to-room index;
  - a per-user delivery cursor.

  Each method is proved to produce exactly what a pure function on a `Snapshot` of those fields describes. The lemmas about those functions state:
  - the store's invariant, which every operation keeps;
  - what each operation promises;
  - end-to-end scenarios: two starts pair two users, a sent message reaches the partner once, and leaving, cancelling and cleanup behave as described.
- The poll, end and send request handlers (`chat_api.dfy`, module `ChatApi`). They are methods over the shared store, each tied to a pure specification of its response and new state.
- The game score store `GameStore` (`game.dfy`, module `Game`). The score map keeps its insertion order, as a JavaScript `Map` does. The global counter is proved to equal the sum of all scores. The leaderboard is a stable sort by score followed by `slice(0, limit)`.
- The tracker page's integer logic (`tracker.dfy`, module `Tracker`):
  - the `m:ss` duration formatter;
  - the "time ago" formatter;
  - the count, total, floored average, longest and shortest of `calculateStats`;
  - the list updates made when a session ends or is deleted;
  - the dedication ladder.
- The breadcrumb trail (`breadcrumbs.dfy`, module `Breadcrumbs`).
- The analyzer's lookup tables and score ladders, and its form action (`analyzer.dfy`, module `Analyzer`). The action checks for a missing image, builds the mock result, and splits and rebuilds the data URL (`data:<mediatype>;base64,<data>`, section 3 of RFC 2397).

Two helper modules support the rest:

- `Text` (`text.dfy`) holds JavaScript's integer `toString`, `padStart(2, '0')`, `split` with a one-character separator, and their inverses.
- `Wrappers` (`wrappers.dfy`) holds `Option`.

Conventions of the model:

- Clocks are parameters: `now` and `endTime`, in milliseconds.
- Random choices are parameters: room ids and the mock's draws.
- A form or query field that is absent or empty is the empty string. The handlers test fields with `!x`, which treats the two alike.

## Model

| member | source | states |
|---|---|---|
| Chat.ChatStore.constructor | app/lib/chatStore.ts:24-28 | A new store is empty and satisfies the invariant |
| Chat.ChatStore.StartSession | app/lib/chatStore.ts:54-90 | The result and the new fields are exactly those of `StartSpec`, and the invariant is kept |
| Chat.StartEffects | app/lib/chatStore.ts:54-90 | The three branches of a start. A user already in a room gets that room and its partner and nothing changes. When another user waits at the head of the queue, a new room with the two users and an empty log is added, both users are indexed to it with cursors reset to 0, the head leaves the queue, and every other room, index entry and cursor stays. Otherwise the user waits: the queue loses its other head entry and gains the caller, so under the invariant the caller is the only queued user and reports `waiting` |
| Chat.StartPreservesInv | app/lib/chatStore.ts:54-90 | Starting keeps the invariant: every index entry names an existing room that lists the user, rooms have two distinct users, the queue holds at most one entry, and no queued user is in a room |
| Chat.StartNeverSelfPairs | app/lib/chatStore.ts:56-84 | A `matched` answer names a partner other than the caller; both are members of that room, and the caller's index entry points at it |
| Chat.ConsecutiveStartsPair | app/lib/chatStore.ts:54-90 | From an empty queue, two distinct users starting one after the other are paired: the first waits, the second is matched with the first, both report `matched`, a repeated start returns the same room and partner without changes, and the queue is empty again |
| Chat.ChatStore.SendMessage | app/lib/chatStore.ts:92-107 | The verdict and the new fields are exactly those of `SendSpec`, and the invariant is kept |
| Chat.SendPreservesInv | app/lib/chatStore.ts:92-107 | Sending keeps the invariant; in particular a log holds only its members' messages |
| Chat.SendAppendsOne | app/lib/chatStore.ts:92-107 | Sending succeeds iff the room exists and the sender is a member. On success exactly one message goes to the end of that room's log and nothing else changes; on failure nothing changes |
| Chat.ChatStore.GetNewMessages | app/lib/chatStore.ts:109-120 | The messages returned and the new fields are exactly those of `NewMessagesSpec`, and the invariant is kept |
| Chat.NewMessagesPreservesInv | app/lib/chatStore.ts:109-120 | Reading new messages keeps the invariant |
| Chat.NewMessagesOnce | app/lib/chatStore.ts:109-120 | A member gets the log from its cursor on, and its cursor moves to the end of the log. An immediate second read returns nothing and changes nothing. A non-member or a missing room gets nothing and no cursor moves |
| Chat.UnseenConcat | app/lib/chatStore.ts:115-117 | Two reads with only appends in between deliver, together, the log from the first cursor on |
| Chat.DeliveriesAreTheLog | app/lib/chatStore.ts:109-120 | Over any chain of growing logs, the concatenation of what successive reads deliver is the final log from the starting cursor: every message once, in append order |
| Chat.SentMessageReachesPartner | app/lib/chatStore.ts:92-120 | After a poll, a send by the other member, and two more polls, the first of those polls returns exactly the new message and the second returns nothing |
| Chat.SendAllGrows | app/lib/chatStore.ts:92-107 | Any sequence of sends to a room keeps the room and its two users and extends its log by exactly the members' messages, in order, each stamped with the room; sends by non-members leave no trace. The queue, the index and the cursors stay as they were |
| Chat.StoreDeliversOnce | app/lib/chatStore.ts:92-120 | Alternating rounds of sends to a room with polls by one of its members: the polls together return the final log from the member's starting cursor, in order, and the cursor ends at the end of the log. With no rounds nothing is returned and nothing changes |
| Chat.PollSendsPoll | app/lib/chatStore.ts:92-120 | A poll, any sequence of sends to the room, then a second poll: the second poll returns exactly the members' messages sent in between, in order, and the log grows by exactly those, the two polls together return the final log from the starting cursor, and the cursor ends at the end of the log. A cursor left past the end of this room's log by a longer room the user read before makes the first poll return nothing |
| Chat.ChatStore.GetRoomStatus | app/lib/chatStore.ts:122-135 | Changes nothing and returns `StatusOf`. Under the invariant the status is `matched` iff the user is in the index, and then the user is a member of the named room |
| Chat.StatusMeaning | app/lib/chatStore.ts:122-135 | `matched` iff in the index, naming a room that lists the user; `waiting` iff queued; `none` iff neither |
| Chat.ChatStore.EndSession | app/lib/chatStore.ts:137-150 | The new fields are exactly those of `EndSessionSpec`, and the invariant is kept |
| Chat.EndSessionPreservesInv | app/lib/chatStore.ts:137-150 | Ending keeps the invariant |
| Chat.EndSessionEffects | app/lib/chatStore.ts:137-150 | For a missing room nothing changes. Otherwise only the caller's index entry and cursor go, the queue and the other entries stay, and the room is deleted iff neither of its users is still in the index |
| Chat.EndSessionIdempotent | app/lib/chatStore.ts:137-150 | Ending twice with the same arguments leaves the state of ending once |
| Chat.LeaveOneThenBoth | app/lib/chatStore.ts:137-150 | Whichever member leaves first, after that the room survives, the partner still reports `matched` and the leaver reports `none`. After the partner leaves too, the room is gone |
| Chat.ChatStore.RemoveFromQueue | app/lib/chatStore.ts:152-154 | The new fields are exactly those of `RemoveFromQueueSpec`, and the invariant is kept |
| Chat.WithoutUserKeepsOthers | app/lib/chatStore.ts:153 | The filtered queue holds exactly the entries of other users and never the removed one; filtering again changes nothing |
| Chat.WithoutUserAppend | app/lib/chatStore.ts:153 | The filter distributes over concatenation, so the survivors keep their relative order |
| Chat.RemoveFromQueuePreservesInv | app/lib/chatStore.ts:152-154 | Leaving the queue keeps the invariant |
| Chat.CancelThenStartFresh | app/lib/chatStore.ts:152-154 | A queued user who cancels reports `none`, and a new start by that user waits again as the only queued entry |
| Chat.ChatStore.Cleanup | app/lib/chatStore.ts:35-52 | The new fields are exactly those of `CleanupSpec`, and the invariant is kept |
| Chat.RemoveExpiredRooms | app/lib/chatStore.ts:39-46 | The walk over the room table keeps exactly the rooms at most 30 minutes old. It removes the index entries of both users of every other room, and nothing more |
| Chat.KeepRecentKeepsRecent | app/lib/chatStore.ts:48-51 | The queue keeps exactly the entries younger than five minutes; filtering again changes nothing |
| Chat.KeepRecentAppend | app/lib/chatStore.ts:48-51 | The age filter distributes over concatenation, so the entries kept stay in queue order |
| Chat.CleanupPreservesInv | app/lib/chatStore.ts:35-52 | Cleanup keeps the invariant |
| Chat.CleanupReclaims | app/lib/chatStore.ts:35-46 | A room survives iff it was created at most 30 minutes ago. When it goes, both of its users leave the index and neither reports `matched` |
| Chat.CleanupIdempotent | app/lib/chatStore.ts:35-52 | A second cleanup at the same instant changes nothing |
| Chat.MatchSendPollScenario | app/lib/chatStore.ts:54-120 | On a new store, a starts and waits, b starts and is matched with a, a sends "hi", and b polls twice: b's first poll returns exactly that message, the second returns nothing |
| ChatApi.PollLoader | app/routes/api.chat.poll.ts:4-27 | The response and the new store state are exactly those of `PollSpec`, and the invariant is kept |
| ChatApi.PollOutcomes | app/routes/api.chat.poll.ts:9-26 | No user id gives a 400 and no change. A matched user with a room id gets the mapped room id and the messages of `getNewMessages` for the queried room, whose cursor moves. Every other poll returns the status alone and changes nothing |
| ChatApi.PollTwiceDeliversOnce | app/routes/api.chat.poll.ts:17-24 | A second matched poll right after a first returns the same room with no messages and changes nothing |
| ChatApi.EndAction | app/routes/api.chat.end.ts:4-21 | The response and the new store state are exactly those of `EndSpec`, and the invariant is kept |
| ChatApi.EndOutcomes | app/routes/api.chat.end.ts:9-20 | It is an error (400) iff the user id is missing, and then nothing changes. With a room id the queue is untouched. Without one the rooms, the index and the cursors are untouched and the user is no longer queued |
| ChatApi.EndRepeatable | app/routes/api.chat.end.ts:13-20 | Repeating an end request gives the same response and leaves the state of the first |
| ChatApi.EndPreservesInv | app/routes/api.chat.end.ts:13-18 | An end request keeps the invariant |
| ChatApi.SendAction | app/routes/api.chat.send.ts:4-21 | The response and the new store state are exactly those of `SendActionSpec`, and the invariant is kept |
| ChatApi.SendOutcomes | app/routes/api.chat.send.ts:10-20 | A missing field gives "Missing required fields" with no change. A non-member or missing room gives "Failed to send message" with no change. Success holds iff all fields are present and the sender is a member, and it appends exactly one message. The queue, the index and the cursors never change |
| Game.GameStore.constructor | app/lib/gameStore.ts:11-13 | A new store has no players and a zero counter, and satisfies the invariant |
| Game.GameStore.IncrementScore | app/lib/gameStore.ts:15-36 | The result and the new fields are exactly those of `IncrementSpec`, and the invariant is kept |
| Game.IncrementSpec | app/lib/gameStore.ts:15-36 | After a click the player is stored with the old score (0 for a newcomer) plus 1, the counter is one higher, and the result carries the new stored score and counter |
| Game.IncrementPreservesInv | app/lib/gameStore.ts:13-30 | A click keeps the invariant: the insertion order lists each key once, every entry has its own id and a positive score, and the global counter equals the sum of all scores |
| Game.IncrementEffects | app/lib/gameStore.ts:15-36 | The player's score rises by exactly 1, from 0 for a newcomer. The stored name is the first one given. Other entries and the earlier insertion order are unchanged. The counter rises by 1, and both returned numbers are the new stored values |
| Game.IncrementAddsOne | app/lib/gameStore.ts:30 | Each click adds exactly 1 to the sum of all scores |
| Game.SortByScore | app/lib/gameStore.ts:40 | The sorted list has the same length, orders entries by non-increasing score, and is a permutation of its input |
| Game.SortKeepsDistinct | app/lib/gameStore.ts:40 | Sorting entries with distinct user ids keeps the ids distinct |
| Game.Leaderboard | app/lib/gameStore.ts:38-42 | The leaderboard is sorted by non-increasing score and has as many entries as `slice(0, limit)` keeps of the players. It holds the top scorers: no entry left off it scores more than an entry on it |
| Game.LeaderboardCorrect | app/lib/gameStore.ts:38-42 | The leaderboard is sorted by non-increasing score. For a non-negative limit it has `min(limit, #players)` entries. It holds only stored entries, each player at most once, and no entry left off it scores more than an entry on it |
| Game.GameStore.GetLeaderboard | app/lib/gameStore.ts:38-42 | Changes nothing. Returns the sorted, sliced entries: non-increasing scores, `min(limit, #players)` of them for a non-negative limit, each the stored entry of a distinct player. No stored player left off the board scores more than a player on it |
| Game.GameStore.GetPlayerScore | app/lib/gameStore.ts:44-46 | Changes nothing. Returns the stored score, which is 0 exactly for an unknown user |
| Game.GameStore.GetGlobalScore | app/lib/gameStore.ts:48-50 | Changes nothing. Returns the sum of all players' scores, which is at least the number of players |
| Tracker.JsRem | app/routes/tracker.tsx:183 | JavaScript's `%` by a positive divisor b: for a non-negative dividend the remainder is the usual one in 0..b-1; for a negative one it lies in -(b-1)..0 |
| Tracker.FormatDuration | app/routes/tracker.tsx:181-185 | For a non-negative duration the text is all-digit minutes, a ':' and exactly two digits |
| Tracker.FormatDurationReadsBack | app/routes/tracker.tsx:181-185 | For a non-negative duration the text splits at ':' into two all-digit parts. The seconds part has exactly two digits with a value in 0..59, and minutes * 60 + seconds gives the duration back |
| Tracker.FormatTimeAgo | app/routes/tracker.tsx:187-214 | The text is "unknown" iff the timestamp is 0; every other text but "just now" ends in " ago" |
| Tracker.TimeAgoEdges | app/routes/tracker.tsx:187-194 | A zero timestamp gives "unknown". A difference under 5 s, future timestamps included, gives "just now", and any larger one does not |
| Tracker.TimeAgoBuckets | app/routes/tracker.tsx:193-213 | Past 5 s, exactly one unit applies, the first whose bound holds: seconds under 60, minutes under an hour, hours under a day, days under a week, weeks under four weeks. After that it is months of 30 days while under 12, else years of 365 days, each a floored quotient of the elapsed seconds |
| Tracker.TimeAgoZeroUnits | app/routes/tracker.tsx:203-213 | 28 or 29 days give "0mo ago"; 360 to 364 days give "0y ago" |
| Tracker.Longest | app/routes/tracker.tsx:258 | The longest duration bounds every session's duration and is one of them |
| Tracker.Shortest | app/routes/tracker.tsx:259 | The shortest duration is below every session's duration and is one of them |
| Tracker.CalculateStats | app/routes/tracker.tsx:226-229 | No statistics exactly for an empty list; otherwise the count is the list length |
| Tracker.StatsCorrect | app/routes/tracker.tsx:229-259 | The total is the sum of the durations and the average is its floor over the count. Every duration lies between the shortest and the longest, and shortest <= average <= longest |
| Tracker.DeleteSession | app/routes/tracker.tsx:351 | The list never grows and no kept session has the deleted id |
| Tracker.DeleteSessionMembers | app/routes/tracker.tsx:351 | Deleting an id keeps exactly the sessions with another id |
| Tracker.DeleteSessionAppend | app/routes/tracker.tsx:351 | Deleting distributes over concatenation, so the kept sessions stay in order |
| Tracker.DeleteSessionAbsent | app/routes/tracker.tsx:351 | Deleting an id no session has changes nothing; deleting twice is deleting once |
| Tracker.EndSession | app/routes/tracker.tsx:130-179 | With no session started the list is unchanged. Otherwise one session with the given id, start and end is put at the head of the unchanged list, and it has notes iff the trimmed notes are non-empty |
| Tracker.EndSessionPrepends | app/routes/tracker.tsx:130-179 | With no session started nothing changes. Otherwise exactly one session goes to the head and the rest stay. Its duration is the floor of the elapsed milliseconds over 1000, and it has notes iff they are non-empty. Deleting its id, when the id was not in use, restores the old list |
| Tracker.DedicationLevel | app/routes/tracker.tsx:662-664 | LEGENDARY iff more than 20 sessions, EXPERT iff 11..20, REGULAR iff 6..10, NEWBIE iff at most 5 |
| Tracker.DedicationLadder | app/routes/tracker.tsx:662-664 | More sessions never lower the level |
| Breadcrumbs.Segments | app/components/Breadcrumbs.tsx:19 | Every segment is non-empty and holds no slash |
| Breadcrumbs.Trail | app/components/Breadcrumbs.tsx:17-37 | There is no trail exactly when the pathname has no non-empty segment |
| Breadcrumbs.SlashIgnored | app/components/Breadcrumbs.tsx:19 | A leading or repeated slash adds no segment |
| Breadcrumbs.SegmentThenRest | app/components/Breadcrumbs.tsx:19 | The text up to the first slash is the first segment, followed by the segments of the rest |
| Breadcrumbs.TrailShape | app/components/Breadcrumbs.tsx:22-32 | The trail starts with the home crumb. It has two crumbs exactly when the first segment is a configured route (auth, chat, analyzer or tracker), and then the second crumb is that route's |
| Breadcrumbs.OnlyFirstSegmentMatters | app/components/Breadcrumbs.tsx:27-32 | Two pathnames with the same first segment get the same trail |
| Breadcrumbs.Render | app/components/Breadcrumbs.tsx:41-65 | One item per crumb, keyed by its path. Every item but the last is a link and the last is plain text; every item but the first has a separator before it |
| Breadcrumbs.RenderKeysDistinct | app/components/Breadcrumbs.tsx:41-65 | The rendered items of a trail have distinct keys |
| Breadcrumbs.LookupAsWritten | app/components/Breadcrumbs.tsx:29-30 | The property read finds nothing iff the segment is neither a configured key nor an inherited `Object.prototype` name |
| Breadcrumbs.TrailAsWritten | app/components/Breadcrumbs.tsx:22-37 | As the component builds it, the trail is absent exactly when there are no segments |
| Breadcrumbs.PrototypeNameMakesCrumb | app/components/Breadcrumbs.tsx:29-30 | On "/toString" the component pushes the inherited `toString` as a second crumb, while the own-key lookup gives the home crumb alone |
| Breadcrumbs.AsWrittenAgrees | app/components/Breadcrumbs.tsx:22-37 | Off the inherited names, both lookups give the same trail |
| Analyzer.BristolDescription | app/routes/analyzer.tsx:134-145 | "Unknown" exactly outside 1..7 |
| Analyzer.BristolTable | app/routes/analyzer.tsx:134-145 | The seven types have seven different descriptions |
| Analyzer.HealthScoreColor | app/routes/analyzer.tsx:147-151 | yellow-300 iff score >= 80, yellow-400 iff 60..79, red-400 iff below 60 |
| Analyzer.RatingLabel | app/routes/analyzer.tsx:266-267 | "LEGENDARY DUMP!" iff score >= 80, "Solid Performance" iff 60..79, "Needs Work" iff below 60 |
| Analyzer.RatingAgreesWithColor | app/routes/analyzer.tsx:266-267 | The rating label uses the colour's boundaries: each label goes with exactly one colour |
| Analyzer.ExtractBase64 | app/routes/analyzer.tsx:59 | Data is found iff the URL has a comma, and the data found holds no comma |
| Analyzer.ExtractMediaType | app/routes/analyzer.tsx:60 | A media type is found iff the text before the first ';' has a ':', and the type found holds no ':' |
| Analyzer.RebuildDataUrl | app/routes/analyzer.tsx:71 | The URL starts with "data:". With both parts found it is `data:T;base64,P`; with no data it ends in "undefined" |
| Analyzer.DataUrlRoundTrip | app/routes/analyzer.tsx:59-71 | For `data:T;base64,P` with no ':', ';' or ',' in T and no ',' in P, the media type read is T and the data read is P. The rebuilt URL is the input |
| Analyzer.NoCommaNoPayload | app/routes/analyzer.tsx:59-71 | Without a comma no data is found, and the rebuilt URL ends in "undefined" |
| Analyzer.MockResult | app/routes/analyzer.tsx:33-50 | The mock has a Bristol type in 1..7 with a known description, one of the fixed colours and consistencies, a health score in 60..99, and the first two or three fixed recommendations |
| Analyzer.AnalyzeAction | app/routes/analyzer.tsx:22-71 | The action fails iff there is no image, gives the mock iff there is an image and no key, and otherwise sends a URL starting with "data:" |
| Analyzer.ActionOutcomes | app/routes/analyzer.tsx:22-71 | Missing image iff the answer is "No image provided", whatever the key. With an image and no key the answer is the mock; with both, the image goes to the vision request |
| Analyzer.UploadSentUnchanged | app/routes/analyzer.tsx:52-71 | A well-formed uploaded data URL reaches the vision request unchanged |

## Left out

- Timers: the store's `setInterval` cleanup schedule. `Cleanup` takes `now` and may be called at any time.
- Random ids and clocks: room ids and the tracker's `Date.now()` ids are parameters.
- Chat.ChatStore.StartSession: requires a non-empty room id that is not in use. The source builds ids from the time and a random suffix and does not check for collisions.
- Chat.RemoveExpiredRooms: visits the rooms in an arbitrary order rather than the `Map`'s insertion order. The result does not depend on the order, and it works on copies of the two maps that are assigned back afterwards.
- Game.GameStore.GetLeaderboard: the default `limit = 10` of `getLeaderboard` is not modelled. Its only caller, the leaderboard request wrapper, always passes a limit.
- Game.GameStore.GetLeaderboard: the limit is an integer. The leaderboard request wrapper reads it with `parseInt(limit || "10")`, so a non-numeric `?limit=abc` gives NaN, and `slice(0, NaN)` returns an empty list; that path is not modelled.
- Game.GameStore.GetLeaderboard: returns entry values. The source hands out the stored objects themselves, so a caller could change them later; that aliasing is not modelled.
- Game.SortByScore: does not state that equal scores keep their insertion order. `SortByScore` keeps them in that order, as the stable `Array.prototype.sort` does, but no lemma says so.
- Numbers: JavaScript numbers are doubles and the model uses unbounded integers.
  - Values beyond 2^53 are not modelled.
  - `toString` of values at or above 10^21 (exponent notation) is not modelled.
  - NaN timestamps are not modelled; `formatTimeAgo`'s NaN test has no counterpart.
- Tracker:
  - The prediction, `avgInterval`, the interval variance, `mostCommonHour` and the confidence (floating point, time zones, `Math.random`).
  - `formatDateTime` (locale formatting).
  - `clearAllSessions` (a confirm dialog and storage).
  - The Supabase and `localStorage` load and save.
  - The timer that updates the elapsed time.
  - `notes.trim()`: the notes reach `EndSession` already trimmed.
  - The Supabase branch of ending a session. It prepends the row the database returns; the model covers the browser-storage branch.
- Analyzer:
  - The OpenAI request, `JSON.parse` of its reply and the two "Failed to analyze image" errors. The action's model stops at the image URL it sends.
  - The `FileReader` upload.
- Breadcrumbs: the React markup beyond which crumb is a link, which has a separator and its key.
- The chat page (app/routes/chat.tsx), which drops the user's own messages from what a poll returns. `getNewMessages` returns them, and the model keeps that.
- The start and click request wrappers, which only check for a missing field before calling the store. The leaderboard request wrapper, which parses the limit (see the GetLeaderboard lines above) and calls the store. The socket relay (socket-server.js) and the TheNothing game component, whose `formatDuration` is the tracker's.
- Request interleaving: each handler runs to completion on one event loop, so every call is atomic.

## Findings

| source | as written | input that shows it | evidently intended | confidence | as-written member | corrected member |
|---|---|---|---|---|---|---|
| app/components/Breadcrumbs.tsx:29-30 | `routeConfig[currentSegment]` reads a property of a plain object, so names inherited from `Object.prototype` are found too, and the inherited value is pushed as a crumb with no label, emoji or path | pathname "/toString" (or "/constructor", "/valueOf", ...) | only the four configured non-empty keys (auth, chat, analyzer, tracker) give a second crumb, so "/toString" shows the home crumb alone | low, not executed; the app's route table sends no such path to a page that renders the trail | Breadcrumbs.TrailAsWritten (shown by Breadcrumbs.PrototypeNameMakesCrumb) | Breadcrumbs.Trail (with Breadcrumbs.TrailShape) |
