# Poll lifecycle of the vanishing-poll service, in Dafny

This project models the core of a small polling back end.

- Clients create a poll with a question, a list of options, an expiry and a privacy flag.
- Other clients vote by option index, read the tally and attach comments until the poll expires.
- A background task flags expired polls once a minute.

The request handlers in `server.js` are rewritten as pure functions over an immutable store. The store holds a map from poll id to `Poll`, the list of comments, and the two auto-increment counters. Time is an integer number of milliseconds, and the clock is the parameter `now`. The five request handlers that can fail (`CreatePoll`, `RecordVote`, `ComputeResults`, `GetPoll` and `AddComment`) return a `Result`. It is either `Ok` with the value, plus the new store when the handler writes, or `Err` with one of the error kinds `InvalidExpiration`, `MissingField`, `NotFound`, `Expired` or `EmptyText`. A rejected request carries no store, so it cannot have changed one. The comment listing and the sweeper tick cannot fail and return their value directly: a sequence of comments and a new store. `Lifecycle.Step` makes this explicit for every writing request.

Files:

- `outcome.dfy` (`Outcome`): `Option`, the error kinds and `Result`.
- `poll_model.dfy` (`PollModel`): the `Poll` and `Comment` rows, their column defaults, the store, its validity invariant and the two inserts.
- `expiry.dfy` (`Expiry`): normalising the three forms of `expiresIn` into a stored whole-second expiry.
- `tally.dfy` (`VoteTally`): folding the votes into counts.
- `text.dfy` (`Text`): JavaScript's `trim`.
- `server.dfy` (`Server`): the six handlers and the sweeper tick.
- `lifecycle.dfy` (`Lifecycle`): properties across operations and over whole request histories.

Behaviour of the code that a reader might not expect, kept by the model:

- The code does not check that `optionIndex` lies within `options`. Out-of-range indices are stored and show up as extra result keys.
- The code does not check that `question` is non-empty or that `options` has at least two entries. It only requires both to be non-null.
- The sweeper sets the flag on every poll whose expiry is at or before `now`, whether or not the flag is already set. The outcome is the same as updating only unflagged polls.
- The comment listing has no `ORDER BY`. The model lists comments in insertion order.
- A vote is accepted when `now == expiresAt`, but a sweep at that same instant flags the poll. See `Lifecycle.BoundaryAsymmetry`.
- A vote that arrives after the expiry is refused, but the vote path never sets `expired` itself. Only the sweeper sets the flag. `Server.RecordVote` stores nothing on refusal and leaves the flag as it was on success.

## Model

| member | source | states |
|---|---|---|
| Expiry.Normalize | server.js:16-31 | A number `n` resolves to `now + n*1000` and anything other than a string or number to `now + 86400000`. A parsed string resolves to the instant it denotes. The result exists exactly when that instant is a valid Date time value (at most 8.64e15 ms from the epoch). A stored expiry is a whole second no later than the requested instant and less than a second before it. |
| Expiry.TruncateToSecond | server.js:28-31 | Cutting the ISO rendering after the seconds gives a multiple of 1000 ms at most 999 ms before the instant, and it keeps a valid time valid. |
| Expiry.NormalizeIdempotent | server.js:28-36 | Reading a stored expiry back as a date and normalising it again gives the same stored value. |
| PollModel.InsertPoll | models/poll.js:5-34 | The store assigns the next auto-increment key. In a valid store that key is not already used. The new row has `votes = []`, `expired = false` and `isPrivate` true only when given as true. The store stays valid. |
| PollModel.InsertComment | models/comment.js:5-22 | A comment row is appended with the next comment id, the given poll id and the given text. The polls are untouched. The store stays valid when the poll exists. |
| Server.CreatePoll | server.js:14-39 | An invalid resolved expiry fails with `InvalidExpiration` before anything else, and no insert happens. A null question or option list then fails with `MissingField`. Otherwise exactly one poll is added, with the normalised expiry, the given question and options, no votes, the flag clear and `isPrivate` defaulting to false. The new id is fresh. |
| Server.RecordVote | server.js:57-65 | An absent id fails with `NotFound`. A flagged poll, or one with `now > expiresAt`, fails with `Expired`. A vote succeeds exactly when the poll exists, is unflagged and `now <= expiresAt`. On success the votes become the old votes plus `optionIndex`, one longer, with no bounds check. No other field, poll or comment changes. |
| Server.ComputeResults | server.js:77-83 | An absent id fails with `NotFound`. Otherwise the keys are exactly the distinct recorded values, and each count is that value's number of occurrences in the votes. |
| Server.GetPoll | server.js:95-98 | Returns the stored poll, or `NotFound`. There is no liveness re-check, so the flag may still be clear after the expiry has passed. |
| Server.AddComment | server.js:110-119 | Absent or blank text fails with `EmptyText` even when the poll is absent. Otherwise an absent poll fails with `NotFound`. On success the trimmed text, which is non-empty with no whitespace at either end, is appended against the poll. |
| Server.ListComments | server.js:134 | Returns the stored comments whose `pollId` matches, each as often as it is stored and no other. An id with none gives the empty sequence, not an error. |
| Server.SweepTick | server.js:145-148 | Every poll with `expiresAt <= now` ends flagged. A flag is never cleared. No other field of any poll changes, and no other poll, comment or counter changes. |
| VoteTally.Tally | server.js:80-83 | Folding the votes left to right gives a map whose keys are exactly the recorded values, in range of the options or not. |
| VoteTally.TallyCounts | server.js:80-83 | Each count in the fold is the number of occurrences of its key among the votes. |
| VoteTally.ReduceVotes | server.js:80-83 | The accumulator loop over the votes ends with exactly the fold `Tally`: the recorded values as keys and their multiplicities as counts. |
| VoteTally.TallySumsToVoteCount | server.js:80-83 | The counts over the distinct keys add up to the number of votes. |
| VoteTally.TallyAppend | server.js:64 | After appending a vote for `x`, the keys are the old votes plus `x`. Each count is the key's number of occurrences in the old votes, plus one for `x`. |
| VoteTally.SumStep | server.js:80-83 | One more vote adds exactly one to the sum of the counts over the distinct keys. |
| Text.Trim | server.js:110-114 | The trimmed text is a slice of the input with only whitespace outside it. It is empty exactly when the input is all whitespace, and otherwise it has no whitespace at either end. |
| Text.TrimIdempotent | server.js:114 | Trimming twice is the same as trimming once. |
| Lifecycle.CreateThenRead | models/poll.js:23-34 | A created poll reads back as created, unflagged and with no votes. Its results are empty, and it takes a vote at a later time exactly when that time is not after its expiry. |
| Lifecycle.CreatedExpiry | server.js:18-21 | For `n` seconds, the stored expiry is within the whole second at or before `now + n*1000`. With no usable field it is within the whole second at or before `now + 86400000`. |
| Lifecycle.VoteUpdatesResults | server.js:64-65 | After an accepted vote, the poll's results gain one for that index and keep every other count. Every other poll's results are unchanged. |
| Lifecycle.ResultsSumToVoteCount | server.js:80-83 | A poll's result counts add up to its number of votes. |
| Lifecycle.SweepIdempotent | server.js:145-148 | A second sweep at the same instant changes nothing. |
| Lifecycle.SweepsCompose | server.js:143-148 | A sweep at `t1` followed by one at a later `t2` equals a single sweep at `t2`. |
| Lifecycle.BoundaryAsymmetry | server.js:60-62 | At `now == expiresAt` an unflagged poll accepts a vote. A sweep at that same instant flags the poll, and the same vote is then refused with `Expired`. |
| Lifecycle.SweepMattersOnlyAtExpiry | server.js:145-148 | If the clock never runs backwards, an earlier sweep changes a vote's outcome only when the sweep time, the vote time and the expiry are all equal. |
| Lifecycle.AddThenList | server.js:131-136 | A newly added comment is listed last for its poll, and every other poll's listing is unchanged. |
| Lifecycle.ListAppend | server.js:134 | Appending a comment extends the listing of its own poll id by that comment and leaves every other listing unchanged. |
| Lifecycle.CreateEvolves | server.js:33-39 | A successful creation keeps the store valid. It only adds a poll, and every existing poll and comment stays as it was. |
| Lifecycle.VoteEvolves | server.js:64-65 | An accepted vote keeps the store valid. The voted poll gains exactly that vote at the end and keeps all its other fields. Every other poll and the comments are unchanged. |
| Lifecycle.CommentEvolves | server.js:119 | An accepted comment keeps the store valid and leaves every poll as it was. The comments become the old ones plus exactly the new comment. |
| Lifecycle.SweepEvolves | server.js:145-148 | A sweep keeps the store valid and never clears a flag. Every poll keeps exactly its votes and all fields other than the flag, and the comments are unchanged. |
| Lifecycle.StepEvolves | server.js:57-65 | Any single writing request keeps the store valid and removes nothing. It never changes a poll's question, options, expiry or privacy. It only appends votes and never clears a flag. |
| Lifecycle.RunFromEmpty | models/poll.js:5-10 | Starting from an empty database, any sequence of requests leaves a valid store. Every poll id is below the auto-increment counter and stored under itself, every comment refers to an existing poll, and comment ids increase. |
| Lifecycle.RunEvolves | server.js:64-65 | Any sequence of requests handled one at a time keeps those invariants: votes are append-only and the expiry flag only goes from false to true. |

## Left out

- HTTP plumbing: routing, JSON bodies, status codes, the `pollLink` URL, the catch-all error responses and logging, `app.listen`, environment configuration and CORS.
- The database connection, schema synchronisation and the cascade wiring of `models/index.js`. The store is an in-memory value, and no operation deletes a poll.
- Date string parsing: a string `expiresIn` is given as its parse result, an optional instant. The ISO rendering is reduced to its whole-second truncation, and the time zone the ORM applies when reading the stored string back is not modelled.
- Expiry.TruncateToSecond: assumes the four-digit-year ISO form. Instants outside the years 0000 to 9999 are rendered with extended years, and the MySQL DATETIME range is narrower still; neither is modelled.
- Fractional `expiresIn` numbers are not modelled; `expiresIn` is an integer number of seconds, and negative values give an expiry already in the past.
- JavaScript truthiness: `isPrivate` is an optional boolean, a comment's text is an optional string (absent standing for every non-string), and `optionIndex` is an integer.
- The sweeper's 60-second timer and its log-and-continue on store failure. One tick is a function of `now`. Store failures are not modelled at all.
- Concurrency: the read-append-write of a vote can lose votes under parallel requests, and the poll can expire between the check and the write. Requests are handled one at a time here.
- PollModel.InsertPoll: ids are unbounded integers. The 32-bit `INTEGER` column's limit, and the 255-character limit of `STRING` columns for question and comment text, are not modelled.
- The order of keys in the JSON results object is not modelled; results are a map.
- The `createdAt` and `updatedAt` timestamps are bookkeeping and are not modelled.
