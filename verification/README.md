# UniversityGutiBoard in Dafny

A model of the two small cores of a minimal bulletin board: the browser
script's text guards (HTML escaping, the forbidden-word check, the
validation that opens post and comment submission, and the sort toggle) and
the Flask server's store semantics (create and list posts, like a post,
create and list comments, rank posts by likes).

Modules, one per concern:

- `Text` (`text.dfy`): ASCII `toLowerCase`, `includes` as substring search,
  JavaScript's `trim` whitespace set, character counts.
- `Escape` (`escape.dfy`): `escapeHTML` as the four chained global
  `replace` calls it is written as, proved equal to a per-character map.
- `Client` (`client.dfy`): `forbiddenWords` and `containsForbiddenWords`,
  the submit-time validation, `toggleSort` and the endpoint choice.
- `Ordering` (`ordering.dfy`): descending order by an integer key and its
  top-N prefix, standing for SQL `ORDER BY … DESC [LIMIT n]`.
- `Board` (`board.dfy`): the `post` and `comment` tables as an immutable
  `Store` (two sequences plus a clock) and each route as a pure function
  returning `(Response, Store)`; a request sequence (`Step`, `Run`) with
  the store invariant it preserves.
- `EndToEnd` (`endtoend.dfy`): how page and server fit together.

Facts of the code the model keeps as they are:

- There is no record of who liked what: every `POST /like/<id>` adds one
  like (app.py:63-70, `Board.LikeTimesCounts`). The page promises at most
  one like per person (the comment on `likePost`, static/script.js:83) and
  expects the server to refuse a second one (the alert at
  static/script.js:92), but the server never does.
- The server stores text verbatim; nothing is escaped on write or on read.
  Escaping happens only in the page, when a listing is rendered.
- `escapeHTML` does not escape `&`; that is why it is idempotent on every
  input, not only on its own outputs.
- The server refuses only falsy text: whitespace-only text is accepted and
  stored. Only the page refuses it.
- Ranking ties and timestamp ties are left in an unspecified order; only
  sortedness and membership are stated.

Abstractions: the wall clock is the store's `clock`, advanced by a
caller-chosen `tick: nat` on each insert (zero allowed, because
`CURRENT_TIMESTAMP` has one-second resolution). Post and comment ids follow
SQLite's rowid rule without AUTOINCREMENT: one more than the largest id in
use. The request body reaches a route as a `Payload` that is either
`Undecodable` or a decoded JSON document.

## Model

| member | source | states |
|---|---|---|
| Text.Lower | static/script.js:21 | the result has the same length and no capital; a character is changed exactly when it is a capital A-Z, and a capital becomes the letter at the same place of a-z (ASCII only) |
| Text.LowerIsIdempotent | static/script.js:21 | a lower-cased text has no upper-case letter and lower-casing it again changes nothing |
| Text.Includes | static/script.js:21 | `includes` answers true exactly when the word occurs at some position of the text |
| Text.UpperNeverInLower | static/script.js:21 | a word with an upper-case letter never occurs in a lower-cased text |
| Text.TrimEmptyIffAllSpace | static/script.js:27 | `trim()` yields the empty string exactly when every character is JavaScript whitespace |
| Escape.EscapeHTML | static/script.js:4-7 | the output never contains `<`, `>`, `"` or `'` |
| Escape.EscapeIsPerChar | static/script.js:5-6 | the four chained replacements equal the per-character entity map |
| Escape.EscapeConcat | static/script.js:5-6 | escaping distributes over concatenation |
| Escape.EscapeKeepsPlain | static/script.js:5-6 | a text without the four characters, ampersands included, is returned unchanged |
| Escape.EscapeFixedIffPlain | static/script.js:5-6 | the output equals the input exactly when the input has none of the four characters |
| Escape.EscapeIdempotent | static/script.js:5-6 | escaping twice equals escaping once, for every input |
| Escape.EscapeLength | static/script.js:5-6 | output length is the input length plus 3 per `<` or `>` and 5 per `"` or `'` |
| Escape.EscapeScriptTag | static/script.js:4-7 | `<script>` renders as `&lt;script&gt;` |
| Client.AnyIncluded | static/script.js:21 | `some(includes)` is true exactly when some list entry occurs in the text |
| Client.ContainsForbiddenWords | static/script.js:20-22 | true exactly when some list entry is a substring of the lower-cased text |
| Client.UpperCaseEntriesNeverMatch | static/script.js:10-21 | exactly seven entries hold an upper-case letter and none of them can ever match |
| Client.ContainsForbiddenOnlyViaLowerCaseEntries | static/script.js:10-22 | the check fires exactly when one of the sixteen all-lower-case entries occurs |
| Client.XmlHttpRequestNotFlagged | static/script.js:13-21 | the text "XMLHttpRequest" contains that list entry yet is not flagged |
| Client.ContainsForbiddenWordsFixed | static/script.js:20-22 | corrected check: true exactly when some lower-cased entry occurs in the lower-cased text |
| Client.FixedCatchesEveryEntry | static/script.js:10-17 | the corrected check flags a text holding any entry in any letter case |
| Client.FixedExtendsAsWritten | static/script.js:20-22 | the corrected check flags every text the check as written flags |
| Client.CheckSubmission | static/script.js:27-34 | blank exactly for whitespace-only text; forbidden exactly for non-blank text holding an entry; otherwise the untrimmed text is sent |
| Client.SentTextIsNotBlank | static/script.js:123-130 | a text the comment (or post) form sends has a non-whitespace character |
| Client.BlankNeverForbidden | static/script.js:27-34 | a whitespace-only text never contains an entry, so the check order cannot change what is sent |
| Client.ToggleSort | static/script.js:145-146 | the next mode is "latest" exactly when the current one is not "latest" |
| Client.EndpointFor | static/script.js:51 | the endpoint is `/posts` exactly when the mode is "latest", otherwise `/ranking` |
| Client.ToggleTwice | static/script.js:145-146 | toggling twice restores exactly the modes "latest" and "ranking" |
| Client.SortAfterParity | static/script.js:144-146 | from the initial "latest", after n toggles the mode is "latest" and the endpoint `/posts` exactly when n is even |
| Ordering.SortDesc | app.py:58 | the result is a permutation of the input in non-increasing key order |
| Ordering.TopDesc | app.py:98 | at most n elements, in non-increasing key order, drawn from the input, and no left-out element has a higher key than the last one kept |
| Board.NextPostId | app.py:17 | the new id is positive and larger than every id in use |
| Board.NextCommentId | app.py:24 | the new comment id is positive and larger than every comment id in use |
| Board.StoredText | app.py:47 | what the TEXT column receives, here and at app.py:83: a string verbatim; a number exactly when it fits 64 bits; `true`/`false` as one character; nothing for null, a list or an object; a truthy value never yields an empty text |
| Board.FindPost | app.py:64 | finds the first post with the id, and none exactly when no post has it |
| Board.CreatePost | app.py:36-53 | decode failure or non-object: 400 and no change; text falsy in Python's sense (`Board.Truthy`: missing, null, false, 0, empty string, list or object): 400 and no change; a text that cannot be bound (a list, an object, a number outside 64 bits): 400 and no change; otherwise exactly one post appended with fresh id, zero likes and the stored form of the text (a string verbatim) |
| Board.CreatePostAcceptsNonEmpty | app.py:43-47 | a string text is accepted exactly when non-empty, whitespace-only included, and stored verbatim |
| Board.CreatePostPreservesValid | app.py:47-49 | creating a post keeps ids distinct, texts non-empty and comments attached, and only extends the store |
| Board.ListPosts | app.py:58-59 | every post exactly once, newest first |
| Board.ListPostsNewestFirst | app.py:58 | of two posts with different timestamps the later one is listed first |
| Board.Like | app.py:63-70 | unknown id: 404 and no change; otherwise that post's likes rise by exactly one, the new count is returned, nothing else changes |
| Board.LikeKeepsPosition | app.py:68-70 | after a like the same post is found at the same position with one more like |
| Board.LikeTimesCounts | app.py:68-69 | n likes in a row raise that post's count by exactly n and change nothing else: there is no de-duplication |
| Board.LikeAnswersRunningCount | app.py:68-70 | the n-th like in a row answers with the original count plus n |
| Board.LikePreservesValid | app.py:68-69 | liking keeps the store valid and only extends it |
| Board.AddComment | app.py:74-87 | undecodable: 400; non-object: 500; falsy text (`Board.Truthy`): 400 even for a missing post; missing post: 404; errors change nothing; success appends exactly one comment for that post |
| Board.AddCommentChecksTextFirst | app.py:76-81 | empty text yields 400 whether or not the post exists; then 404 for a missing post; otherwise the comment is added |
| Board.AddCommentPreservesValid | app.py:83-85 | adding a comment keeps the store valid and only extends it |
| Board.OversizedPostRefused | app.py:47-53 | a number in `text` outside SQLite's 64-bit range cannot be bound; `post` catches the error: 400 and the store is unchanged |
| Board.OversizedCommentFails | app.py:83-85 | the same number sent as a comment to an existing post is not caught: 500 and the store is unchanged |
| Board.OfPost | app.py:92 | keeps exactly the comments with that post id, with their multiplicities |
| Board.ListComments | app.py:91-93 | exactly the comments of that post, newest first |
| Board.ListCommentsOfMissingPost | app.py:92 | in a valid store an id that names no post has no comments |
| Board.Ranking | app.py:97-99 | min(10, number of posts) stored posts, most likes first, and no left-out post has more likes than the last one listed |
| Board.RankingDistinct | app.py:98 | in a valid store the ranking lists no post twice |
| Board.StepPreservesValid | app.py:35-99 | every route keeps the store valid and only extends it |
| Board.RunPreservesValid | app.py:35-99 | any request sequence from a valid store ends valid, with old rows kept and likes never lower |
| Board.EmptyStoreValid | app.py:29-31 | the freshly created database is valid |
| EndToEnd.SentPostIsStored | app.py:43-49 | a text with a non-whitespace character, as every text the page sends has, is accepted by the server and stored exactly as typed |
| EndToEnd.SentCommentOutcome | app.py:76-85 | a comment with a non-whitespace character, as every comment the page sends has, is stored for an existing post and answered 404 for a missing one |
| EndToEnd.ScriptTagRefusedByPage | static/script.js:27-34 | the page refuses to send `<script>` |
| EndToEnd.ScriptTagStoredRaw | app.py:47-59 | a `<script>` sent around the page is stored and listed raw, and renders as `&lt;script&gt;` |
| EndToEnd.RenderedPostsAreInert | static/script.js:59-63 | every post text rendered from either listing is a stored post's text, free of the four markup characters once escaped, and unchanged exactly when it had none |
| EndToEnd.RenderedCommentsAreInert | static/script.js:116 | every comment text rendered under a post belongs to a comment stored for that post, is free of the four markup characters once escaped, and is unchanged exactly when it had none |

## Left out

- Flask routing, CORS, `render_template`, the `/` and `/board` routes and `app.run`: framework glue with no logic of the board's own.
- SQLAlchemy sessions, transactions, the SQLite file and `db.create_all`: replaced by in-memory sequences; the empty store stands for the freshly created database.
- Base64 and JSON decoding: a library concern, abstracted to `Payload`; JSON numbers are integers only (floats are not modelled).
- Board.StoredText: a truthy non-string `text` is assumed stored as SQLite's TEXT column renders it (an integer within 64 bits, or `True`, in decimal), while a list, an object or a wider integer is assumed to fail when the insert binds it; this is driver behaviour, not code of the board.
- Board.AddComment: a body the framework refuses before the handler runs is modelled as one 400 outcome; depending on the Flask version a wrong content type is a 415.
- The JSON projection of rows (`created_at` as a string, comments without `post_id`, ranking without `created_at`) and the response message texts: routes return whole rows and a failure kind.
- 64-bit limits of SQLite integers for ids and like counts: integers are unbounded here. A path id of 2^63 or more cannot be bound at app.py:64, 79 and 92, so it is a 500 in the source, while here `Board.Like` and `Board.AddComment` answer 404 and `Board.ListComments` an empty listing.
- Concurrency: two simultaneous likes can lose an update in the source; the model is sequential.
- Everything DOM, `fetch`, `alert` or timer-based in the script: rendering in `loadPosts`, `loadComments`, `likePost`, `toggleComments`, the title and button labels, `detectDevTools`, `isMobile`, the `setInterval` loops and the context-menu and keydown handlers.
- Text.Lower: `toLowerCase` is modelled on ASCII letters only, not full Unicode case mapping.
- Strings are sequences of characters; JavaScript's UTF-16 code units and Python's code points are not distinguished.

## Findings

| source | as written | input that shows it | evidently intended | confidence | as-written member | corrected member |
|---|---|---|---|---|---|---|
| static/script.js:21 | the text is lower-cased but the list entries are not, so the seven entries with an upper-case letter (`XMLHttpRequest`, `Function(`, `setTimeout(`, `setInterval(` and the three SQL fragments) can never match | `XMLHttpRequest` is not flagged although it is a list entry | compare the lower-cased text with lower-cased entries, so every entry is caught in any letter case | high; not executed | Client.XmlHttpRequestNotFlagged | Client.ContainsForbiddenWordsFixed |

The submission check `Client.CheckSubmission` keeps the check as written,
because that is what the page runs; `Client.FixedExtendsAsWritten` shows the
corrected check refuses everything the written one refuses and more.
