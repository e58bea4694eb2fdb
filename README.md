# Record stores of the family-cabin and feedback servers

This project models the two record stores behind the small HTTP APIs of two
servers and proves properties about them.

- **Flat-file subscriber store** (`familycabin/index.js`, the bundled
  `server/fileManager.ts` and `server/fileStorage.ts`).
  - The file `data/subscribers.txt` holds one `email,timestamp` line per
    subscriber.
  - `getSubscribers` parses the file: blank lines are skipped, and ids are
    the 1-based positions of the remaining lines.
  - `saveSubscriber` is check-then-append: a known email returns the record
    already there; a new email is appended as one line with id = count + 1.
  - The lookups by email and by id scan that parse.
  - `FileStorage` also keeps an in-memory user table (a `Map` plus the
    counter `userCurrentId`) and hands the subscriber operations on to the
    file.
  - The request logger cuts lines longer than 80 characters.
- **In-memory feedback store** (`vgriz/server.js`).
  - A `Map` from id to feedback record and the counter `feedbackCurrentId`,
    starting at 1.
  - POST validates the four fields and stores the record under
    `feedbackCurrentId++`.
  - GET lists all records, or the records of one category.
  - DELETE empties the map and keeps the counter.

Layout:

- `js_builtins.dfy` (`JsBuiltins`) models the JavaScript built-ins the stores
  rest on:
  - `String.prototype.trim` with ECMAScript's whitespace set;
  - `split` on one character, with its `Join` inverse;
  - `Array.prototype.find` and `filter`.
- `js_map.dfy` (`JsMap`) models a JavaScript `Map` as a value that remembers
  insertion order.
- `subscriber_file.dfy` (`SubscriberFile`) has two parts:
  - the parse, the lookups and `saveSubscriber` as functions of the file
    content, with their round-trip and distinctness lemmas;
  - the class `SubscribersFile`, whose field `file` is the file (absent, or
    its text) and whose methods change it as the source does.
- `storage.dfy` (`Storage`) has the class `FileStorage`, with the user table
  and the subscriber delegations.
- `request_log.dfy` (`RequestLog`) has the log-line truncation.
- `feedback_server.dfy` (`FeedbackServer`) has three parts:
  - the feedback store's state as a value and each handler as a function on
    it;
  - a trace lemma over any sequence of posts and clears;
  - the class `FeedbackStore`, whose methods update `feedbackItems` and
    `feedbackCurrentId` in place and are proved equal to those functions.

File-system faults are not hidden:

- each read and append takes an `IoOutcome` (`Succeeds` or `Throws`);
- the current time is a `now` parameter;
- timestamps are opaque string tokens.

The feedback store's validation lives in the POST handler, not in a separate
store layer. The model follows the code: `PostFeedback` rejects an
incomplete submission itself.

## Model

| member | source | states |
|---|---|---|
| JsBuiltins.Trim | familycabin/index.js:24 | `trim()` cuts a whitespace-only prefix and suffix and leaves a middle part that begins and ends in a non-whitespace character |
| JsBuiltins.TrimEmptyIffBlank | familycabin/index.js:24 | `content.trim()` is empty exactly when every character is ECMAScript whitespace |
| JsBuiltins.Split | familycabin/index.js:27-28 | `split(sep)` gives at least one part, no part holds the separator, and the first part is a prefix that ends where the first separator is |
| JsBuiltins.SplitThenJoin | familycabin/index.js:27 | joining the parts of a split with the separator gives the string back |
| JsBuiltins.JoinThenSplit | familycabin/index.js:27 | splitting the join of separator-free parts gives the parts back |
| JsBuiltins.SplitAround | familycabin/index.js:27 | a separator between two strings splits them independently |
| JsBuiltins.SplitWithoutSeparator | familycabin/index.js:28 | a string without the separator is a single part |
| JsBuiltins.SplitBlank | familycabin/index.js:24-27 | a whitespace-only string splits into whitespace-only parts |
| JsBuiltins.Find | familycabin/index.js:44 | `find` returns nothing exactly when no element matches, and otherwise the first match |
| JsBuiltins.Filter | familycabin/index.js:27 | `filter` keeps only elements satisfying the predicate and is empty when none does |
| JsBuiltins.FilterMembers | familycabin/index.js:27 | `filter` keeps every element of the input that satisfies the predicate and nothing else |
| JsBuiltins.FilterConcat | familycabin/index.js:27 | filtering a concatenation is concatenating the filters, so the relative order is kept |
| JsMap.OrderedMap.Get | familycabin/index.js:84 | `map.get(k)` finds exactly the keys that were set, and gives the value stored for the key |
| JsMap.OrderedMap.Set | vgriz/server.js:58 | `map.set(k, v)` makes `get(k)` give `v`, leaves other keys alone, and puts a new key last in iteration order |
| JsMap.OrderedMap.Values | vgriz/server.js:21 | `Array.from(map.values())` lists the value of each key in key insertion order |
| JsMap.Empty | vgriz/server.js:7 | `new Map()` has no key and no values |
| JsMap.SetNewKeyAppends | vgriz/server.js:58 | setting a key not yet present appends its value to `values()` |
| SubscriberFile.Prepared | familycabin/index.js:11-19 | after `ensureDataDirExists` the file holds its old content, or is empty when it was missing |
| SubscriberFile.PreparedIdempotent | familycabin/index.js:11-19 | `ensureDataDirExists` is idempotent: an absent file becomes empty, and an existing file keeps its content |
| SubscriberFile.SubscribersFile.EnsureDataDirExists | familycabin/index.js:11-19 | the file exists afterwards, holding its old content or nothing |
| SubscriberFile.ContentLineIsTrimTest | familycabin/index.js:27 | a line is kept exactly when `line.trim() !== ""`, that is, when it holds a character other than whitespace |
| SubscriberFile.EmailOf | familycabin/index.js:28 | the email is the text before the first comma, or the whole line when there is none |
| SubscriberFile.Number | familycabin/index.js:27-33 | the records are the parsed lines in order, with ids counted from the first id |
| SubscriberFile.BlankHasNoLines | familycabin/index.js:24-27 | a whitespace-only file has no non-blank line |
| SubscriberFile.ParseSubscribers | familycabin/index.js:24-34 | the records are the non-blank lines in file order, the i-th with id i + 1 |
| SubscriberFile.BlankParsesEmpty | familycabin/index.js:24-26 | empty or whitespace-only content parses to no records |
| SubscriberFile.TimestampOf | familycabin/index.js:28 | the timestamp is the second comma-separated field: the text after the first comma up to the next one, and empty for a line without a comma |
| SubscriberFile.ParseRecordLine | familycabin/index.js:28-32 | a line `email,stamp` with a non-empty stamp parses back to that email and stamp |
| SubscriberFile.ParseLineDefaults | familycabin/index.js:28-32 | the lines `email`, `email,` and `email,,rest` (no timestamp field, or an empty second field) read as the email with the current time |
| SubscriberFile.Listing | familycabin/index.js:20-38 | a read that throws lists no records; a successful read lists the parse of the file; either way the ids are the positions 1, 2, ... |
| SubscriberFile.SubscribersFile.GetSubscribers | familycabin/index.js:20-39 | the file is created if missing; the result is the parse, or no records when the read throws |
| SubscriberFile.FindByEmail | familycabin/index.js:65-68 | the lookup finds nothing exactly when no record has the email, and otherwise the first record with it |
| SubscriberFile.FindById | familycabin/index.js:69-72 | the lookup finds nothing exactly when no record has the id, and otherwise the first record with it |
| SubscriberFile.FindByIdIsPosition | familycabin/index.js:69-72 | ids are positions: record `id` is found exactly when `1 <= id <= count`, and it is the one in that position |
| SubscriberFile.FindByPosition | familycabin/index.js:69-72 | in a listing numbered by position, the lookup by id is indexing at `id - 1` within `1 .. count`, and nothing outside |
| SubscriberFile.FindByEmailIffRegistered | familycabin/index.js:66-67 | the lookup by email succeeds exactly when some line of the file carries the email |
| SubscriberFile.RecordLine | familycabin/index.js:53-57 | the appended line is complete (ends in a newline), and its first field is the email when the email has no comma |
| SubscriberFile.Save | familycabin/index.js:40-64 | the file only ever grows by the new line; a saved record has the given email; `WriteFailed` comes only from a failed append, and a failed append of a new email is always rethrown as `WriteFailed`, the file being left as it was (a partial write is not modelled) |
| SubscriberFile.SubscribersFile.SaveSubscriber | familycabin/index.js:40-64 | the new file content and the result are those of `Save` on the prepared file |
| SubscriberFile.SaveKnownEmail | familycabin/index.js:43-47 | saving an email already in the file returns the first record of the file with that email, with its position as id, and leaves the content unchanged |
| SubscriberFile.SaveTwiceSameRecord | familycabin/index.js:40-59 | saving a new email and then saving it again, at any later time, returns the same record with the same id and writes no second line |
| SubscriberFile.SecondSubscriber | familycabin/index.js:40-59 | a second, different email saved after the first one's line is appended after it with id 2 |
| SubscriberFile.SubscribeSequence | familycabin/index.js:40-59 | from an empty file, a first email gets id 1, saving it again gives id 1 and writes nothing, and a second email then gets id 2; the file holds one line each |
| SubscriberFile.SubscribeScenario | familycabin/index.js:40-59 | from an empty file, `a@x.com` gets id 1, saving it again gives id 1 and writes nothing, and `b@x.com` then gets id 2 |
| SubscriberFile.SaveNewAppends | familycabin/index.js:48-59 | saving a new email appends exactly `email,now\n` and returns id = previous count + 1 |
| SubscriberFile.AppendAddsOneLine | familycabin/index.js:53-58 | appending a record line to a file ending in a newline adds exactly that line to the non-blank lines |
| SubscriberFile.ParseAfterAppend | familycabin/index.js:27-58 | after the append, a read gives the old records unchanged followed by the new one with id count + 1 |
| SubscriberFile.SaveThenFind | familycabin/index.js:48-72 | after a new email is saved, both the lookup by email and the lookup by id find the saved record |
| SubscriberFile.EarlierRecordsDiffer | familycabin/index.js:43-49 | when the file lacks the email, no earlier record has that email or the id count + 1 |
| SubscriberFile.FoundOnlyAtEnd | familycabin/index.js:65-72 | a record appended after records that share neither its email nor its id is what both lookups find |
| SubscriberFile.EmailOfRecordLine | familycabin/index.js:53-57 | the email field of the appended line is the email written |
| SubscriberFile.AddLineKeepsEmailsDistinct | familycabin/index.js:43-58 | adding a line with an email not yet present keeps the emails distinct |
| SubscriberFile.AppendKeepsEmailsDistinct | familycabin/index.js:43-58 | appending the line of an unknown email keeps the emails in the file pairwise distinct |
| SubscriberFile.AppendEndsWithNewline | familycabin/index.js:53-57 | after an append the file's last line is complete |
| SubscriberFile.SaveKeepsEmailsDistinct | familycabin/index.js:43-59 | as long as its reads succeed, `saveSubscriber` keeps the emails in the file pairwise distinct and the last line complete |
| SubscriberFile.SaveAfterFailedRead | familycabin/index.js:35-59 | a read that throws inside `saveSubscriber` is swallowed, so the save appends and reports id 1 |
| SubscriberFile.ReadFailureDuplicatesEmail | familycabin/index.js:35-59 | so a known email can be written twice: the file then has duplicate emails, and the second line reads back as record 2 while the save reported id 1 |
| SubscriberFile.SubscribersFile.GetSubscriberByEmail | familycabin/index.js:65-68 | the result is the lookup by email on what `getSubscribers` returns |
| SubscriberFile.SubscribersFile.GetSubscriberById | familycabin/index.js:69-72 | the result is the lookup by id on what `getSubscribers` returns |
| Storage.EmptyUserTable | familycabin/index.js:78-81 | the fresh user table is well formed with next id 1 |
| Storage.AddUserKeepsTable | familycabin/index.js:91-96 | storing a user under the counter keeps the keys exactly 1 .. counter, appends it to `values()` and changes no other user |
| Storage.FindUserByName | familycabin/index.js:86-90 | `find` over the values of a user table gives nothing exactly when no user has the name, and otherwise the user with the name and the smallest id |
| Storage.FileStorage.constructor | familycabin/index.js:78-81 | a new storage has no users and `userCurrentId` = 1 |
| Storage.FileStorage.GetUser | familycabin/index.js:83-85 | a user is found exactly for the ids issued so far, and it is the user stored under that id (the id-th one created) |
| Storage.FileStorage.GetUserByUsername | familycabin/index.js:86-90 | nothing when no stored user has the name; otherwise the stored user with the name that was created first |
| Storage.FileStorage.CreateUser | familycabin/index.js:91-96 | the user gets the old counter as id, the counter goes up by one, the user is stored last and `getUser` finds it |
| Storage.FileStorage.GetSubscriber | familycabin/index.js:98-100 | hands the lookup by id on to the file |
| Storage.FileStorage.GetSubscriberByEmail | familycabin/index.js:101-103 | hands the lookup by email on to the file |
| Storage.FileStorage.CreateSubscriber | familycabin/index.js:104-106 | hands the save on to the file |
| Storage.FileStorage.GetAllSubscribers | familycabin/index.js:107-109 | hands the listing on to the file |
| RequestLog.TruncateLogLine | familycabin/index.js:314-316 | the logged line is at most 80 characters; a line is unchanged exactly when it is at most 80; a longer one becomes its first 79 characters and an ellipsis |
| RequestLog.TruncateIdempotent | familycabin/index.js:314-316 | truncating a truncated line changes nothing |
| FeedbackServer.Initial | vgriz/server.js:7-8 | the store starts empty with next id 1 |
| FeedbackServer.AllFeedback | vgriz/server.js:19-22 | list-all gives each stored record once, stored under its own id, in ascending id order |
| FeedbackServer.AllFeedbackCoversStore | vgriz/server.js:21 | every stored record is listed |
| FeedbackServer.FeedbackInCategory | vgriz/server.js:29-34 | the category listing gives only stored records of that category, in ascending id order |
| FeedbackServer.CategoryCoversStore | vgriz/server.js:32-33 | every stored record of the category is in the category listing |
| FeedbackServer.FilterKeepsAscending | vgriz/server.js:32-33 | the filter keeps the ascending id order of list-all |
| FeedbackServer.MissingFieldRejected | vgriz/server.js:46-50 | a submission is rejected with the store unchanged exactly when one of the four fields is absent or empty |
| FeedbackServer.PostFeedback | vgriz/server.js:41-65 | an incomplete submission is rejected and changes nothing; a complete one is stored under the old counter with the four fields, the counter goes up by one, it is appended to list-all, and no other entry changes |
| FeedbackServer.AddKeepsInvariant | vgriz/server.js:53-58 | storing a record under the counter and raising the counter keeps the invariant and appends the record to list-all |
| FeedbackServer.DeleteAll | vgriz/server.js:67-75 | clear empties list-all and keeps the counter |
| FeedbackServer.Run | vgriz/server.js:41-75 | any sequence of posts and clears keeps the store invariant and never lowers the counter |
| FeedbackServer.RunIssuesConsecutiveIds | vgriz/server.js:53 | over any mix of posts and clears, the ids created are exactly next id, next id + 1, ... in call order, so 1 .. N from the start and never reused |
| FeedbackServer.ClearThenPostExceeds | vgriz/server.js:53-70 | after a clear, the next created id is greater than every id stored before |
| FeedbackServer.PostAfterClear | vgriz/server.js:53-70 | a post after a clear gets the counter the clear left behind |
| FeedbackServer.TwoPostsListed | vgriz/server.js:19-61 | after a bug report and an idea are posted to a fresh store, list-all is the two records with ids 1 and 2, and the counter is 3 |
| FeedbackServer.TwoPostsBugListing | vgriz/server.js:29-34 | after those two posts, the "bug" listing is exactly the first record |
| FeedbackServer.BugIdeaScenario | vgriz/server.js:29-70 | posting a bug and an idea gives ids 1 and 2 and lists only the bug under "bug"; after a clear the bug report posted again gets id 3 |
| FeedbackServer.FeedbackStore.constructor | vgriz/server.js:7-8 | the store's variables start as the initial state |
| FeedbackServer.FeedbackStore.ListAll | vgriz/server.js:19-22 | GET `/feedbacks` answers list-all of the current state |
| FeedbackServer.FeedbackStore.ListCategory | vgriz/server.js:29-34 | GET `/feedbacks/category/:category` answers the category listing of the current state |
| FeedbackServer.FeedbackStore.Submit | vgriz/server.js:41-65 | the new variables and the answer are those of `PostFeedback`, and the invariant is kept |
| FeedbackServer.FeedbackStore.Clear | vgriz/server.js:67-75 | the new variables are those of `DeleteAll`, and the invariant is kept |

## Left out

- File-system calls are reduced to the file's content. `mkdirSync` and
  `writeFileSync` in `ensureDataDirExists` are taken to succeed. Only the
  read in `getSubscribers` and the append in `saveSubscriber` can fail, and
  the caller chooses whether they do.
- SubscriberFile.Save: an append that throws is taken to write nothing.
  A partial line left by a failing `appendFileSync` (a full disk, say) is
  not modelled; such a line would end the file without a newline, outside
  what `SaveKeepsEmailsDistinct` assumes.
- The `console.error` calls in the two `catch` blocks of `getSubscribers`
  and `saveSubscriber` are not modelled; only their effect on the result
  (an empty listing, a rethrown write error) is.
- FeedbackServer.RunIssuesConsecutiveIds: the counters are unbounded
  integers, while the source's are JavaScript numbers (doubles).
  `feedbackCurrentId++` (vgriz/server.js:53) stops increasing at 2^53, after
  which a post reuses id 2^53 and `feedbackItems.set` replaces the record
  stored under it; no such limit appears here, in `PostFeedback` or in
  `FeedbackStore.Submit`.
- Storage.FileStorage.CreateUser: the same holds for `userCurrentId++`
  (familycabin/index.js:92); past 2^53 the source would reuse an id and
  replace a user, which the model's unbounded counter never does.
- Dates are not parsed or formatted. The timestamp field is an opaque token,
  and the record keeps it as read; `new Date(timestamp)` of a malformed
  token is not modelled.
- One `now` is used per call. The source calls `new Date()` once per line
  that lacks a timestamp, and once more for a new subscriber.
- SubscriberFile.Save: the promise that a new record is found again holds
  only for an email without a comma or newline, written to a file that is
  empty or ends in a newline. These are the conditions `SaveThenFind` and
  `SaveNewAppends` state. Other emails are written as the source writes
  them, but no round trip is claimed for them.
- Request bodies are reduced to optional strings. A present field that is
  not a string (a number, `true`, an object) is not modelled; only absent
  and empty fields are falsy here.
- RequestLog.TruncateLogLine: counts characters (code points), while
  JavaScript's `length` and `slice` count UTF-16 code units. A line with
  characters outside the Basic Multilingual Plane is cut at a different
  place, and a surrogate pair may be split in the source.
- Building the log line and logging it are not modelled: the method, path,
  status and duration text, the `/api` prefix test, the JSON of the
  response, and `console.log` with its time of day.
- The HTTP layer is not modelled: Express routing, `res.status/json`, the
  500 answers of the `catch` blocks, and static serving.
- The 409 pre-check of the subscriber POST route is HTTP framing too. That
  route looks the email up before calling `saveSubscriber`
  (familycabin/index.js:145-151). The store's own dedup branch is what
  `SaveKnownEmail` covers.
- The Vite dev server, the drizzle table declarations and the zod schemas
  are library declarations. Email validity is left to the caller.
- `async` wrappers and concurrency are not modelled. Every operation runs
  to completion before the next one starts, as the synchronous file calls
  do.
