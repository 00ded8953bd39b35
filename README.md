# LINE bot subscriber registry, in Dafny

This project models the core of a LINE chat bot (`main.py`). The bot keeps
the ids of the users who follow it in a text file, `users.txt`, with one id
per line. It answers follow, unfollow and text-message events. It can also
broadcast a text to every stored id. The model covers four parts:

- **The subscriber store** (`registry.dfy`, on top of `linefile.dfy` and
  `pystr.dfy`).
  - A `SubscriberStore` class holds the raw lines of `users.txt`. These are
    the strings Python's text-mode file iterator yields, each keeping its
    '\n'.
  - `read_user_ids` strips every line (Python's full `str.isspace` set) and
    drops the blank ones.
  - `save_user_id` appends `user_id + "\n"` in append mode, but only when the
    id is not already read back. Appending writes after the current content,
    so an unterminated last line would be continued. `SplitLines(Join(ls) +
    text)` models exactly that.
  - `remove_user_id` drops the first occurrence, like `list.remove`, and
    rewrites the file line by line in a `while` loop.
- **The broadcast tally** (`broadcast.dfy`).
  - The guards come first: an empty text is refused before the store is
    read, and an empty store answers `total_users = 0` without sending.
  - The refusal is meant as a 400 error, but it does not reach the caller as
    one. The `HTTPException(400)` at main.py:185 is raised inside the `try`
    that opens at main.py:182. The `except Exception` at main.py:208 catches
    it and raises a 500 ("Error broadcasting: 400: Message text is
    required") instead. The model records only that the text is refused
    (`TextRequired`), before any read or push.
  - Then one pass over a snapshot of the ids. Each push is counted as a
    success or appended to `failed_users`.
  - The push transport is a function `string -> bool` supplied by the caller.
- **Event routing** (`router.dfy`).
  - Follow saves the id, then replies with the welcome text or the
    welcome-back text.
  - Unfollow removes the id and sends nothing.
  - A text message saves the sender, then classifies the stripped,
    lower-cased text in a fixed order: greeting words, then thanks words, then
    the substring "user id".
  - An unmatched text leaves `reply_text` unbound. The handler then raises
    after the save, and nothing is sent.
  - The reply texts are the source's own Thai and emoji strings.
- **Counting**: `home` and `get_user_count` report the length of
  `read_user_ids()`.

Each state-changing method states its whole new state as a function of the
old one (`Saved`, `Removed`, `AppendText`, `Render`). The lemmas prove what
the store promises about those functions:

- Saving a present id and removing an absent one are no-ops.
- Saving a new id appends exactly one line.
- Removing a present id rewrites the ids without that one, in order.
- Rewriting and then reading gives the same list back.
- No sequence of saves and removes introduces duplicates.
- The broadcast tally conserves the number of ids, and `failed_users` is the
  order-preserving list of the ids whose push failed.

`save_user_id` compares the raw id with the stripped ids it reads back. So an
id with surrounding whitespace is never found again, and every save appends
it once more. `SavePaddedIdTwice` proves this: saving " U1" twice makes
the ids read back hold "U1" twice. The ids the LINE platform delivers
carry no whitespace, so the no-duplicate lemmas are stated for plain ids
(`IsPlainId`).

A save also goes wrong on a file whose last line has no final '\n', for
example one edited by hand. Append mode continues that line, so a stored
id "U" becomes "U1" when "1" is saved. "1" is then still not read back, so
`save("1"); save("1")` reports a new id twice. `SaveOnUnterminatedLine`
proves this for any two distinct plain ids. Every file the store writes
itself ends in '\n': `SaveUserId` and `RemoveUserId` promise it. So this
can only start from a file the store did not write. For that reason the
"appends exactly one line", save-then-remove and save-side no-duplicate
lemmas require the file to end in '\n' (`EndsClean`). On the file "U"
above, saving "1" and then removing it reads back "U1", not "U".
`RemoveKeepsNoDuplicates` needs no such requirement.

## Model

| member | source | states |
|---|---|---|
| `PyStr.Indent` | main.py:66 | the count of leading whitespace: everything before it is whitespace and the character at it is not |
| `PyStr.TrimEnd` | main.py:66 | a prefix of the input whose removed tail is all whitespace and whose last character is not whitespace |
| `PyStr.Strip` | main.py:66 | `str.strip()`: the result is the slice at offset `Indent(s)`, everything outside it is whitespace, and it neither starts nor ends with whitespace |
| `PyStr.StripUnique` | main.py:66 | any split of a string into whitespace, a core not bounded by whitespace, and whitespace has that core as its stripped form |
| `PyStr.StripIdempotent` | main.py:66 | stripping twice is stripping once |
| `PyStr.StripPadded` | main.py:278 | surrounding whitespace does not change the stripped form |
| `PyStr.StripLower` | main.py:278-289 | stripping and lower-casing commute |
| `PyStr.ContainsAt` | main.py:289 | an occurrence at some offset makes `needle in haystack` true |
| `PyStr.ContainsSomewhere` | main.py:289 | when `needle in haystack` holds, the needle occurs at some offset (the converse of ContainsAt) |
| `LineFile.LineLength` | main.py:65-66 | the first line of a content runs up to and including its first '\n', or to the end when there is none |
| `LineFile.SplitLines` | main.py:65-66 | the lines the file iterator yields join back to the file content |
| `LineFile.SplitWellFormed` | main.py:65-66 | every yielded line is non-empty with '\n' only at its end, and all but the last end in '\n' |
| `LineFile.SplitJoin` | main.py:65-66 | splitting the content of any well-formed line sequence gives back that sequence |
| `LineFile.SplitAppend` | main.py:78-79 | content ending in '\n' splits independently of text appended after it |
| `LineFile.EndsCleanContent` | main.py:78-79 | the last line ends in '\n' exactly when the content is empty or ends in '\n' |
| `LineFile.AppendText` | main.py:78-79 | the lines after writing in append mode are well formed |
| `LineFile.AppendAfterClean` | main.py:78-79 | appending to a file that ends in '\n' keeps every present line and adds the lines of the text after them |
| `LineFile.SplitOneLine` | main.py:79 | `x + "\n"` with no '\n' inside `x` is exactly one line |
| `LineFile.AppendEndsClean` | main.py:79 | after appending text that ends in '\n', the file ends cleanly |
| `LineFile.ReadIds` | main.py:66 | `read_user_ids` returns at most one id per line |
| `LineFile.ReadIdsAppend` | main.py:66 | the read ids of two line blocks are the read ids of each, concatenated in file order |
| `LineFile.ReadIdsMembers` | main.py:66 | an id is read back exactly when it is non-empty and some line strips to it |
| `LineFile.StripLine` | main.py:66 | the stripped form of a line holds no '\n' |
| `LineFile.ReadIdsPlain` | main.py:66 | every id read from a well-formed file is non-empty, not bounded by whitespace, and free of '\n' |
| `LineFile.PlainIdIsStripped` | main.py:66 | a plain id is its own stripped form |
| `LineFile.ReadWrittenId` | main.py:79 | a plain id written as `x + "\n"` reads back as `x` |
| `LineFile.Render` | main.py:95-97 | the rewrite writes exactly one line per id |
| `LineFile.RenderWellFormed` | main.py:95-97 | the rewritten file is well formed, ends in '\n', and its i-th line is the i-th id followed by '\n' |
| `LineFile.RenderRead` | main.py:95-97 | rewriting plain ids and reading them back gives the same list, in the same order |
| `SubscriberRegistry.RemoveFirst` | main.py:94 | `list.remove`: unchanged when the id is absent, otherwise one element shorter, and it never adds an element |
| `SubscriberRegistry.RemoveFirstSplit` | main.py:94 | removing drops exactly the first occurrence and keeps everything before and after it, in order |
| `SubscriberRegistry.RemoveFirstNoDuplicates` | main.py:94 | in a duplicate-free list, removal leaves it duplicate-free and without the id |
| `SubscriberRegistry.RemoveFirstKeepsPlain` | main.py:94 | what removal leaves of plain ids are plain ids |
| `SubscriberRegistry.SubscriberStore.constructor` | main.py:52-59 | a store whose file does not exist yet starts empty, with no ids |
| `SubscriberRegistry.SubscriberStore.Open` | main.py:65 | a store opened on existing content holds that content's lines |
| `SubscriberRegistry.SubscriberStore.Append` | main.py:78-79 | an append-mode write leaves the lines `AppendText(old, text)` |
| `SubscriberRegistry.SubscriberStore.ReadUserIds` | main.py:61-70 | returns the read ids of the current lines, all plain, at most one per line |
| `SubscriberRegistry.SubscriberStore.UserCount` | main.py:174-177 | `total_users` of `get_user_count` and `home` is the number of ids read back |
| `SubscriberRegistry.SubscriberStore.SaveUserId` | main.py:72-87 | returns true exactly when the id was not read back. On false the lines are unchanged. On true the file then ends in '\n', and if it already did, exactly the line `userId + "\n"` is appended and a plain id is then read back at the end |
| `SubscriberRegistry.SubscriberStore.RemoveUserId` | main.py:89-105 | returns true exactly when the id was read back. On false the lines are unchanged. On true the ids read afterwards are the old ones with the first occurrence removed, and the file ends in '\n' |
| `SubscriberRegistry.SubscriberStore.Rewrite` | main.py:95-97 | the truncate-and-write loop leaves exactly `Render(users)`, well formed and ending in '\n' |
| `SubscriberRegistry.RenderWellFormedStep` | main.py:96-97 | one iteration of the rewrite loop adds one line to the rendered prefix |
| `SubscriberRegistry.SaveNewAppendsOnce` | main.py:77-81 | saving a new id to a file ending in '\n' appends exactly one line at the end, and a plain id is then read back last |
| `SubscriberRegistry.SaveTwice` | main.py:75-84 | `save(x); save(x)` on a fresh plain id: the second save finds the id and writes nothing, and the count grows by exactly one |
| `SubscriberRegistry.SaveOnUnterminatedLine` | main.py:75-79 | saving `x` onto a file whose only line `u` has no '\n' stores `u + x`, so `x` is still absent and a second save appends it again |
| `SubscriberRegistry.AppendOntoLine` | main.py:78-79 | text appended after an unterminated line continues that line |
| `SubscriberRegistry.SavePaddedIdTwice` | main.py:75-79 | an id with leading whitespace is not found by the next save, so after two saves the file reads back its stripped form twice |
| `SubscriberRegistry.RemovePresent` | main.py:92-99 | removing a present id leaves the file as the read ids without their first occurrence of it, other ids in order, blank lines gone, ending in '\n' |
| `SubscriberRegistry.SaveKeepsNoDuplicates` | main.py:75-79 | saving a plain id keeps a duplicate-free file duplicate-free |
| `SubscriberRegistry.RemoveKeepsNoDuplicates` | main.py:92-97 | removing any id from any duplicate-free file, ending in '\n' or not, keeps it duplicate-free and leaves the id absent; the result ends in '\n' when the id was present or the file already did |
| `SubscriberRegistry.SaveThenRemove` | main.py:72-105 | saving a new plain id to a file ending in '\n' and then removing it restores the ids read |
| `SubscriberRegistry.ApplyKeepsNoDuplicates` | main.py:72-105 | every sequence of saves of plain ids and removes keeps `read_user_ids()` duplicate-free |
| `Broadcast.FailedUsers` | main.py:194-198 | the failure list is no longer than the snapshot and holds only snapshot ids whose push failed |
| `Broadcast.SuccessCount` | main.py:194-196 | the success count is at most the number of ids |
| `Broadcast.TallyConservation` | main.py:200-205 | `success_count + failed_count == len(user_ids)` |
| `Broadcast.FailedUsersInOrder` | main.py:194-198 | `failed_users` is a subsequence of the snapshot, in encounter order |
| `Broadcast.FailedUsersComplete` | main.py:194-198 | every snapshot id whose push fails is in `failed_users` |
| `Broadcast.OutcomeAccounting` | main.py:191-205 | a completed broadcast reports `total_users == len(user_ids)`, conservation, order, and that an id is listed as failed exactly when it is in the snapshot and its push failed |
| `Broadcast.ThreeUsersOneFails` | main.py:191-205 | three subscribers with the second push failing give `total_users` 3, `success_count` 2 and `failed_users == [b]` |
| `Broadcast.PushAll` | main.py:191-198 | the loop pushes to every id once, in order, and its counter and list equal `SuccessCount` and `FailedUsers` of the snapshot |
| `Broadcast.BroadcastMessage` | main.py:180-206 | an empty text is refused with no push; an empty store answers `NoUsers` with no push; otherwise every id of one snapshot is pushed once, in order, and the tally above holds |
| `EventRouter.FollowReplyTellsNewUsers` | main.py:260-263 | the reply is the welcome text exactly when the save reported a new id, and the welcome-back text exactly when it did not |
| `EventRouter.HandleFollow` | main.py:250-265 | follow saves the id and replies with the welcome text exactly when the id was not read back before |
| `EventRouter.HandleUnfollow` | main.py:267-272 | unfollow performs `remove_user_id` and sends nothing |
| `EventRouter.HandleMessage` | main.py:274-293 | a text message saves the sender whatever the text, then replies by category (greeting, thanks, id query, in that order); the reply is missing exactly when the text is unmatched |
| `EventRouter.HandleEvent` | main.py:250-274 | each event kind goes to its handler: unfollow removes, follow and message save |
| `EventRouter.ClassifyIgnoresPadding` | main.py:278 | whitespace around a message does not change its category |
| `EventRouter.ClassifyIgnoresCase` | main.py:285-289 | messages equal up to ASCII case get the same category |
| `EventRouter.MentionIsIdQuery` | main.py:285-290 | a message that contains "user id" after normalisation is an id query, since no greeting or thanks word contains it |
| `EventRouter.ReplyNamesSender` | main.py:286-290 | the greeting and id-query replies contain the sender's id |
| `EventRouter.HelloIsGreeting` | main.py:278-286 | "  Hello " is a greeting, answered with the greeting text naming the user |

## Left out

- The FastAPI app, its routes, the HTTP status mapping and uvicorn startup
  (main.py:1-47, 141-246, 295-300) are web glue. This includes the 500 that
  the broadcast's `except` at main.py:208 makes of the 400 refusal at
  main.py:185. Only the broadcast guards and
  loop, and the count behind `home` and `get_user_count`, are modelled.
  `check_config`, `get_users` and `delete_user` only wrap the modelled
  operations.
- `send_reply_message` and `send_push_message` are network calls into the
  LINE SDK. A push is a caller-supplied outcome `string -> bool`, fixed for
  one broadcast. A reply is recorded as the `Action` a handler requests.
  Whether the platform accepts it has no effect on the handlers.
- Webhook signature checking and event decoding by `WebhookHandler` are a
  library this model cannot see. Events arrive already decoded as `Event`
  values.
- `ensure_users_file_exists` becomes the parameterless constructor: a missing
  file is an empty line sequence.
- The exception paths (main.py:68-70, 85-87, 103-105) are not modelled, so
  file operations never fail here. In the source, a failed read returns `[]`,
  and `save_user_id` would then append a duplicate.
- Python's universal-newline translation of '\r' and "\r\n" on reading is not
  modelled. Lines end at '\n' only. The plain-id lemmas (`RenderRead`,
  `SaveKeepsNoDuplicates`, `ApplyKeepsNoDuplicates` and the ones built on
  them) rely on this: `IsPlainId` admits an id with '\r' inside, such as
  "a\rb", which Python would read back as the two ids "a" and "b". The ids
  the LINE platform delivers are hexadecimal and hold no '\r'.
- `lower()` is modelled on the ASCII range only. Non-ASCII case mappings,
  such as the Kelvin sign lowering to 'k', are left out. The Thai words have
  no case.
- Logging, credential loading and unused imports are left out.
- Concurrency is left out. The source has no locking, and the store is
  modelled single-threaded.
- SubscriberRegistry.ApplyKeepsNoDuplicates: it covers only saves of plain
  ids (no surrounding whitespace, no '\n'), starting from a file that ends in
  '\n'. SavePaddedIdTwice shows that a padded id does create a duplicate, and
  SaveOnUnterminatedLine shows the same for a file left unterminated.
- SubscriberRegistry.SaveKeepsNoDuplicates: it also requires a plain id and a
  file that ends in '\n'. SavePaddedIdTwice and SaveOnUnterminatedLine show
  the duplicates that arise without either.
- SubscriberRegistry.SaveTwice: `save(x); save(x)` gives (true, false) and
  one more id only for a plain id on a file that ends in '\n'. On a file
  whose last line is unterminated, both saves return true
  (SaveOnUnterminatedLine).
- SubscriberRegistry.SubscriberStore.SaveUserId: the promise that exactly one
  line is appended holds only when the file ends in '\n' and the id has no
  '\n'. Otherwise the new lines are still stated exactly, as `AppendText`.
