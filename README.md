# notes-app: the note API handler in Dafny

The notes app is a small Java HTTP service that keeps notes in memory. Each note
has an id drawn from a process-wide counter, a text and a vote tally. One handler,
`Main.handleNotes`, serves everything under `/api/notes`:

- `GET /api/notes` lists the notes in insertion order.
- `POST /api/notes` with a JSON body `{"text": ...}` creates a note.
- `POST /api/notes/{id}/vote?type=up|down` moves a note's tally by one.
- `DELETE /api/notes/{id}` removes a note.

This project models that handler and the `Note` class, and proves what they promise.

Modules, one per file:

- `Wrappers` (`wrappers.dfy`): the `Option` type.
- `JavaLang` (`java_lang.dfy`): the Java library calls whose exact behaviour decides
  routing and query parsing.
  - `String.split` with a one-character pattern. It is written as the `indexOf` loop
    Java uses, followed by the removal of trailing empty pieces.
  - `equalsIgnoreCase`.
  - `Integer.parseInt` with its 32-bit range.
  - `Integer.toString`.
- `Notes` (`note.dfy`): `Note.java`. The static counter is a `NoteCounter` object that
  the constructor pre-increments (`id = ++counter`). A `Note` is a class with a
  constant id and mutable text and votes. `NoteJson` is the three-field JSON object
  of `getJSONObject`.
- `Api` (`api.dfy`): the handler as values.
  - `Route` maps a method and a path to an action.
  - `VoteType` is the query parser and `VoteDelta` reads the type it returns.
  - `CreateSpec`, `DeleteSpec`, `VoteWith`/`VoteSpec` and `HandleSpec` give the new
    store and the response for each action.
  - The store is a `State`: the notes as JSON values plus the counter. `Inv` is the
    invariant kept between requests: ids lie between 1 and the counter and increase
    along the list.
- `ApiProperties` (`api_lemmas.dfy`): the properties of these functions.
- `Store` (`store.dfy`): the store as the program keeps it. `NoteStore` is a class
  that holds a `seq<Note>` of mutable objects and the counter. `List`, `Find`,
  `Create`, `Delete`, `Vote` and `Handle` are methods with the source's loops.
  `ParseVoteType` is the query-parsing loop. Each method is proved to change the
  store exactly as the matching `Api` function says, and to keep `Inv`.

Behaviour follows the code:

- Deleting an id that no note has answers 500, not 404. `handleDeleteNote` ends in
  `sendStatus(exchange, 500)`.
- `/api/notes/3/` splits into four parts and reaches the delete branch, because
  `split` drops trailing empty strings.
- The router never checks the `api` and `notes` segments of an item path.
- A body that is not a JSON object, or whose `text` is not a string, throws before a
  note is constructed. So the answer is 500 and the counter does not move.
- A missing `text` key creates a note with `null` text.
- The vote handler looks the id up before it reads the type. So an unknown id gives
  404 even when the type is bad. Reading the query changes nothing, so `VoteSpec`
  may parse it before the lookup.

## Model

| member | source | states |
|---|---|---|
| JavaLang.DropTrailingEmpty | src/main/java/com/example/notes/Main.java:68 | the result is a prefix of the pieces, ends in a non-empty piece or is empty, and only empty pieces were dropped |
| JavaLang.Split | src/main/java/com/example/notes/Main.java:68 | a string without the delimiter comes back whole as the only piece, so "" gives [""] |
| JavaLang.EqualsIgnoreCase | src/main/java/com/example/notes/Main.java:55 | two strings are equal ignoring case exactly when they have the same length and agree letter by letter after ASCII lower-casing |
| JavaLang.RawSplitPiecesFree | src/main/java/com/example/notes/Main.java:68 | no piece of a split holds the delimiter |
| JavaLang.SplitPieces | src/main/java/com/example/notes/Main.java:68 | no piece of `split` holds the delimiter, and the last piece is empty only when the string is empty |
| JavaLang.JoinRawSplit | src/main/java/com/example/notes/Main.java:68 | joining the pieces with the delimiter gives back the string |
| JavaLang.RawSplitJoin | src/main/java/com/example/notes/Main.java:68 | splitting a join of delimiter-free pieces gives back the pieces |
| JavaLang.SplitJoin | src/main/java/com/example/notes/Main.java:68 | `split` gives back two or more delimiter-free pieces joined with the delimiter when the last piece is not empty |
| JavaLang.RawSplitAppend | src/main/java/com/example/notes/Main.java:154 | a delimiter between two strings splits into the pieces of the left followed by those of the right |
| JavaLang.TrailingDelimiterIgnored | src/main/java/com/example/notes/Main.java:68 | a trailing delimiter does not change `split` of any non-empty string |
| JavaLang.ParseInt | src/main/java/com/example/notes/Main.java:71 | a parsed id is a 32-bit integer from an optional sign and at least one digit; "", "-" and "+" throw; which value it is, is pinned by the four lemmas below |
| JavaLang.ParseIntToString | src/main/java/com/example/notes/Main.java:77 | every 32-bit id printed in decimal parses back to itself and holds no `/` |
| JavaLang.ParseIntOutOfRange | src/main/java/com/example/notes/Main.java:71 | a numeral outside the 32-bit range, such as "2147483648", throws |
| JavaLang.DigitsValueLeadingZero | src/main/java/com/example/notes/Main.java:71 | a leading zero keeps a digit string all digits and does not change its value |
| JavaLang.ParseIntPadding | src/main/java/com/example/notes/Main.java:77 | a `+` sign or a leading zero changes nothing ("+7" and "007" give 7), and neither does a zero after `-` |
| JavaLang.ParseIntNegativeZero | src/main/java/com/example/notes/Main.java:77 | "-0" parses to 0 |
| Notes.NoteCounter.constructor | src/main/java/com/example/notes/Note.java:6 | the counter starts at 0 |
| Notes.Note.constructor | src/main/java/com/example/notes/Note.java:12-16 | the counter goes up by one, the id is its new value, the text is the given one, and votes are 0 |
| Notes.Note.SetText | src/main/java/com/example/notes/Note.java:30-32 | only the text changes |
| Notes.Note.Upvote | src/main/java/com/example/notes/Note.java:34-36 | votes go up by exactly one; id and text stay |
| Notes.Note.Downvote | src/main/java/com/example/notes/Note.java:38-40 | votes go down by exactly one with no floor; id and text stay |
| Notes.UpvoteThenDownvote | src/main/java/com/example/notes/Note.java:34-40 | an upvote then a downvote leave the note's JSON object as it was |
| Notes.Note.Json | src/main/java/com/example/notes/Note.java:42-48 | the object holds exactly the note's id, text and votes |
| Api.Route | src/main/java/com/example/notes/Main.java:42-88 | a rejected request fails only with 404, 405 or 500; CollectionOnly, DeleteRoute, VoteRoute and OtherShapesNotFound state each route, and the 404 catch-all, over every path |
| Api.VoteType | src/main/java/com/example/notes/Main.java:150-161 | a null query has no type, and a type found is never empty and holds no `=` |
| Api.LastSomeIn | src/main/java/com/example/notes/Main.java:155-160 | the value the loop keeps is one of the values the pairs gave |
| Api.VoteDelta | src/main/java/com/example/notes/Main.java:163-170 | the tally goes up by one exactly for "up" in any case, down by one exactly for "down" in any case, and for any other or a null type nothing moves |
| Api.BodyText | src/main/java/com/example/notes/Main.java:109-110 | the cast succeeds exactly for a JSON object whose text is a string or absent, and an absent text gives `null` |
| Api.CreateSpec | src/main/java/com/example/notes/Main.java:104-111 | create answers 200 or 500, 500 exactly when the body has no usable text and then with the store unchanged; on 200 the counter and the list each grow by one |
| Api.DeleteSpec | src/main/java/com/example/notes/Main.java:125-135 | delete answers 204 exactly when some note has the id and 500 otherwise with the store unchanged; the counter stays and the list shrinks by one on 204 |
| Api.VoteWith | src/main/java/com/example/notes/Main.java:140-171 | a vote answers 404 exactly when no note has the id and 400 exactly when one does but the type is bad, and then changes nothing; the counter and the number of notes stay |
| Api.VoteSpec | src/main/java/com/example/notes/Main.java:140-171 | a vote answers 200, 400 or 404, and 200 exactly when a note has the id and the type is "up" or "down" in any case |
| Api.Dispatch | src/main/java/com/example/notes/Main.java:54-80 | a list or a failed route leaves the store unchanged and a failure answers its status; only create moves the counter, and never down |
| Api.HandleSpec | src/main/java/com/example/notes/Main.java:42-88 | every request answers 200, 204, 400, 404, 405 or 500; a rejected route changes nothing; the counter never goes down |
| Api.IndexOfId | src/main/java/com/example/notes/Main.java:183-190 | the index found holds the id and no earlier note does; none is found only when no note has the id |
| ApiProperties.CollectionPathParts | src/main/java/com/example/notes/Main.java:67-68 | `/api/notes` splits into "", "api", "notes" |
| ApiProperties.CollectionOnly | src/main/java/com/example/notes/Main.java:54-63 | list happens exactly for the collection path with GET in any case; create exactly for it with POST and not GET; any other method there gives 405 |
| ApiProperties.CollectionWithSlashNotFound | src/main/java/com/example/notes/Main.java:54-83 | `/api/notes/` is 404 for every method |
| ApiProperties.DeleteRoute | src/main/java/com/example/notes/Main.java:76-83 | a four-part path is a delete on DELETE in any case, 500 for a bad id, else 404, whatever its second and third parts are |
| ApiProperties.VoteRoute | src/main/java/com/example/notes/Main.java:68-74 | a five-part path is a vote exactly when the last part is "vote" in any case and the method is POST, 500 for a bad id, else 404 |
| ApiProperties.OtherShapesNotFound | src/main/java/com/example/notes/Main.java:68-83 | a path of `/`-free segments after the leading `/` is 404 for every method when it has one, two or more than four segments and is not the collection path |
| ApiProperties.NotFoundByShape | src/main/java/com/example/notes/Main.java:68-83 | off the collection path, a path that splits into neither four nor five parts is 404 |
| ApiProperties.SlashPathParts | src/main/java/com/example/notes/Main.java:67-68 | a leading `/` followed by `/`-joined segments splits into "" and those segments, and is the collection path only for "api", "notes" |
| ApiProperties.TrailingSlashIgnored | src/main/java/com/example/notes/Main.java:68 | a trailing slash changes the route of no path except the collection path |
| ApiProperties.DeletePrintedId | src/main/java/com/example/notes/Main.java:76-78 | `DELETE /api/notes/{id}` with any 32-bit id printed in decimal deletes that id |
| ApiProperties.VotePrintedId | src/main/java/com/example/notes/Main.java:70-72 | `POST /api/notes/{id}/vote` with any 32-bit id printed in decimal votes on that id |
| ApiProperties.NonIntegerIdRoutes | src/main/java/com/example/notes/Main.java:70-87 | an id segment that is not an int makes both item routes fail with 500 |
| ApiProperties.RejectedChangesNothing | src/main/java/com/example/notes/Main.java:82-87 | a rejected request answers its status and leaves the store unchanged |
| ApiProperties.NonIntegerIdFails | src/main/java/com/example/notes/Main.java:70-87 | a non-integer id answers 500 on delete and vote and leaves the store unchanged |
| ApiProperties.LastSomeFound | src/main/java/com/example/notes/Main.java:155-160 | the loop's result is v exactly when some pair gives v and no later pair gives a value |
| ApiProperties.LastSomeAbsent | src/main/java/com/example/notes/Main.java:150-161 | the loop's result is null exactly when no pair gives a value |
| ApiProperties.VoteTypeIsLastTypePair | src/main/java/com/example/notes/Main.java:150-161 | the vote type is the value of the last two-piece pair keyed "type", and there is none when no pair qualifies |
| ApiProperties.TypePair | src/main/java/com/example/notes/Main.java:156-158 | `type=v` gives v |
| ApiProperties.SingleTypePair | src/main/java/com/example/notes/Main.java:150-161 | the query `type=v` has vote type v |
| ApiProperties.LastTypeWins | src/main/java/com/example/notes/Main.java:154-160 | a `type` pair at the end of any query decides the vote type |
| ApiProperties.EmptyValueIgnored | src/main/java/com/example/notes/Main.java:156-157 | a pair `key=` never gives a type, whatever its key |
| ApiProperties.TrailingEqualsIgnored | src/main/java/com/example/notes/Main.java:156-157 | `type=v=` still counts as v, since the trailing empty piece is dropped |
| ApiProperties.SingleTypeVote | src/main/java/com/example/notes/Main.java:150-170 | the query `type=v` votes up exactly when v is "up" in any case, down exactly when it is "down", and is a bad request for every other v |
| ApiProperties.IndexOfFirst | src/main/java/com/example/notes/Main.java:183-190 | a note with the id and none before it is the one found |
| ApiProperties.IndexOfUniqueId | src/main/java/com/example/notes/Main.java:183-190 | with the invariant, the note with the id is the one found |
| ApiProperties.CreateAppends | src/main/java/com/example/notes/Main.java:104-111 | a usable body appends one note at the end with the next id, the given text and no votes, keeps the earlier notes, answers that note and keeps the invariant; otherwise 500 and nothing changes |
| ApiProperties.DeleteRemoves | src/main/java/com/example/notes/Main.java:125-135 | delete removes exactly the note with the id, keeps the others in order, answers 204, and leaves no note with the id; a missing id answers 500 and changes nothing |
| ApiProperties.DeleteAt | src/main/java/com/example/notes/Main.java:126-131 | deleting the note at k keeps the rest in order and keeps the invariant |
| ApiProperties.VoteUnknownId | src/main/java/com/example/notes/Main.java:142-146 | an unknown id answers 404 and changes nothing, whatever the query |
| ApiProperties.VoteOnNote | src/main/java/com/example/notes/Main.java:163-171 | on a found note, no type answers 400 and changes nothing; a type moves only that note's votes and answers the changed note |
| ApiProperties.UpThenDownWith | src/main/java/com/example/notes/Main.java:163-166 | an up vote then a down vote on the same id restore the store |
| ApiProperties.UpThenDownRestores | src/main/java/com/example/notes/Main.java:140-171 | the same for any two queries that mean up and down |
| ApiProperties.CreateKeepsIds | src/main/java/com/example/notes/Note.java:13 | create keeps the invariant and brings in only an id above the counter |
| ApiProperties.VoteKeepsIds | src/main/java/com/example/notes/Main.java:163-171 | voting keeps the invariant, does not lower the counter and brings in no id the store did not hold |
| ApiProperties.DeleteKeepsIds | src/main/java/com/example/notes/Main.java:125-135 | delete keeps the invariant, does not lower the counter and brings in no id the store did not hold |
| ApiProperties.HandleKeepsIds | src/main/java/com/example/notes/Main.java:42-88 | every request keeps the invariant, never lowers the counter, and brings in only fresh ids |
| ApiProperties.IdsNeverReused | src/main/java/com/example/notes/Note.java:6-13 | over any run of requests the counter never decreases and an issued id that is gone never comes back |
| ApiProperties.CreatesListInOrder | src/main/java/com/example/notes/Main.java:90-111 | n creates from an empty store give ids 1..n with the given texts, and a list returns them in creation order |
| ApiProperties.NoteOnePaths | src/main/java/com/example/notes/Main.java:68-80 | `/api/notes/1/vote` on POST votes on 1 and `/api/notes/1` on DELETE deletes 1 |
| ApiProperties.SessionCreate | src/main/java/com/example/notes/Main.java:104-111 | creating "buy milk" in an empty store answers note 1 with no votes |
| ApiProperties.TypeUpIsUpvote | src/main/java/com/example/notes/Main.java:150-164 | `type=up` is one vote up |
| ApiProperties.UpvoteBuyMilk | src/main/java/com/example/notes/Main.java:163-180 | an up vote on note 1 answers it with one vote |
| ApiProperties.SessionVote | src/main/java/com/example/notes/Main.java:140-181 | `POST /api/notes/1/vote?type=up` answers note 1 with one vote |
| ApiProperties.DeleteBuyMilk | src/main/java/com/example/notes/Main.java:125-131 | deleting the only note empties the store and answers 204 |
| ApiProperties.SessionDelete | src/main/java/com/example/notes/Main.java:125-131 | `DELETE /api/notes/1` answers 204 and empties the store |
| ApiProperties.SessionList | src/main/java/com/example/notes/Main.java:90-94 | listing an empty store answers an empty array |
| ApiProperties.BuyMilkSession | src/main/java/com/example/notes/Main.java:42-88 | create, up-vote, delete and list answer note 1 with 0 votes, note 1 with 1 vote, 204, and an empty list |
| Store.ParseVoteType | src/main/java/com/example/notes/Main.java:150-161 | the parsing loop computes `VoteType` |
| Store.NoteStore.constructor | src/main/java/com/example/notes/Main.java:19 | the store starts empty with the counter at 0 |
| Store.NoteStore.List | src/main/java/com/example/notes/Main.java:90-94 | the list is the JSON objects of all notes in store order |
| Store.NoteStore.Find | src/main/java/com/example/notes/Main.java:183-190 | the note returned is the first with the id, and null exactly when none has it |
| Store.NoteStore.Create | src/main/java/com/example/notes/Main.java:104-111 | the store and the answer are as `CreateSpec` says; the invariant holds |
| Store.NoteStore.Delete | src/main/java/com/example/notes/Main.java:125-135 | the store and the answer are as `DeleteSpec` says; the invariant holds |
| Store.NoteStore.Vote | src/main/java/com/example/notes/Main.java:140-171 | the store and the answer are as `VoteSpec` says; the invariant holds |
| Store.NoteStore.ApplyVote | src/main/java/com/example/notes/Main.java:163-180 | upvote or downvote on the found note changes only that note and answers it |
| Store.NoteStore.Handle | src/main/java/com/example/notes/Main.java:42-88 | the store and the answer are as `HandleSpec` says; the invariant holds |

## Left out

- The HTTP server, static file serving and the port (Main.java:21-33): these are I/O set-up.
- Writing responses (`sendResponseHeaders`, the output stream, `close`, `printStackTrace`). A response is modelled as a status and a payload value.
- json-simple's parsing and printing. A create body is a `Body` value: not an object, or an object whose `text` is a string, missing or null, or of another type. A printed note is its `NoteJson` value.
- URI decoding by `getPath` and `getQuery`. The model takes the decoded path and query, with `None` for an absent query.
- Concurrency: the list and the counter are unsynchronised. The model is a single-threaded store, and `Run` applies requests one after the other.
- The getters of `Note`. They are reads of the fields and the model reads the fields.
- Notes.Note.constructor: does not model 32-bit wrap-around of `++counter`, because the model's integers are unbounded. After 2^31 - 1 creates Java would wrap to a negative id.
- Notes.Note.Upvote: does not model 32-bit wrap-around of `votes++`, because the model's integers are unbounded.
- Notes.Note.Downvote: does not model 32-bit wrap-around of `votes--`, because the model's integers are unbounded.
- JavaLang.EqualsIgnoreCase: folds ASCII letters only. Java also matches some non-ASCII characters with ASCII letters: U+017F with "s", U+212A with "k", and U+0130 and U+0131 with "i". So `"PO\u017FT".equalsIgnoreCase("POST")` holds in Java and not in the model. The JDK server reads the request method one byte per character, so no such character reaches `method`. The path and query words ("vote", "type", "up", "down") contain no s, k or i. The difference therefore cannot change a route or a vote.
- JavaLang.ParseInt: accepts ASCII digits only. Java's `Character.digit` also accepts other Unicode decimal digits.
