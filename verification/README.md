# Social-media backend: account and message store with its request handlers

This project models, in Dafny, the decision logic of a small social-media
backend written in Java: an account table and a message table behind two
data-access objects (`AccountDAO`, `MessageDAO`), and the handlers of
`SocialMediaController` that accept or reject registrations, logins and
message requests and choose the HTTP status they answer with.

- `model.dfy` (module `Model`): the two row types, `Account(id, username,
  password)` and `Message(id, postedBy, text, epoch)`, and `Option`, which
  stands for a Java reference that may be `null`.
- `accounts.dfy` (module `Accounts`): class `AccountDAO` whose field `rows`
  is the `account` table. Each method stands for one SQL statement. The
  INSERT appends a row under a generated key. Each SELECT returns a filter
  of `rows`, and `SELECT exists(...)` is a membership test. The meaning of
  each statement is a function on the rows (`FindByUsername`, `Usernames`),
  and lemmas state what those functions promise.
- `messages.dfy` (module `Messages`): class `MessageDAO` over the `message`
  table, in the same style. The INSERT, DELETE and UPDATE statements
  reassign `rows`, and the DELETE and UPDATE report `rowsAffected > 0`. The
  table functions are `FindById`, `ByAuthor`, `Without` (the table after a
  DELETE) and `Replaced` (the table after an UPDATE).
- `controller.dfy` (module `Controller`): class `SocialMediaController`
  holding both DAOs. Each handler is a method that takes the parsed request
  and returns the `Response` (status and JSON body) it sets. Client
  methods at the end check scenarios: registering twice, a duplicate
  stored after a failed check, deleting twice, an update leaving other
  keys' lookups alone, and an empty text stored by an update.

Generated keys are a counter `nextId` kept above every stored key. Each
DAO's `Valid()` says that the keys are distinct and below the counter, so a
newly inserted row gets a key no existing row has.

Every DAO method opens its own connection and runs one SQL statement. Any
statement may raise an `SQLException`, which the method catches. Whether a
call's statement runs without that error is an input of the call (`sqlOk`),
so one statement can fail while the next succeeds. A failed statement has
no effect on the table, and the method returns what the Java code returns
after catching the exception:
- the inserts and lookups return `null`;
- the existence checks, the delete and the update return `false`;
- the list queries return an empty list.

Consequences, modelled as written:
- `accountExists(String)` answers `false` both for "no such name" and for a
  failed query. The registration handler reads `false` as "name free"
  (`SocialMediaController.java:47`) and then runs the insert on a
  connection of its own. When the check fails and the insert succeeds, a
  second row with an existing username is stored. Usernames stay unique
  only when the check ran (see "## Findings").
- When the insert fails, registration still answers 200, with the text
  `null` as its body (`SocialMediaController.java:50`), and adds no row.
- Message creation (`SocialMediaController.java:92-94`) and login
  (`SocialMediaController.java:71`) pass the object they got straight to
  `ctx.json`. When that object is `null` (a failed insert, or a lookup
  that finds nothing), `ctx.json` rejects it and the request answers 500.

The login handler calls `validateUser`, which the Java service layer does
not define. The model passes it in as a function parameter and does not
invent a password rule. The service classes only forward to the DAOs, so the
handlers call the DAO methods directly.

The code departs from its own requirement comments in two places. The
model follows the code:
- Lines 113-117 of `SocialMediaController.java` say that a lookup by id
  always answers 200, with an empty body when the message is missing.
  Lines 126-133 answer 400 for a missing message.
- Line 80 says a message is created only if its text "is not blank". Line
  89 tests only `length() > 0`, so a text of spaces is accepted.

Two more behaviours of the handlers, also modelled as written:
- The delete handler (lines 140-147) answers 400 for a missing message.
  So a repeated delete is not answered the same way as the first.
- The update handler (lines 151-166) does no text-length check: an empty
  or over-long text is stored when the key exists. It also replaces
  `time_posted_epoch` with the body's value.

## Model

| member | source | states |
|---|---|---|
| `Accounts.FindByUsername` | src/main/java/DAO/AccountDAO.java:77-86 | the row found has the requested username and is in the table; nothing is found exactly when no row has that username |
| `Accounts.FindByUsernameUnique` | src/main/java/DAO/AccountDAO.java:77-86 | when usernames are distinct, the lookup by username returns exactly the row carrying it |
| `Accounts.Usernames` | src/main/java/DAO/AccountDAO.java:50-55 | one username per row, in row order: the list is as long as the table and its i-th entry is row i's username (empty for an empty table) |
| `Accounts.AppendFreshUsername` | src/main/java/Controller/SocialMediaController.java:46-49 | appending an account whose username is not yet present keeps usernames pairwise distinct |
| `Accounts.AccountDAO.InsertAccount` | src/main/java/DAO/AccountDAO.java:13-43 | when the statement runs: returns an account with the given username and password and a key no existing row has, and the table gains exactly that row; on a storage error: returns null and the table is unchanged |
| `Accounts.AccountDAO.GetAllUsernames` | src/main/java/DAO/AccountDAO.java:46-70 | returns the username of every row in order (the loop's invariant keeps the prefix read so far); empty, not null, on a storage error; reads only |
| `Accounts.AccountDAO.GetAccountByUsername` | src/main/java/DAO/AccountDAO.java:73-101 | returns a row with that username (its key and password) if one exists, otherwise null; null on a storage error; reads only |
| `Accounts.AccountDAO.AccountExistsByUsername` | src/main/java/DAO/AccountDAO.java:103-136 | true iff the query runs and some row has the username; a failed query also answers false, the same answer as "no such name"; reads only |
| `Accounts.AccountDAO.UsernameMayBeTaken` | src/main/java/DAO/AccountDAO.java:103-136 | the same existence query with a failure read as "taken": false iff the query runs and no row has the username |
| `Accounts.AccountDAO.AccountExistsById` | src/main/java/DAO/AccountDAO.java:164-197 | true iff the query runs and some row has that account key; false on a storage error; reads only |
| `Messages.FindById` | src/main/java/DAO/MessageDAO.java:126-135 | the row found has the requested key and is in the table; nothing is found exactly when no row has that key |
| `Messages.FindByIdUnique` | src/main/java/DAO/MessageDAO.java:126-135 | with distinct keys, the lookup by key returns exactly the row carrying it |
| `Messages.ByAuthor` | src/main/java/DAO/MessageDAO.java:155-164 | exactly the rows whose author is the argument, each as often as it is stored: a row by that author occurs in the result as many times as in the table, any other row not at all |
| `Messages.Without` | src/main/java/DAO/MessageDAO.java:77-80 | the table after a delete holds exactly the old rows whose key differs from the argument |
| `Messages.WithoutCount` | src/main/java/DAO/MessageDAO.java:80-81 | a delete removes exactly one row when the key exists and none otherwise, so `rowsAffected > 0` iff the key existed |
| `Messages.WithoutKeysValid` | src/main/java/DAO/MessageDAO.java:77-80 | a delete keeps the message keys distinct and below the next generated key |
| `Messages.WithoutAbsent` | src/main/java/DAO/MessageDAO.java:77-81 | deleting an absent key leaves the table unchanged, so a second delete of the same key changes nothing |
| `Messages.Replaced` | src/main/java/DAO/MessageDAO.java:100-106 | an update keeps the table's length and every row's key and author; the rows with the key get the new text and epoch; all other rows are untouched |
| `Messages.ReplacedAbsent` | src/main/java/DAO/MessageDAO.java:100-107 | updating an absent key leaves the table unchanged |
| `Messages.FindByIdAfterReplaced` | src/main/java/DAO/MessageDAO.java:100-107 | an update of key k does not change what the lookup of any other key finds |
| `Messages.FindByIdAfterReplacedSame` | src/main/java/DAO/MessageDAO.java:100-107 | after an update of an existing key, the lookup of that key finds the old row with the new text and epoch |
| `Messages.MessageDAO.AddMessage` | src/main/java/DAO/MessageDAO.java:13-42 | when the statement runs: returns a message with a key no existing row has and the argument's author, text and epoch, and the table gains exactly that row; on a storage error: returns null and the table is unchanged |
| `Messages.MessageDAO.GetAllMessages` | src/main/java/DAO/MessageDAO.java:45-71 | returns every row in order (loop invariant: the prefix read so far); an empty list, never null, when the table is empty or the query fails; reads only |
| `Messages.MessageDAO.DeleteMessage` | src/main/java/DAO/MessageDAO.java:74-94 | returns true iff the statement runs and a row with the key existed; afterwards no row has the key and the table is the old one without it; keys stay valid |
| `Messages.MessageDAO.UpdateMessage` | src/main/java/DAO/MessageDAO.java:97-120 | returns true iff the statement runs and a row with the argument's key exists; the table becomes the old one with that row's text and epoch replaced |
| `Messages.MessageDAO.GetMessageById` | src/main/java/DAO/MessageDAO.java:123-148 | returns the row with that key if present, otherwise null; null on a storage error; reads only |
| `Messages.MessageDAO.GetMessagesByUser` | src/main/java/DAO/MessageDAO.java:151-177 | returns exactly the rows by that author, each carrying the argument as author (loop invariant over the prefix read); empty for an unknown author or a failed query; reads only |
| `Controller.MessageLengthBoundary` | src/main/java/Controller/SocialMediaController.java:89-90 | a 255-character text by an existing author is accepted; empty text, 256-character text, or an unknown author is rejected; a text of three spaces is accepted |
| `Controller.SocialMediaController.AddAccountHandler` | src/main/java/Controller/SocialMediaController.java:41-58 | 200 iff the password has at least 4 characters, the username is non-empty and the existence query does not report the name (a failed query reports nothing); then the new account (fresh key) is the body and the only added row, or `null` and no row when the insert fails; otherwise 400, no body, table unchanged; distinct usernames stay distinct when the query ran |
| `Controller.SocialMediaController.AddAccountHandlerFailClosed` | src/main/java/Controller/SocialMediaController.java:46-57 | registration that reads a failed existence query as "taken": 200 iff the lengths are valid, the query runs and no row has the name; distinct usernames stay distinct whichever statement fails |
| `Controller.SocialMediaController.GetLoginHandler` | src/main/java/Controller/SocialMediaController.java:61-77 | 401 with no body iff `validateUser` rejects; otherwise 200 with the account found by username, or 500 when the lookup returns `null`; the store is never modified |
| `Controller.SocialMediaController.AddMessageHandler` | src/main/java/Controller/SocialMediaController.java:83-100 | 400 with no body iff the text length is outside 1 to 255 or the author query does not find `posted_by`; otherwise 200 with the new message (fresh key) as body and the only added row, or 500 and no row when the insert fails |
| `Controller.SocialMediaController.GetAllMessagesHandler` | src/main/java/Controller/SocialMediaController.java:106-111 | always 200 with every stored message (empty list when none) |
| `Controller.SocialMediaController.GetMessageByIdHandler` | src/main/java/Controller/SocialMediaController.java:118-134 | 200 with the stored message iff a row with the key exists and the query runs, otherwise 400 with no body |
| `Controller.SocialMediaController.DeleteMessageHandler` | src/main/java/Controller/SocialMediaController.java:137-148 | 200 with no body iff a row was deleted, otherwise 400 with the error text; the table loses exactly the rows with the key |
| `Controller.SocialMediaController.UpdateMessageHandler` | src/main/java/Controller/SocialMediaController.java:151-167 | uses the path key, not the body's; 200 iff a row with that key exists, whatever the text's length; the row's text and epoch become the body's, all else unchanged; otherwise 400 |
| `Controller.SocialMediaController.GetMessagesByUserHandler` | src/main/java/Controller/SocialMediaController.java:170-176 | always 200 with exactly the stored messages by that author, with multiplicity and in storage order (empty for an unknown author) |
| `Controller.RegisterTwice` | src/main/java/Controller/SocialMediaController.java:46-57 | registering a fresh valid username twice: the first request gets 200 with an account, the second 400 with no body |
| `Controller.DuplicateAfterFailedCheck` | src/main/java/Controller/SocialMediaController.java:46-49 | registering `alice` again while the existence query fails and the insert succeeds leaves two `alice` rows |
| `Controller.DeleteTwice` | src/main/java/Controller/SocialMediaController.java:137-148 | deleting the same key twice, the first delete running: the second request answers 400 and the table is what the first delete left |
| `Controller.UpdateKeepsOtherLookups` | src/main/java/Controller/SocialMediaController.java:151-166 | an update of key k, successful or not, leaves the lookup response for every other key unchanged |
| `Controller.UpdateStoresEmptyText` | src/main/java/Controller/SocialMediaController.java:151-166 | an empty text sent to an existing key answers 200, and the next lookup returns that row with the empty text and the new epoch |

## Findings

| source | as written | input that shows it | evidently intended | confidence | as-written member | corrected member |
|---|---|---|---|---|---|---|
| src/main/java/Controller/SocialMediaController.java:46-49 | a failed username query answers `false` (src/main/java/DAO/AccountDAO.java:123-135), which the handler reads as "name free" before inserting | the table holds `alice`; a second registration of `alice` whose existence query fails and whose insert succeeds | usernames stay unique: a failed check rejects the registration | not executed | `Controller.DuplicateAfterFailedCheck` | `Controller.SocialMediaController.AddAccountHandlerFailClosed` |

## Left out

- HTTP routing (`startAPI`), JSON parsing and serialisation, and console logging are not modelled. A handler takes the parsed request and returns its status and body. A registration or message-creation request whose JSON lacks the username, password or text is not modelled; those handlers call `length()` on the missing value and raise. An update request whose JSON lacks `message_text` is not modelled either: the update handler never reads the text, so it reaches the UPDATE as SQL NULL. Whether that stores NULL and answers 200, or fails on a NOT NULL column and answers 400, depends on the table schema.
- The delete, update and by-author routes are commented out in `startAPI`; their handlers are modelled all the same, without routes.
- JDBC mechanics (connections, prepared statements, result sets, closing in `finally`) are not modelled. Only the meaning of each SQL statement is. A storage error is modelled as failing before the statement has any effect. A failure after the INSERT ran, for example while reading the generated key, would leave a row behind while the method returns `null`; that case is not modelled.
- `AccountDAO.getAccountById` is not modelled. It reads a misspelled column, so its result depends on how the driver reports that error. It does not close its connection, and nothing calls it.
- `Main.java` is a manual console driver and is not modelled; it expects `updateMessage` to return a message, which the DAO does not do.
- `AccountService.validateUser` is not defined in the service class and is a parameter of the login handler. Login therefore does not check the password against the stored one.
- Generated keys are unbounded integers. The model does not capture the 32-bit `int` range of the keys, nor the narrowing of the message key from `long` to `int`.
- Text lengths are counted in characters of `string`. Java's `length()` counts UTF-16 code units, so a character outside the Basic Multilingual Plane counts once here and twice in Java.
- Username comparison is exact. A database collation that compares names case-insensitively is not modelled.
- The 500 answers of login and message creation rest on `ctx.json` rejecting a `null` object, as the Javalin `Context.json` does with its non-null parameter. The Javalin version is not part of this model.
- The table schema is not part of this model. The model assumes no UNIQUE constraint on `username`, so an insert of an existing username succeeds. The duplicate in the "## Findings" row rests on this assumption.
- `SELECT` without `ORDER BY` is modelled as returning rows in storage order.
- Concurrency is not modelled: the username and author checks are check-then-act and race with concurrent requests, which a sequential model cannot show.
