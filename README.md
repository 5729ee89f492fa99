# HS session calendar: a Dafny model of its request handlers

The application is a small Flask site where registered players announce game
sessions ("Spel"), sign up for them, and get an e-mail whenever a session is
created. All its behaviour sits in `app.py`. This project models that
behaviour as an object holding the application's three tables: users,
sessions, and at most one outgoing-mail configuration. Each request handler
that changes the tables is a method on that object. The parts that only
compute are pure functions with lemmas:

- reading and writing the comma-joined attendee list;
- the index page's "upcoming sessions" query;
- the notification e-mail: who gets it and what the body says.

Modules, one per concern:

- `Text`: Python's `str.split` and `str.join` for a one-character separator,
  including `"".split(",") == [""]`. Also the zero-padded decimals that
  `date.__str__` prints.
- `Records`: the table rows, the handler outcomes (`Ok`, `Invalid401`,
  `Exists400`, `Denied403`), and calendar dates with their order and their
  `YYYY-MM-DD` text.
- `Attendance`: the `attend` handler's list logic. It parses the column
  (NULL and `""` both mean nobody), appends the acting user's name or
  removes its first occurrence, and joins the list again.
- `Upcoming`: sessions dated today or later, sorted by date.
- `Notification`: the recipients, the messages and the body text.
- `Store`: the `Store` class with `Register`, `Add`, `DeleteSession`,
  `Attend` and `Config`, the `Login` lookup, the table invariants, and three
  scenarios on a fresh store.

Attendee names are stored as a comma-joined string. The toggle therefore
keeps its promises only for names that are non-empty and hold no comma
(`WellFormedName`). Registration does not enforce this.

- Under that condition:
  - a toggle flips the user's presence;
  - every other name keeps its presence and relative order;
  - no name is ever listed twice.
- Attending twice restores the stored text when the user was absent, even
  if other names repeat. With unique names it restores the text exactly when
  the user was absent or listed last. There, a present user who is not last
  ends up moved to the end of the list, so only their presence is restored.
- `CommaNameBreaksToggle` shows the breakage for a user named `x,y`:
  - the session they create is read as the two attendees `x` and `y`;
  - their own attend then appends instead of removing;
  - `x` and `y` end up listed twice.

Three facts about `app.py` shape the model:

- `add` sends the notification synchronously (app.py:144).
- `attend` on a missing id dereferences `None` (app.py:160-161), so
  `Store.Store.Attend` requires the id to exist.
- This version of the app has no substitute list.

## Model

| member | source | states |
|---|---|---|
| Text.Split | app.py:161 | `s.split(sep)` always yields at least one piece, and the whole text when the separator does not occur |
| Text.Join | app.py:166 | `sep.join(parts)`: no parts give `""`; otherwise the text starts with the first part, followed by the separator when there are more |
| Text.JoinSplit | app.py:161-166 | joining the pieces of a split gives back the original text, whatever it contains |
| Text.SplitJoin | app.py:161-166 | splitting the join of one or more separator-free pieces gives back exactly those pieces |
| Text.SplitAfterHead | app.py:161 | a separator-free head followed by the separator is split off as the first piece |
| Text.SplitJoinEmpty | app.py:161 | the join of no pieces is `""`, and splitting `""` gives one empty piece rather than none; this is why the handler guards the split |
| Text.JoinSnoc | app.py:166 | appending a piece to a non-empty list adds one separator and that piece to the join |
| Text.Decimal | app.py:62 | the decimal rendering of a number is a non-empty digit string |
| Text.Padded | app.py:62 | zero padding yields a digit string of at least the requested width, never truncated |
| Text.DecimalLength | app.py:62 | for w ≥ 1, a number below 10^w has at most w digits |
| Text.DecimalValue | app.py:62 | the digits of a number read back as that number |
| Text.PaddedRoundTrip | app.py:62 | a zero-padded number reads back as itself; for w ≥ 1, a number below 10^w is padded to exactly w characters |
| Records.DateLeTotal | app.py:92 | the date order is total and antisymmetric |
| Records.DateLeTransitive | app.py:92 | the date order is transitive |
| Records.DateText | app.py:62 | `str(date)` is at least ten characters, all digits or dashes |
| Records.DateTextFields | app.py:62 | a valid date prints as ten characters whose three dash-separated fields read back as year, month and day |
| Records.DateTextInjective | app.py:62 | two valid dates with the same text are the same date |
| Attendance.Parse | app.py:161 | the guarded split gives no names exactly when the column is NULL or `""` |
| Attendance.RemoveFirst | app.py:165 | `list.remove(u)`, when `u` is listed (the only call the handler makes), shortens the list by one |
| Attendance.Toggle | app.py:162-165 | the toggle shortens the list by one when the user is listed and lengthens it by one otherwise |
| Attendance.ToggleText | app.py:161-166 | the new column value; with nobody attending it is exactly the user's name |
| Attendance.FirstIndex | app.py:165 | the position found holds the name and no earlier position does |
| Attendance.CreatorSeed | app.py:139 | a new session's attendee column, the creator's well-formed name, parses as exactly that one name |
| Attendance.ParseJoin | app.py:161-166 | a list of well-formed names is read back unchanged from its joined text |
| Attendance.JoinParse | app.py:161-166 | joining the parsed list gives back the stored text, with NULL read as `""` |
| Attendance.RemoveFirstCutsFirst | app.py:165 | `list.remove(u)` cuts out exactly the first occurrence of `u` |
| Attendance.RemoveFirstMembers | app.py:165 | removal keeps every other name, and in a duplicate-free list leaves `u` absent |
| Attendance.RemoveFirstNoDup | app.py:165 | removal keeps a list duplicate-free |
| Attendance.ToggleFlipsPresence | app.py:162-165 | in a duplicate-free list the toggle makes the user present exactly when they were absent |
| Attendance.ToggleOthers | app.py:162-165 | the toggle leaves every other name as present or absent as before |
| Attendance.ToggleNoDup | app.py:162-165 | the toggle keeps a list duplicate-free |
| Attendance.ToggleWellFormed | app.py:162-165 | toggling a well-formed name keeps a list of well-formed names |
| Attendance.ToggleFlips | app.py:162-165 | the four toggle facts together: flip, others kept, no duplicate, well formed |
| Attendance.OthersAppend | app.py:163 | the names other than `u` in a concatenation are those of each part, in order |
| Attendance.ToggleKeepsOrder | app.py:162-165 | every other name keeps its relative order: dropping `u` from the list before and after the toggle gives the same list |
| Attendance.AttendFromEmpty | app.py:161-166 | attending a session with a NULL or empty attendee column stores exactly the user's name; for a well-formed name, attending again stores `""` |
| Attendance.ParseToggleText | app.py:161-166 | with well-formed names, even repeated ones, the stored text after a toggle parses as the toggled list, which stays well formed and stays duplicate-free when it was |
| Attendance.AttendTwiceRestores | app.py:161-166 | two attends by an absent well-formed user restore the stored text (NULL becomes `""`), even when other names repeat |
| Attendance.AttendTwiceRestoresIff | app.py:161-166 | with unique well-formed names, two attends restore the stored text if and only if the user was absent or listed last |
| Attendance.AttendTwiceRestoresLast | app.py:161-166 | two attends by the user listed last, in a duplicate-free list, restore the stored text |
| Attendance.AttendTwiceMovesFromMiddle | app.py:161-166 | two attends by a listed user who is not last change the stored text |
| Attendance.RemoveLastThenAppend | app.py:163-165 | removing the last name of a duplicate-free list and appending it again gives the list back |
| Attendance.SameListSameText | app.py:161 | two columns that parse to the same list hold the same text, NULL read as `""` |
| Attendance.AttendTwiceMovesToEnd | app.py:161-166 | in a duplicate-free list of well-formed names, two attends by a present user leave them listed, moved to the end, with the other names in order |
| Attendance.ToggleParity | app.py:162-165 | after n toggles by one user the list stays well formed and duplicate-free, and holds the user exactly when n's parity and the initial presence say so |
| Attendance.ToggleAllParity | app.py:162-165 | after any sequence of toggles, a duplicate-free list stays duplicate-free and lists a name exactly when its initial presence differs from the parity of that name's own toggles |
| Attendance.ToggleAllWellFormed | app.py:162-165 | any sequence of toggles by well-formed names keeps a list of well-formed names |
| Attendance.AttendAllParse | app.py:161-166 | after any sequence of attends by well-formed names, repeats allowed, the stored column parses as the list after the same toggles |
| Attendance.AttendAllParity | app.py:161-166 | for any sequence of attends by well-formed users on a sound stored column, with other users' attends in between, the column stays sound and lists each user exactly when their initial presence differs from the parity of their own attends |
| Attendance.AttendStep | app.py:161-166 | one attend on the stored text keeps it well formed and duplicate-free, flips the user, and keeps every other name's presence |
| Attendance.ParsePair | app.py:161 | the text `x,y` of two well-formed names parses as the two names |
| Attendance.JoinTriple | app.py:166 | the join of three names is the names with a comma between each |
| Attendance.ParseQuad | app.py:161-166 | the stored text after the comma-named creator attends parses as four names |
| Attendance.CommaNameBreaksToggle | app.py:139-166 | a creator named `x,y` is read as two attendees; their attend appends their name, and the list then holds `x` and `y` twice |
| Upcoming.OnOrAfter | app.py:92 | the filter keeps exactly the sessions dated today or later, each as often as it is stored |
| Upcoming.Insert | app.py:92 | inserting adds exactly that session to the rows |
| Upcoming.SortByDate | app.py:92 | sorting permutes the rows |
| Upcoming.UpcomingSessions | app.py:92 | the index list holds the same sessions, with the same multiplicities, as the date filter |
| Upcoming.InsertSorted | app.py:92 | inserting into a date-sorted list keeps it sorted |
| Upcoming.SortByDateSorted | app.py:92 | the sort orders by ascending date |
| Upcoming.UpcomingExactly | app.py:92 | the index page lists exactly the sessions dated today or later, each as often as stored, in ascending date order |
| Upcoming.YesterdayTodayTomorrow | app.py:92 | sessions of yesterday, today and tomorrow, stored in any order, are listed as today's then tomorrow's |
| Upcoming.KeepsTodayAndTomorrow | app.py:92 | of those three sessions, the filter keeps exactly today's and tomorrow's |
| Upcoming.SortedPair | app.py:92 | two sessions with different dates have only one date-sorted order: the earlier first |
| Notification.Body | app.py:59-64 | the body opens with the greeting on its own line and ends with a line break |
| Notification.Recipients | app.py:69 | one address per user, each user's e-mail, in table order |
| Notification.MessagesTo | app.py:76-82 | one message per recipient, in order |
| Notification.Outbox | app.py:53-82 | no messages without a mail configuration; with one, one message per user |
| Notification.Sent | app.py:71-86 | what goes out is a prefix of the outbox, cut at the first failure, or all of it when nothing fails |
| Notification.OutboxAddressesEveryUser | app.py:53-82 | without a mail configuration nothing is sent; with one, every user gets one message from the configured account, with the fixed subject and the session's body |
| Notification.LinesJoin | app.py:60-64 | a body built line by line is its lines joined by line breaks, with an empty piece after the last break |
| Notification.BodyLinesHaveNoBreak | app.py:60-64 | no body line contains a break when the session's name, time and creator hold none |
| Notification.BodySplitsIntoLines | app.py:60-64 | the body splits back into greeting, blank line, and the name, date, time and creator lines |
| Notification.DateTextHasNoNewLine | app.py:62 | the printed date holds no line break |
| Store.FindUser | app.py:100 | the lookup finds a user with that name, the first one in table order, or reports that none has it |
| Store.FindSession | app.py:151 | the lookup finds the row with that id, or reports that none has it |
| Store.NextUserId | app.py:29 | a new user id is positive and larger than every existing one |
| Store.NextSessionId | app.py:20 | a new session id is positive and larger than every existing one |
| Store.WithoutSession | app.py:151-155 | deleting shortens the table by one when the id is present and otherwise keeps its length, and adds no row |
| Store.WithoutSessionRemovesExactly | app.py:151-155 | deleting removes exactly the row with that id and keeps the ids increasing; a missing id changes nothing |
| Store.CutMembers | app.py:153 | removing one row keeps exactly the rows with other ids |
| Store.CutKeepsIds | app.py:153 | removing one row keeps the ids increasing |
| Store.AppendUser | app.py:114-119 | a new user with an unused name and the next id keeps names unique and ids increasing |
| Store.AppendSession | app.py:139-141 | a new session with the next id keeps ids increasing |
| Store.Login | app.py:97-105 | a successful login returns a stored user with that name whose credential matches |
| Store.LoginStatus | app.py:100-105 | a login POST answers `Ok` (the redirect) or 401, and `Ok` only for a stored user with that name and a matching credential |
| Store.LoginSucceedsIff | app.py:100-105 | with unique names, login succeeds exactly when a stored user has that name and a matching credential |
| Store.Store.constructor | app.py:198-199 | a fresh database has no users, no sessions and no mail configuration |
| Store.Store.Register | app.py:110-122 | a taken name gets 400 and changes nothing; otherwise exactly one user is appended, admin exactly when the table was empty; names stay unique |
| Store.Store.Add | app.py:133-146 | the answer is always a redirect; exactly one session is appended, with the next id, its creator and its attendee column both set to the acting user's name; the notification is built from the stored configuration; sound attendee lists stay sound when the actor's name is well formed |
| Store.Store.DeleteSession | app.py:150-155 | the row with that id is removed if present, otherwise nothing changes; the answer is a redirect either way |
| Store.Store.Attend | app.py:159-168 | only the attendee column of that session changes, to the toggled text; sound attendee lists stay sound for a well-formed user |
| Store.Store.Config | app.py:172-195 | a non-admin gets 403 and nothing changes; an admin GET shows the settings; an admin POST inserts the row or overwrites all four fields of the existing one |
| Store.RegistrationOrder | app.py:114-122 | the first user registered is admin, the second is not, and a repeated name is refused |
| Store.ConfigGuard | app.py:173-192 | settings stored by an admin survive a later non-admin request, which gets 403 |
| Store.CreateJoinLeave | app.py:137-166 | a new session lists its creator; a second user's attend appends their name after a comma; the creator's attend then leaves only the second user |

## Left out

- Flask routing, templates, `redirect`/`url_for` and response bodies. The handlers' answers are `Status` values (`Ok` stands for a redirect or a rendered page). `Add` also returns the new id and the outbox, and `Config` the settings it shows, as out-parameters. `Login`'s answer is `LoginStatus`.
- `logout` (app.py:125-129) and `load_user` (app.py:49-51) only touch flask_login's session state. That state is not modelled; the acting user is a parameter.
- Password hashing (app.py:36-40) is not modelled. `Register` takes the stored credential as given, and `Login` takes the hash check as a function parameter.
- SQLAlchemy sessions, commits and rollbacks are not modelled.
- The database's unique constraint on e-mail (app.py:31) is left out. Only the code's own name check is modelled.
- The column length limits (`String(50)` and so on) are not enforced.
- `datetime.now()` and `strptime` (app.py:92, 134) are inputs: `today` and the parsed `Date`. A malformed date string raises in the source; that path is not modelled.
- Store.Store.Attend: requires an existing session id. The source dereferences `None` there (app.py:160-161) and has no not-found response.
- Store.Store.Add: the sent notification is the pure `Outbox`. The SMTP connection, STARTTLS, login and sending (app.py:71-86) are I/O. Their first failure is an input to `Notification.Sent`, which also covers a non-numeric port making `int()` raise.
- `print` logging is not modelled.
- Upcoming.SortByDate: SQL leaves the order of equal dates open. The model keeps table order among them, as a stable sort would.
- Notification.Recipients: the query has no ORDER BY. The model takes table order.
- Store.NextSessionId: new ids are SQLite's largest rowid plus one. After the last row is deleted its id can be handed out again, and the model does the same.
- Attendance.RemoveFirst: Python's `list.remove` raises ValueError for a name that is not listed. The handler never calls it that way (app.py:162), and the model returns the list unchanged there.
- Attendance.AttendTwiceRestoresIff: requires unique names. With a repeated name, `list.remove` takes out an earlier copy, so the last-listed case is not characterised there.
