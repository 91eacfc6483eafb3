# uyp_bot in Dafny

uyp_bot is a Telegram bot where students register the invite links of their
course groups. A group is identified by its module code (such as `CS2103T`) and
its `https://t.me/joinchat/...` invite url. This project models the core of the
bot and proves properties of it:

- **The record store** (`database.dfy`, module `Database`). The sqlite tables
  `mods` (keyed by `code`, with `url` UNIQUE) and `users` (keyed by `id`,
  holding the dialog `state`, `code_temp` and `msg_temp`) are modelled as the
  two map fields of the class `Connection`. Its methods are `get_mod`,
  `get_users_mods`, `get_mods_reg('')`, `get_user`, `update_user`,
  `update_mod`, `add_mod`, `add_user` and `delete_mod`. Each has `modifies`
  and frame postconditions, and each preserves `Valid()`: every row is stored
  under its own primary key, and no url is used twice. sqlite's
  `IntegrityError` becomes the enum `DbError`, which names the offending column.
- **Input validation** (`validate.dfy`, module `Validate`). This covers
  `sanitise_mod`, `sanitise_url` and `get_dates`, together with Python's
  `strip()` and `upper()` on ASCII text. Each regular expression is defined
  twice: once as a language that reads like the pattern (`IsModCode`,
  `IsInviteUrl`), and once as the index matcher the sanitiser runs. A lemma
  shows the two definitions agree.
- **Message packing** (`listing.dfy`, module `Listing`). `ChunkEntries` is the
  loop of `command_list_all` that packs the formatted entries into messages.
- **The registration dialog** (`commands.dfy`, module `Commands`):
  - `Step` is the pure transition of one user's row and the `mods` table on
    one command or text. `Deliver` lifts it to both tables.
  - The methods `CommandStart`, `CommandAddGroup`, `CommandCancel` and
    `HandleCommandResponse` perform the same transitions through the
    `Connection` methods. They are proved equal to `Deliver` and `ReplyTo`.
  - The dialog invariant is `WellFormed`: a valid module code is held exactly
    while the url is awaited. `ReplayKeepsInvariants` shows that any sequence
    of messages preserves it, together with the table constraints.

`wrappers.dfy` holds the `Option` and `Result` types.

The model follows what the code does in three places where a casual reading suggests otherwise:

- `URL_RE` ends in `[a-zA-Z0-9]*`, so an invite url with an empty suffix is
  accepted.
- The `.` in `t.me` is an unescaped regex wildcard. Any character except a line
  break is accepted in its place.
- The chunk loop tests the length of the current message before appending to
  it. A message can therefore exceed `MSG_CHAR_LIMIT` (4000). What the loop
  does guarantee is that every message except the last is at least 4000 long.

## Model

| member | source | states |
|---|---|---|
| Validate.UpperChar | uyp_bot/commands.py:166 | an ASCII lower-case letter becomes its capital (code point minus 32); every other character is kept; the result is never lower case |
| Validate.TrimStart | uyp_bot/commands.py:166 | the result is a suffix of the input; everything dropped is whitespace; the result does not start with whitespace |
| Validate.TrimEnd | uyp_bot/commands.py:166 | the result is a prefix of the input; everything dropped is whitespace; the result does not end with whitespace |
| Validate.Strip | uyp_bot/commands.py:166 | neither end of the result is whitespace; the result is empty exactly when the input is all whitespace; text without whitespace at either end is returned unchanged |
| Validate.StripIsSlice | uyp_bot/commands.py:174 | the stripped text is a contiguous slice of the input, with only whitespace before and after it |
| Validate.Upper | uyp_bot/commands.py:166 | the length is kept and every character is upper-cased on its own |
| Validate.MatchesModCodeIff | uyp_bot/commands.py:7 | the index matcher accepts exactly the language of `MOD_RE`: 2 or 3 capitals, 4 digits, at most one capital |
| Validate.ModCodeShape | uyp_bot/commands.py:7 | every module code is 6 to 8 characters long, all capitals or digits |
| Validate.SanitiseMod | uyp_bot/commands.py:165-171 | succeeds exactly when `strip().upper()` of the input is in the language of `MOD_RE`, and then returns that normalised text (length 6 to 8); otherwise it is the invalid-module-code error |
| Validate.UpperFixed | uyp_bot/commands.py:166 | text without lower-case letters is its own upper case |
| Validate.ModCodeCanonical | uyp_bot/commands.py:166 | a module code is unchanged by both `strip()` and `upper()` |
| Validate.SanitiseModIdempotent | uyp_bot/commands.py:165-171 | sanitising an accepted code again returns the same result |
| Validate.MatchesInviteUrlIff | uyp_bot/commands.py:8 | the index matcher accepts exactly the language of `URL_RE`: "https://t", one character other than a line break, "me/joinchat/", then zero or more ASCII letters or digits |
| Validate.SanitiseUrl | uyp_bot/commands.py:173-179 | succeeds exactly when the stripped input is in the language of `URL_RE`, and then returns the stripped text (at least 22 long); otherwise it is the invalid-url error |
| Validate.SanitiseUrlIdempotent | uyp_bot/commands.py:173-179 | sanitising an accepted url again returns the same result |
| Validate.GetDates | uyp_bot/commands.py:159-163 | the renew date is 30 days after today and the remove date 60 days after; removal always falls 30 days after renewal |
| Validate.StripUnpadded | uyp_bot/commands.py:166 | `strip()` leaves alone non-empty text that has no whitespace at either end |
| Validate.StripOnePad | uyp_bot/commands.py:166 | `strip()` removes exactly one whitespace character from each end when only one is there |
| Validate.SanitiseModOf | uyp_bot/commands.py:165-171 | once the stripped text is known, `sanitise_mod` is the matcher applied to its upper case |
| Validate.SanitiseUrlOf | uyp_bot/commands.py:173-179 | on text that needs no stripping, `sanitise_url` is the matcher applied to the text itself |
| Validate.LowerCaseCodeAccepted | uyp_bot/commands.py:166-169 | "cs2103t" is accepted as "CS2103T" |
| Validate.PaddedCodeAccepted | uyp_bot/commands.py:166-169 | any module code with one blank on each side is accepted, without the blanks |
| Validate.ShortCodeRefused | uyp_bot/commands.py:167-171 | "C123" is refused |
| Validate.LongPrefixCodeRefused | uyp_bot/commands.py:7 | "ABCD12345" is refused, because the letter prefix is at most 3 long |
| Validate.UrlAcceptsAnySeparator | uyp_bot/commands.py:8 | any character other than a line break is accepted where "t.me" has its dot, and so is any alphanumeric suffix, including the empty one |
| Validate.UrlRefusesTrailingPath | uyp_bot/commands.py:8 | an accepted url followed by "/" and a further segment is refused |
| Validate.PlainHttpRefused | uyp_bot/commands.py:8 | an invite url whose scheme is "http" rather than "https" is refused |
| Listing.JoinLinesAppend | uyp_bot/commands.py:35 | joining two non-empty runs of lines is joining the two joins with a line break |
| Listing.JoinLinesFlatten | uyp_bot/commands.py:32-37 | joining the joins of consecutive groups gives the join of all their entries |
| Listing.FlattenExtendLast | uyp_bot/commands.py:35 | adding an entry to the last group adds it to the end of the entries |
| Listing.FlattenNewGroup | uyp_bot/commands.py:37 | starting a new group with an entry adds it to the end of the entries |
| Listing.JoinLinesStart | uyp_bot/commands.py:35 | a join of lines starts with its first line |
| Listing.FlattenStart | uyp_bot/commands.py:32 | the first entry of the groups is the first entry of the first group |
| Listing.PackedStart | uyp_bot/commands.py:32 | the first packed message starts with the first entry |
| Listing.PackedJoin | uyp_bot/commands.py:32-37 | the packed messages joined with line breaks equal the entries joined with line breaks |
| Listing.PackedFirst | uyp_bot/commands.py:32 | the first entry alone is a correct packing of the first entry |
| Listing.PackedExtend | uyp_bot/commands.py:34-35 | appending the next entry to a message under the limit keeps the packing correct |
| Listing.PackedNew | uyp_bot/commands.py:36-37 | starting a new message once the last one reaches the limit keeps the packing correct |
| Listing.ChunkEntries | uyp_bot/commands.py:26-37 | no messages exactly for no entries. The messages are the line-joins of consecutive non-empty groups of the entries, so no entry is split. A group grew only while its message was under 4000, and every message but the last is at least 4000 long. The first message starts with the first entry. The joined messages equal the joined entries |
| Database.InsertMod | uyp_bot/database.py:97-102 | a taken code is reported, before the url. A free code with a taken url reports the url. Otherwise exactly one row is added under its code, and the key and uniqueness constraints still hold |
| Database.Connection.constructor | uyp_bot/database.py:13-27 | both tables start empty and the constraints hold |
| Database.Connection.GetMod | uyp_bot/database.py:30-35 | returns a row exactly when the code is stored, and then the stored row with that code |
| Database.Connection.Select | uyp_bot/database.py:44-49 | returns exactly the stored rows that pass the filter, each once |
| Database.Connection.GetUsersMods | uyp_bot/database.py:37-42 | returns exactly the rows whose admin is the user, each once |
| Database.Connection.GetAllMods | uyp_bot/database.py:44-49 | with the empty pattern, returns every row, each once |
| Database.Connection.GetUser | uyp_bot/database.py:51-63 | returns the stored row, or inserts and returns `(user, None, None, None)` when there is none. Afterwards the user has a row; no other row and no mod changes |
| Database.Connection.UpdateUser | uyp_bot/database.py:65-78 | upsert: afterwards the user's row is exactly the given fields; no other user row and no mod changes |
| Database.Connection.UpdateMod | uyp_bot/database.py:80-95 | upsert by code. It fails, changing nothing, exactly when another code already has the url. Otherwise the code's row is exactly the given fields and no other row changes |
| Database.Connection.AddMod | uyp_bot/database.py:97-102 | strict insert: the code error exactly when the code is taken, else the url error exactly when the url is taken. On failure the table is unchanged; on success exactly one row is added |
| Database.Connection.AddUser | uyp_bot/database.py:104-112 | afterwards the user has a row. An existing row is left as it was, a missing one becomes `(user, None, None, None)`, and nothing else changes |
| Database.Connection.DeleteMod | uyp_bot/database.py:114-119 | the code's row is gone and every other row stays; nothing changes when it was absent |
| Commands.Respond | uyp_bot/commands.py:84-136 | the text handler keeps the dialog invariant and the table constraints. `mods` changes only on success, which needs a held code at the url step, adds one row with that code and the user as admin, and ends the dialog |
| Commands.CodeStep | uyp_bot/commands.py:88-104 | at the code step `mods` never changes and success is never reported; the dialog invariant is kept |
| Commands.UrlStep | uyp_bot/commands.py:105-136 | at the url step the invariants are kept. `mods` changes only on success, which adds the held code's row with the user as admin and ends the dialog |
| Commands.Register | uyp_bot/commands.py:108-136 | the same guarantees for the INSERT and its IntegrityError handler once the url was accepted |
| Commands.Step | uyp_bot/commands.py:46-136 | every transition keeps the dialog invariant and the table constraints. `mods` changes only on a successful text at the url step with a held code, which adds exactly that code's row with the user as admin and returns the user to the idle state |
| Commands.Deliver | uyp_bot/commands.py:85 | the invariants of every stored row and of `mods` are kept. Afterwards the sender has a row, and no other user's row changes |
| Commands.DeliverOutcome | uyp_bot/commands.py:85 | the tables after a message are the tables with the sender's transition applied, and the reply is the transition's reply |
| Commands.ReplayKeepsInvariants | uyp_bot/commands.py:46-136 | any sequence of messages from any users keeps the dialog invariant and the table constraints |
| Commands.AddGroupFromAnyState | uyp_bot/commands.py:46-47 | `/add_group` gives the same outcome whatever the prior row: `('add_group@code', None, None)`, with `mods` unchanged |
| Commands.CancelOutcome | uyp_bot/commands.py:54-66 | `/cancel` always leaves the idle state with `mods` unchanged. An idle row is kept as it is and answered with the nothing-to-cancel reply; any other row is cleared |
| Commands.IdleIgnoresText | uyp_bot/commands.py:86-87 | text in the idle state changes nothing and gets no reply |
| Commands.CodeStepOutcome | uyp_bot/commands.py:88-104 | at the code step, an accepted code moves the row to `('add_group@url', code, None)`; an invalid one leaves the row unchanged; `mods` never changes |
| Commands.TextAtUrlStep | uyp_bot/commands.py:105 | text at the url step is handled by the url branch |
| Commands.UrlStepOutcome | uyp_bot/commands.py:106-121 | an invalid url changes nothing and gets the invalid-url reply; a valid one goes on to the INSERT |
| Commands.TakenCodeRestartsCodeStep | uyp_bot/commands.py:122-131 | a held code that is already registered resets the row to `('add_group@code', None, None)` and leaves `mods` unchanged, even when the url is also taken |
| Commands.TakenUrlKeepsState | uyp_bot/commands.py:132-136 | a url already registered under another code leaves both the row and `mods` unchanged |
| Commands.FreshUrlRegisters | uyp_bot/commands.py:107-116 | a free code with a free url inserts `(url, code, today+30, today+60, user)`, clears the row and reports success |
| Commands.RegistrationRoundTrip | uyp_bot/commands.py:88-116 | a fresh code followed by a fresh url stores exactly the record `(url, code, today+30, today+60, user)` under the code, and the user ends idle |
| Commands.CommandStart | uyp_bot/commands.py:16-18 | the store afterwards, and the reply, are those of the model transition `Deliver`/`ReplyTo`; the constraints hold |
| Commands.CommandAddGroup | uyp_bot/commands.py:46-52 | the store afterwards, and the reply, are those of `Deliver`/`ReplyTo`; the constraints hold |
| Commands.CommandCancel | uyp_bot/commands.py:54-66 | the store afterwards, and the reply, are those of `Deliver`/`ReplyTo`; the constraints hold |
| Commands.HandleCommandResponse | uyp_bot/commands.py:84-136 | the store afterwards, and the reply, are those of `Deliver`/`ReplyTo`; the constraints hold |
| Commands.RespondToText | uyp_bot/commands.py:86-136 | after the row was read, the store and the reply follow `Respond` |
| Commands.RespondAtCode | uyp_bot/commands.py:88-104 | at the code step, the store and the reply follow `CodeStep` |
| Commands.RespondAtUrl | uyp_bot/commands.py:105-121 | at the url step, the store and the reply follow `UrlStep` |
| Commands.RegisterHeld | uyp_bot/commands.py:109-136 | the INSERT and its error handler: the store and the reply follow `Register` |
| Commands.CommandListAll | uyp_bot/commands.py:20-37 | the empty-list notice exactly when there are no mods. Otherwise the sent messages are non-empty; joined with line breaks they are the formatted entries of every mod, each once; every message but the last is at least 4000 long |

## Left out

- Telegram I/O is not modelled: `send_message`, parse modes, chat ids and the handler tables. Each reply is a tag named after the template it would send.
- The texts of `settings.Strings` are not modelled. `settings` is not part of this model.
- `LIST_ALL_SCHEMA` is not modelled. It is neither defined nor imported in `commands.py`, so `CommandListAll` takes the entry formatter as a parameter.
- `command_help` and `command_about` only send fixed texts. `command_start` is modelled as the help reply plus `add_user`.
- The text sent for each packed message is not modelled. `command_list_all` passes `Strings.message` rather than the packed message (`uyp_bot/commands.py:43`); `CommandListAll` returns the packed messages the loop builds.
- The database engine is not modelled: the connection and cursor, commits, the `check_same_thread=False` threading, and persistence across restarts. The constructor starts from empty tables, as on a fresh database file.
- `IntegrityError` message matching is not modelled. Both UNIQUE failures and the NOT NULL failure on `mods.code` (no code held) are turned into the `DbError` column, or into the code branch. The model relies on sqlite checking the code column before the url, as the schema comment says.
- Only the column values the source writes are modelled. `state` is one of its three values, and `code_temp` and `msg_temp` are `Option`s.
- `get_mods_reg` is modelled only for the empty pattern, its one use. General regex search over codes is left out.
- The order of rows a SELECT returns is not modelled. `Select` and its callers promise membership and no repeats, not an order.
- The clock and date formatting are left out: `date.today()` and `isoformat()`. `GetDates` takes today as a day number and returns day numbers.
- Python's Unicode-aware `strip()` and `upper()` are not modelled. For example, `'ß'.upper()` is `'SS'`, `'ı'.upper()` is `'I'`, and non-ASCII blanks are stripped. The model covers ASCII whitespace and letters only.
