# Token store model

A Dafny model of a small token store (`Tk.py`). Each user (`guid`) holds one access token. The token belongs to a group (`group_guid`) and has an activation time. A token is valid for a fixed 30 days after activation. The store can:

- create its table (`init_db`)
- issue a token (`add_token`)
- renew a token, which resets its activation to now (`extend_token`)
- move a token to another group (`change_group_guid`)
- delete a token (`delete_token`)
- list every row (`get_all_tokens`)
- report one user's remaining days (`get_user_info`)
- sweep for expired tokens (`check_token_expiration`)

The model has three modules:

- `Clock` (`clock.dfy`): the expiry rule. Timestamps are integers counting microseconds since midnight at the start of 0001-01-01, the earliest naive datetime. Because that epoch is a midnight, whole days since the epoch are calendar days. Microseconds are the resolution of the timestamps the store writes and parses back, so storing the integer loses nothing. The rule covers the 30-day window, the expiry test `now >= activation + 30 days` and the whole-day count of a time difference. That count rounds toward minus infinity, as a Python `timedelta`'s `days` does.
- `Tokens` (`tokens.dfy`): the table as a value. It is a map from guid to record, with the two key constraints as the invariant `WellFormed`. It also holds the pure transitions performed by the INSERT, UPDATE and DELETE statements, the user report, and lemmas that relate the operations to each other.
- `TokenStore` (`token_store.dfy`): the database as a class. It has two fields, `hasTable` and `rows`, and one method per operation of `Tk.py`. Each method either applies in full or leaves the table unchanged. The clock is the `now` argument.

Every operation other than `init_db` fails with `NoSuchTable` when the table has never been created, because SQLite raises on a missing table. The two constraint violations of `add_token` (duplicate guid, duplicate token) become the `DuplicateKey` result. Because the transaction is never committed, a failed call leaves the table unchanged. `UPDATE`/`DELETE ... WHERE guid = ?` on an unknown guid succeeds and changes nothing, and the model does the same.

The issuing or renewing call and `get_user_info` each read the wall clock on their own. With a clock that does not step back between the two reads, a report shows the full 30 days only when both reads return the same microsecond. At any later instant within the first day it shows 29, because the part-day rounds down (`Clock.FullWindowExactly`, `Clock.RemainingJustAfterActivation`, `TokenStore.RunDemo`). A read up to a day before the activation also shows 30.

## Model

| member | source | states |
|---|---|---|
| Clock.WholeDays | Tk.py:69 | the day count `d` of a time difference is the floor: `d` days ≤ difference < `d + 1` days, also for negative differences |
| Clock.ExpirationOf | Tk.py:35 | the expiration moment is exactly 30 whole days after activation, with no part-day left over |
| Clock.IsExpired | Tk.py:37 | a token has expired exactly when the whole 30-day window has elapsed since activation; an expired token then has ≤ 0 days left and a valid one ≥ 0 |
| Clock.RemainingDays | Tk.py:67-69 | the remaining days `d` satisfy `d` days ≤ (activation + 30 days − now) < `d + 1` days |
| Clock.CalendarDay | Tk.py:72 | the reported activation date is the day containing the activation instant (`d` days ≤ t < `d + 1` days) |
| Clock.RemainingAtActivation | Tk.py:68-69 | at the moment of activation exactly 30 days remain |
| Clock.RemainingJustAfterActivation | Tk.py:69 | at any instant after activation within the first day, 29 days remain (a part-day rounds down) |
| Clock.RemainingAfterWholeDays | Tk.py:68-69 | after exactly k whole days, 30 − k days remain (negative past the window) |
| Clock.RemainingMonotone | Tk.py:69 | as the clock advances, the remaining-day count never increases |
| Clock.FullWindowExactly | Tk.py:68-69 | the report shows 30 days exactly for instants in (activation − 1 day, activation] |
| Clock.ExpiredAgreesWithRemaining | Tk.py:35-37 | the remaining-day count is negative exactly when the expiration moment has passed; at the expiration moment the count is 0 while the token already counts as expired |
| Tokens.WellFormed | Tk.py:10-15 | the table invariant of the PRIMARY KEY and UNIQUE constraints: every record is stored under its own guid, and no two records share a token |
| Tokens.Insert | Tk.py:19-26 | refused exactly when the guid or token is taken; otherwise adds exactly one record (guid, token, group, now), keeps every old record, and preserves the key invariant |
| Tokens.Renew | Tk.py:41-49 | only the activation of that guid's record becomes now; its token and group, and every other record, are unchanged; an absent guid is a no-op; the invariant is kept |
| Tokens.Regroup | Tk.py:78-84 | only the group of that guid's record changes; its token and activation, and every other record, are unchanged; an absent guid is a no-op; the invariant is kept |
| Tokens.Remove | Tk.py:51-54 | afterwards the guid is absent and every other record is unchanged; an absent guid is a no-op; the invariant is kept |
| Tokens.InfoOf | Tk.py:61-76 | None exactly when the guid is absent; otherwise the user guid is the guid, the group is the stored group, and it reports the floor remaining days and the activation day |
| Tokens.Reported | Tk.py:37-38 | the sweep's report condition: the guid is stored with that token and its record has expired |
| Tokens.InfoAfterInsert | Tk.py:19-26 | read at the instant of issuing, the user report shows 30 days left, that day's date, the guid and the group |
| Tokens.InsertTwiceFails | Tk.py:11-12 | once a record is in, reusing its guid or, under another guid, its token is refused |
| Tokens.RenewRestoresWindow | Tk.py:41-49 | read at the instant of renewal, the report shows 30 days left, whatever it was before, and the token is not expired |
| Tokens.RegroupKeepsOtherFields | Tk.py:78-84 | after regrouping, the report differs from before only in the group, and the token is unchanged |
| Tokens.RemoveThenNoOps | Tk.py:51-54 | after deletion the report is None; renewing, regrouping or deleting the guid again changes nothing |
| Tokens.SweepReportsBackdated | Tk.py:28-38 | a token activated 31 days ago is reported as expired; one activated now is not |
| TokenStore.TokenDatabase.constructor | Tk.py:5 | a fresh database has no tokens table and no rows |
| TokenStore.TokenDatabase.InitDb | Tk.py:7-17 | afterwards the table exists; on an existing table every record is unchanged (idempotent); a new table is empty |
| TokenStore.TokenDatabase.AddToken | Tk.py:19-26 | the outcome is NoSuchTable exactly when there is no table, DuplicateKey exactly when the guid or token is taken (the table is then unchanged), and Done otherwise, in which case the table is the old one plus exactly (guid, token, group, now); the invariant is kept |
| TokenStore.TokenDatabase.ExtendToken | Tk.py:41-49 | the new table is `Renew` of the old (only that activation changes, absent guid is a no-op); NoSuchTable with no table |
| TokenStore.TokenDatabase.DeleteToken | Tk.py:51-54 | the new table is `Remove` of the old (guid gone, others unchanged, absent is a no-op); NoSuchTable with no table |
| TokenStore.TokenDatabase.ChangeGroupGuid | Tk.py:78-84 | the new table is `Regroup` of the old (only that group changes, absent guid is a no-op); NoSuchTable with no table |
| TokenStore.TokenDatabase.GetAllTokens | Tk.py:56-59 | returns each stored record exactly once (every returned row is stored under its guid, every stored record appears, no guid repeats, and there are as many rows as records), in any order |
| TokenStore.TokenDatabase.CheckTokenExpiration | Tk.py:28-39 | reports exactly the (guid, token) pairs of records with now ≥ activation + 30 days, each once, and writes nothing |
| TokenStore.TokenDatabase.GetUserInfo | Tk.py:61-76 | returns `InfoOf` of the table (None exactly for an absent guid); NoSuchTable with no table; reads only |
| TokenStore.RunDemo | Tk.py:87-94 | the demo run on a fresh database: the first report shows the floor days left at its own read instant (with the reads in clock order: 30 exactly when it reads the issuing instant, 29 within the first day after it), the listing is exactly the renewed record, and the last report shows the new group and the days left since renewal |

## Left out

- The aiosqlite connection, `await`, the async context managers, `commit` and the fixed file name `tokens.db` are left out. Each operation is modelled as one atomic step on the class's fields.
- Storage failures other than a missing table (disk, permissions, corruption) are left out. They come from the storage engine, not from this code.
- The wall clock `datetime.datetime.now()` is not modelled. It becomes the `now` parameter of each operation.
- ISO-8601 formatting and parsing of `activation_date` are left out. At microsecond resolution they round-trip exactly, so the model stores the integer timestamp.
- `strftime("%Y-%m-%d")` is modelled only as the day number that the formatted date names (`CalendarDay`). The calendar conversion to year, month and day is not modelled.
- The limited range of Python datetimes (years 1 to 9999) is not modelled. Neither is the overflow error raised when adding 30 days near the end of that range. Timestamps are unbounded integers.
- The `print` of each expired token in `check_token_expiration` is not modelled. The method returns the reported (guid, token) pairs in cursor order instead.
- The order of rows from SQLite is not modelled. `GetAllTokens` picks rows in an arbitrary order, and its contract holds for every order.
- The prints of the `main` demo driver are not modelled. `TokenStore.RunDemo` follows its steps on a fresh database. On a database file left by an earlier run, `main`'s `add_token` fails with a duplicate key; the model's `AddToken` contract covers that case.
- SQLite's type affinity and NULL keys are not modelled, because guids, tokens and groups are always strings here.
- Concurrent callers are not modelled. The engine runs each operation as its own transaction, and the model treats each call as one atomic step.
- A wall clock that steps back between calls is not excluded. The timestamps are naive local time, so a daylight-saving fall-back or a clock adjustment can make a later read return an earlier instant. The model takes each step's instant as given: `TokenStore.RunDemo` states its 30-day report only for reads in clock order, and `Clock.FullWindowExactly` covers a read that lands before the activation.
