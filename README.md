# google-password-notifier, modelled in Dafny

`google_password_notifier/notify.py` fetches the `password_edit` audit
events of a Google Workspace directory, keeps for each user the time of
their latest password change, and emails every user in that table whose
90-day password is expired or about to expire. This project models the two pieces of
logic between the I/O:

- **The merge** (`GoogleNotifier.get_usersdb`). The table `user_db` is
  reset to empty, then the events are consumed in the order the API
  returned them. An event strictly older than the stored time of its actor
  is skipped; any other event, including one with an equal time, is stored.
  `UserDb.Step` is one turn of that loop and `UserDb.Merge` the whole loop
  as a function. `GoogleNotifier.GetUsersDb` is the loop itself, over a
  class field `userDb`. A second field `order` keeps the keys in insertion
  order, because a Python dict iterates in that order and `notify` walks
  the dict. `InsertionOrder.FirstSeenOrder` proves that this order lists
  the users by the position of their first event. The functions take a
  prefix length `n` and describe the table after the loop's first `n`
  turns; `n == |events|` is the table the method returns.
- **The expiry decision** (`GoogleNotifier.notify`). For each user,
  `delta` is the number of whole days since the last change, rounded down
  as `timedelta.days` does, and `90 - delta` is the number of days left.
  A negative count means an "expired" message. Otherwise a count below
  the threshold means a "expires in N days" warning. Otherwise no message
  is sent. `Expiry.Classify` is that decision. `GoogleNotifier.Notify` is the
  loop, and each `send_email` call becomes a `Message` record in the
  returned sequence.

Timestamps are integers counting microseconds, since the event time format
`%Y-%m-%dT%H:%M:%S.%fZ` has microsecond resolution. A day is
86 400 000 000 of them. Dafny's `/` by a positive divisor rounds down, as
Python's does. The clock reading `now` is a parameter. The threshold
(`treshold` in the configuration) is a plain integer. The source never
validates it, so the model accepts any value.

Facts about the code that the model keeps:

- `user_db` is rebuilt from empty on every run (line 84). Nothing from an
  earlier run is kept, and the validity period is the literal 90.
- The lookback is a fixed 120 days (line 78) and only feeds the API query.
  Its consequence: a user with no password change in the last 120 days is
  not in the table and gets no message, so an expired user is emailed only
  until 120 days have passed since the change.
- At 90 elapsed days (0 days left) the code sends a warning of 0 days,
  because `0 < threshold` holds at line 108 for any positive threshold.
  `Expiry.BoundaryTable` states this.

## Model

| member | source | states |
|---|---|---|
| `UserDb.Step` | google_password_notifier/notify.py:89-93 | one event adds its actor as a key; the actor's time becomes the maximum of the stored time and the event time (or the event time for a new actor); no stored time decreases; every other entry is unchanged |
| `UserDb.Merge` | google_password_notifier/notify.py:84-93 | the loop from the empty table as a function of the first `n` events: empty before any event; after each turn the actor of the event just consumed is in the table at that event's time or later. Its keys, per-user latest time and order independence are proved in `MergeKeys`, `MergeLatest` and `MergeOrderIndependent` |
| `UserDb.MergeKeys` | google_password_notifier/notify.py:84-93 | starting from the empty table, the keys after the first `n` turns are exactly the actor emails of the first `n` events (so no events give an empty table) |
| `UserDb.MergeLatest` | google_password_notifier/notify.py:85-93 | each stored time is the time of one of that user's events, and none of that user's events is later |
| `UserDb.MergeOrderIndependent` | google_password_notifier/notify.py:85-93 | two event sequences that are permutations of each other give the same table |
| `UserDb.MergePrefixMonotone` | google_password_notifier/notify.py:89-93 | while the loop runs, a user once in the table stays in it and their stored time never decreases |
| `UserDb.MergeSkip` | google_password_notifier/notify.py:89-92 | a turn whose event is strictly older than its actor's stored time leaves both the table and its insertion order as they were |
| `UserDb.MergeStore` | google_password_notifier/notify.py:89-93 | any other turn stores the event's time for its actor, and appends the actor to the insertion order exactly when it was not yet a key |
| `UserDb.FirstSeen` | google_password_notifier/notify.py:84-93 | the dict's insertion order holds each actor exactly once, and only actors |
| `InsertionOrder.FirstSeenOrder` | google_password_notifier/notify.py:84-93 | in the insertion order, a user listed before another had their first event before the other's first event |
| `Expiry.DaysElapsed` | google_password_notifier/notify.py:100 | the elapsed day count is the floor: `d` whole days fit into `now - ts` and `d + 1` do not |
| `Expiry.DaysElapsedUnique` | google_password_notifier/notify.py:100 | the elapsed day count is the only `k` whose day contains `now - ts` |
| `Expiry.Classify` | google_password_notifier/notify.py:103-108 | the day count is `90 - delta`; EXPIRED iff it is negative; WARNING iff it is in `[0, threshold)`; no message iff it is at least 0 and at least the threshold |
| `Expiry.ClassifyAfterDays` | google_password_notifier/notify.py:100-109 | a user `k` whole days after the change, at any instant of that day, has `90 - k` days left |
| `Expiry.BoundaryTable` | google_password_notifier/notify.py:103-109 | at threshold 10: 79 and 80 days give no message, 81 a warning of 9 days, 90 a warning of 0 days, 91 EXPIRED |
| `Expiry.DaysElapsedMonotone` | google_password_notifier/notify.py:100 | a later clock reading never gives fewer elapsed days |
| `Expiry.ExpiredStaysExpired` | google_password_notifier/notify.py:100-107 | for a fixed change time, an EXPIRED classification stays EXPIRED at every later clock reading (the user is reported only while still in the 120-day table) |
| `Notifier.Outbox` | google_password_notifier/notify.py:98-115 | the messages of a run go only to users in the table, never carry a "no message" status, and carry exactly that user's classification and day count |
| `Notifier.OutboxOnePerUser` | google_password_notifier/notify.py:98-115 | over distinct users, no user receives two messages, so an expired user is never also warned |
| `Notifier.OutboxComplete` | google_password_notifier/notify.py:98-115 | a user in the table receives their classification's message exactly when it is EXPIRED or WARNING |
| `Notifier.GoogleNotifier.constructor` | google_password_notifier/notify.py:36 | the object keeps the configured threshold and starts with an empty table |
| `Notifier.GoogleNotifier.GetUsersDb` | google_password_notifier/notify.py:84-95 | whatever the table held before, it becomes the merge of the events from empty, with keys in first-seen order; the returned table is the object's table |
| `Notifier.GoogleNotifier.Notify` | google_password_notifier/notify.py:97-115 | the messages are those of the table in insertion order; no two go to the same user; a user gets their classification's message exactly when it is EXPIRED or WARNING |

## Left out

- The Admin Reports API client, its service-account credentials and the request (lines 68-83) are left out because they are network and library calls. The model receives the returned `items` as a sequence of events. It does not model the `KeyError` raised when the response carries no `items` key.
- Parsing event times with `datetime.strptime` (lines 15, 88, 89, 99) is left out. An event time is taken as an already-parsed integer, and a malformed string, which raises in the source, is not represented. The source stores the time string itself and compares parsed values. Two strings that parse to the same instant are therefore one integer here.
- Reading the event's `actor.email` and `id.time` fields (lines 86-87) is left out, and so is the `KeyError` a missing field would raise.
- `send_email` (lines 50-66) is SMTP over SSL. Each call is a `Message` record instead. The message text, its subject and the console `print`s are not modelled. A failed send raises in the source and stops the loop for the remaining users; the model assumes every send returns.
- `Notify`: the source reads `datetime.now()` afresh for each user (line 100). The model uses one clock reading `now` for the whole run. That reading is the host's naive local time, while the event times are UTC, and the model does not model that offset either.
- Loading the configuration in `__init__`, `make_config_dir` and the swallowed exception (lines 28-48) are left out because they are YAML and filesystem I/O. The constructor takes the threshold directly and also starts with an empty table, whereas in the source `user_db` exists only after `get_usersdb` has run.
- The 120-day lookback (line 78) only sets the API query's start time, and reads the clock. It is left out: the model takes whatever events the query returned, so it does not state that a user whose last change is older than 120 days is absent from the table.
- `run()` (lines 118-136) is left out because it is command-line plumbing: argparse, pprint and the logging level.
