# TTL cache table: a verified model of its bookkeeping

This project models the sequential bookkeeping of a Go in-process cache
table (package `cache`). A table holds entries under keys, each with an
absolute expiry time. An entry is either plain, with a fixed deadline, or
keep-alive, whose deadline moves to "now + interval" on every read. A single
sweep timer wakes the table and removes expired entries. When a surviving
entry is due within 10 seconds, the sweep re-arms the timer for the shortest
time left; otherwise it does not re-arm it at all (see below). Time is not
read from a clock: the operations that depend on it (adding, reading and
sweeping entries) take the current time as an integer `now` in nanoseconds.

Modules:

- `Items` (item.go): the entry record `Item` with `Key()` and `Value()`. It
  also holds what a read does to an entry (`Access`), the 64-bit access
  counter with its wrap-around, and lemmas about sequences of reads.
- `Expiry` (the pure arithmetic of table.go): which entries a sweep keeps
  (`Swept`), the next sleep (`NextInterval`, characterised by
  `IsNextInterval`), the duration a new entry asks of the timer
  (`TimerDuration`), and the "only shorten" policy (`Shortened`).
- `Tables` (table.go): the class `Table`, whose fields are updated in place.
  These are the entry map, `hasTimer` (a timer object exists), `armed` (that
  timer still has a wake-up to deliver) and `delTick`. `delTick` is the
  sleep last recorded by `Init`, a sweep or a shortening. It is not the
  timer's own sleep once `AdjustTimer` has created the timer, because that
  path does not record it. The class has `Init`, `AdjustTimer`, `Add`,
  `AddKeepAlive`, `Exists`, `Get` and `Cleanup`. `Cleanup` is split into its
  two passes, `Scan` and `DeleteKeys`. `Fire` is one wake-up of the sweep
  loop. The class `Registry` provides `T`, which gets or creates a table by
  name.
- `Scenarios`: client runs with an explicit clock. Two of them replay
  table_test.go.

Two behaviours of the code decide when the sweeper wakes:

- A sweep whose shortest time left is not below the ceiling does not re-arm
  the timer, and `delTick` keeps its old value (table.go:79-84). Because
  `AdjustTimer` re-arms only when a new duration is shorter than `delTick`
  (table.go:114-117), a table can be left with entries and no pending
  wake-up. `Scenarios.StalledSweeperRun` proves this: a sweep of an empty
  table, then an entry due in 20 s, leaves the timer un-armed. The same
  thing happens at the end of `Scenarios.KeepAliveRun`, which leaves
  `delTick` at 0. `TimerDuration` is never negative, so after that no
  entry is shorter than `delTick`, and `AdjustTimer` never re-arms the
  timer.
- When no timer exists, adjusting the timer creates and arms one, but does
  not record its duration in `delTick` (table.go:110-113). On a table that
  was never initialised, `delTick` stays 0 while the timer sleeps for the
  first entry's duration. Later entries then never shorten that sleep.
  `Scenarios.UninitialisedTableRun` proves the first part: after two Adds,
  the timer is armed and `delTick` is still 0.

The keep-alive test in table_test.go checks the key "bobby" at its last
step, and that key was never added to that table. `Scenarios.KeepAliveRun`
checks "marco", the key the test evidently means.

## Model

| member | source | states |
|---|---|---|
| Items.Inc | table.go:157 | the access counter's `++` on int64: the result is the successor modulo 2^64, and it grows except at the maximum |
| Items.NewItem | table.go:121-139 | the entry that Add and AddKeepAlive build: its `Key()` and `Value()` (item.go:19-27) are the key and value it was built with, it has the given deadline and interval, its count is zero and it has never been read |
| Items.Item.Access | table.go:155-163 | a read keeps key, value and interval, bumps the count by one, records the read time, and sets the deadline to now + interval exactly when the entry is keep-alive, otherwise leaves it |
| Items.AccessKeepsIdentity | item.go:19-27 | after any number of reads, key, value and interval are unchanged and the count has grown by the number of reads (mod 2^64) |
| Items.PlainDeadlineFixed | table.go:159-162 | reads never move the deadline of a plain entry |
| Items.KeepAliveDeadlineNeverRecedes | table.go:159-162 | with a non-decreasing clock, reads never move a keep-alive deadline backwards; it ends one interval after the last read |
| Expiry.Swept | table.go:63-78 | a sweep at `now` removes exactly the entries whose deadline is strictly before `now`; every other entry survives unchanged and nothing is added |
| Expiry.SweptIsStable | table.go:66-67 | a second sweep at the same or an earlier time removes nothing more |
| Expiry.SweepsCompose | table.go:66-67 | two sweeps equal one sweep at the later time |
| Expiry.DeletingExpiredIsSweeping | table.go:76-78 | deleting a list that holds all the expired keys and only those leaves exactly the swept map |
| Expiry.NextIntervalStep | table.go:69-71 | visiting one more entry keeps the running minimum of time left correct |
| Expiry.NextIntervalUnique | table.go:62-72 | at most one sleep satisfies the description: the capped minimum of time left |
| Expiry.MinRemaining | table.go:62-72 | the capped minimum over any set of keys, taken in any order, is non-negative and meets the description |
| Expiry.NextInterval | table.go:62-72 | the next sleep is between 0 and the ceiling, is no later than any surviving deadline, and when below the ceiling equals some entry's time left |
| Expiry.NextIntervalOfSurvivors | table.go:63-78 | the next sleep depends only on the entries that survive the sweep |
| Expiry.NextIntervalOfNothing | table.go:62 | with no entry left to wait for, the sleep is the full ceiling |
| Expiry.TimerDuration | table.go:101-109 | a keep-alive entry asks for its interval; a plain entry asks for the time to its deadline (0 when due now), or 1 µs when already past |
| Expiry.Shortened | table.go:114-117 | the recorded sleep becomes the shorter of itself and the new duration |
| Expiry.ShortenedCommutes | table.go:114-117 | the order in which durations shorten the sleep does not matter |
| Tables.Table.constructor | table.go:88-90 | a new table is empty, has no timer and a zero recorded sleep |
| Tables.Table.Init | table.go:23-34 | sets up an armed timer with a 10 s sleep only when no timer exists; otherwise the timer and its sleep are unchanged; every call starts one more sweep loop |
| Tables.Table.AdjustTimer | table.go:98-118 | the recorded sleep never grows; without a timer one is created and armed and the sleep is left as it was; with one, the sleep becomes the minimum and the timer is re-armed exactly when the new duration is shorter |
| Tables.Table.Add | table.go:120-130 | the map gets exactly one new entry under the key, a plain entry with the given deadline, replacing any old one; other keys are unchanged; the timer is adjusted as by AdjustTimer: with an existing timer, the recorded sleep becomes at most the time to the deadline, and the timer is re-armed exactly when the entry's `TimerDuration` is shorter than the old recorded sleep |
| Tables.Table.AddKeepAlive | table.go:132-143 | stores a keep-alive entry with deadline now + interval under the key, other keys unchanged; the timer is adjusted as by AdjustTimer, so with an existing timer and a positive interval, the recorded sleep becomes at most the interval |
| Tables.Table.Exists | table.go:145-148 | true exactly when the key is in the map; changes nothing |
| Tables.Table.Get | table.go:150-165 | absent key: returns None and changes nothing; present key: the entry found is the one stored under that key; returns its value, applies Access to that entry only, and leaves the timer alone |
| Tables.Table.Scan | table.go:60-75 | the first pass collects every expired key and only expired keys, and computes NextInterval |
| Tables.Table.DeleteKeys | table.go:76-78 | deletes exactly the listed keys and leaves every other entry as it was |
| Tables.Table.Cleanup | table.go:59-85 | on a table with a timer and a started sweep loop, the map becomes Swept(map, now); the timer is re-armed with sleep NextInterval only when that is below the ceiling, otherwise timer and sleep are unchanged |
| Tables.Table.Fire | table.go:47-48 | a wake-up of an armed timer on a table whose sweep loop Init has started disarms the timer and sweeps; afterwards the timer is armed exactly when the next sleep is below the ceiling |
| Tables.Registry.constructor | table.go:9-11 | the registry starts with no tables |
| Tables.Registry.T | table.go:87-96 | every registered table sits under its own name and keeps the table invariant; a known name returns its table and changes nothing; an unknown name registers a new empty table under that name and initialises it once (armed timer, 10 s sleep) |
| Scenarios.RepeatedLookup | table.go:87-96 | two lookups of one name give the same table, initialised once |
| Scenarios.GetSetRun | table_test.go:8-18 | the new table has a timer; an entry due in 5 s shortens the sleep to 5 s and is gone after the sweep at 5.01 s |
| Scenarios.KeepAliveRun | table_test.go:20-33 | a keep-alive entry read at 99 ms returns its value, survives to 149 ms, and is gone after the sweeps following its refreshed deadline; the last sweep leaves the timer un-armed with `delTick` at 0 |
| Scenarios.UninitialisedTableRun | table.go:110-117 | on a table that was never initialised, an Add creates and arms the timer but leaves `delTick` at 0, and a second, sooner entry does not change it |
| Scenarios.StalledSweeperRun | table.go:79-84 | after a sweep that finds nothing under the ceiling, an entry due later than the stale sleep is stored with no wake-up pending |

## Left out

- The sweep goroutine `tick` (table.go:42-57): its `select`, its scheduling and the timer channel are not modelled. One wake-up is the explicit step `Fire`, taken at a time the caller chooses. When a real timer fires, and how late, is not modelled.
- The timer's own deadline is not modelled, only `armed` and the recorded `delTick`. So the model does not show when the timer will fire. This matters in two places. First, after `AdjustTimer` creates a timer, its sleep is not recorded (table.go:110-113). Second, table.go:114 compares `delTick`, a sleep counted from when the timer was last set, with a duration counted from now. A "shortening" Reset can therefore move a pending wake-up later. For example, at 0 an entry due at 3 s sets a 3 s sleep; at 2.5 s an entry due at 4.5 s gives 2 s < 3 s, and Reset(2 s) moves the wake-up to 4.5 s. "Only shorten" holds for `delTick`, not for the wake-up time.
- `Stop`, the context and cancellation (table.go:19-20, 30-32, 36-40), and the teardown branch of `tick`, which stops the timer and clears it (table.go:49-54). These only signal cancellation. The model keeps no lifecycle state apart from the count of sweep loops started.
- Locking: the table mutex, each entry's embedded mutex, and the concurrency guarantees of `sync.Map` (table.go:14, 16; item.go:9). The model is sequential: the map is a field that each operation reassigns.
- `createdOn` (table.go:122, 134) is written and never read, so it is not part of the entry record.
- Time and duration overflow: Go's `time.Time` arithmetic and its 64-bit `time.Duration` saturate or wrap at their limits. The model uses unbounded integers of nanoseconds. Only the access counter's int64 wrap-around is modelled.
- Tables.Table.Add: Go returns a pointer to the stored entry, so later reads are visible to whoever holds it. The model returns the entry as a value at the time it was stored.
- Tables.Table.AddKeepAlive: returns the entry as a value, for the same reason as Add.
- Tables.Table.Get: Go returns `nil` both for a missing key and for a stored `nil` value. The model tells the two apart (None versus Some).
- Keys of type `interface{}`: a Go key of a type without equality makes `sync.Map` panic. The model's key type is a type parameter with equality.
- The registry is an explicit object, not a package-level variable. `LoadOrStore` is atomic, and the model's `T` is a sequential check followed by an insert.
- Tables.Table.Cleanup and Tables.Table.Fire require an existing timer and a started sweep loop (`sweepers > 0`). A sweep runs only inside the loop that Init starts after it creates the timer (table.go:26-33, 47-48). Without that loop nothing ever sweeps the table. Go would dereference a nil timer only if a sweep without one found an entry due within the ceiling (table.go:79-81).
