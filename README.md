# pokecache: a verified model of a time-expiring cache

This project models the cache of `internal/pokecache.go` in the Pokedex CLI.
The cache maps string keys (request URLs) to entries. Each entry holds an
opaque byte payload and the clock reading taken when it was stored. It has
three operations:

- `Add` overwrites the entry for a key and stamps it with the current time.
- `Get` reads the entry and reports a payload and a found flag.
- A periodic sweep deletes every entry whose age has reached the interval.

Module `PokeCache` (`pokecache.dfy`) holds the entry datatype and the class
`Cache`. The class has the entry map as a field (`entries`, the source's
`mpp`) and the interval as a constant. It has a constructor and the methods
`Add`, `Get` and `ReapLoop`. Beside the class are the functions that specify
it: `Index` is Go's map indexing with its zero value, `Lookup` is the answer
of `Get`, and `Reaped` is the map one sweep leaves. Lemmas about one
operation are stated on those functions.

Module `CacheTrace` (`cachetrace.dfy`) looks at whole sequences of calls.
The source's mutex makes every `Add`, `Get` and sweep atomic, so any
interleaving of callers and the sweeper is one sequence of these calls
applied in order. `Run` applies such a sequence, and the method `Apply`
is proved to leave a `Cache` object exactly as `Step` says, by calling `Add`,
`Get` or `ReapLoop`. The lemmas there prove the
lifecycle: the last `Add` of a key stays visible, a sweep enforces
expiry, reading never touches an entry, and every entry came from some `Add`.

Time is an integer parameter `now`. It replaces `time.Now()` in `Add` and
`time.Since` in the sweep. The interval is an integer in the same unit.

`Get` is modelled as the code is written: the flag is "the payload found by
indexing is non-empty", not "the key is present". So a key stored with an
empty payload answers `([], false)`, exactly like a missing key, and a caller
cannot cache an empty payload: it always reads as a miss.
`EmptyPayloadLooksAbsent` and the last clause of `CacheTrace.ConcreteScenario`
state this.

## Model

| member | source | states |
|---|---|---|
| PokeCache.Cache.constructor | internal/pokecache.go:19-23 | a new cache has no entries and keeps the interval exactly as passed; the constructor does not check it (the failure of the unmodelled ticker on a non-positive interval is under Left out) |
| PokeCache.Cache.Add | internal/pokecache.go:35-42 | the entry for the key becomes `{createdAt: now, val}`, replacing any earlier one; every other entry is unchanged; the key set grows by at most that key; the interval is a constant |
| PokeCache.Cache.Get | internal/pokecache.go:44-52 | changes nothing (no modifies clause); returns the stored payload for a present key and an empty one for a missing key; `found` holds exactly when the returned payload is non-empty; agrees with `Lookup` |
| PokeCache.Cache.ReapLoop | internal/pokecache.go:54-62 | the loop over the keys deletes exactly the entries with `now - createdAt >= interval`; survivors are unchanged and younger than the interval; the key set only shrinks; the result equals `Reaped` of the old map |
| PokeCache.AddThenGet | internal/pokecache.go:38-51 | right after `Add(k, v)`, `Get(k)` returns `v`, with found exactly when `v` is non-empty |
| PokeCache.AddOtherKey | internal/pokecache.go:38-51 | `Add` on one key leaves the answer of `Get` on every other key unchanged |
| PokeCache.FoundIffStoredNonEmpty | internal/pokecache.go:48-49 | the flag is set exactly when the key is present with a non-empty payload; a missing key gives `([], false)` |
| PokeCache.EmptyPayloadLooksAbsent | internal/pokecache.go:48-49 | a key stored with an empty payload gives the same answer `([], false)` as a missing key |
| PokeCache.ReapIdempotent | internal/pokecache.go:57-61 | a second sweep at the same reading changes nothing |
| PokeCache.ReapLaterSubsumes | internal/pokecache.go:57-61 | a sweep at `t1` then one at a later `t2` leaves what the sweep at `t2` alone leaves |
| PokeCache.ReapShrinks | internal/pokecache.go:57-61 | a sweep leaves a subset of the keys and never more entries than before |
| PokeCache.GetAfterReap | internal/pokecache.go:44-61 | after a sweep, `Get` misses on an expired key and answers as before on every other key |
| PokeCache.AddThenReap | internal/pokecache.go:38-61 | with a positive interval, an entry just added survives a sweep at the same reading, and the sweep treats other keys as before |
| PokeCache.NonPositiveIntervalEmpties | internal/pokecache.go:57-61 | a sweep called directly with a non-positive interval deletes every entry stamped no later than now; the program never makes such a call, since its ticker refuses a non-positive period |
| CacheTrace.Apply | internal/pokecache.go:35-62 | performing one call through the methods `Add`, `Get` or `ReapLoop` leaves the entries that `Step` describes, so the sequence lemmas hold of the class |
| CacheTrace.RunAppend | internal/pokecache.go:35-62 | applying two call sequences one after the other equals applying their concatenation |
| CacheTrace.GetsDoNotMatter | internal/pokecache.go:44-52 | removing every `Get` from a sequence of calls leaves the resulting entries unchanged: reading is not a touch |
| CacheTrace.EntriesComeFromAdds | internal/pokecache.go:35-62 | every entry left after a call sequence is either an initial one or exactly the entry some `Add` of that key stored |
| CacheTrace.LastAddIsVisible | internal/pokecache.go:35-62 | after `Add(k, v)` at `t`, with no later `Add` of `k` and no later sweep once the entry has expired, the entry is `{t, v}` and `Get(k)` returns `v` |
| CacheTrace.KeptThrough | internal/pokecache.go:35-62 | an entry that no later call replaces and no later sweep expires survives those calls unchanged |
| CacheTrace.SweptEntriesWereLive | internal/pokecache.go:54-62 | after a sweep at `r`, any entry for a key not re-added since was younger than the interval at `r` |
| CacheTrace.ExpiredAddIsGone | internal/pokecache.go:35-62 | after `Add(k, v)` at `t`, a later sweep at `r` with `r - t >= interval` and no `Add` of `k` since leaves `k` absent, and `Get(k)` misses |
| CacheTrace.UnaddedKeyUnchanged | internal/pokecache.go:35-62 | calls that never add a key can only delete its entry, never create or change one |
| CacheTrace.ConcreteScenario | internal/pokecache.go:35-62 | with interval 100: `[1,2]` added at 0 is found at 50 and after a sweep at 50, is gone after the sweep at 100; an empty payload reads as missing right after its `Add` |

## Left out

- The mutex (`sync.Mutex`): each method is one atomic step, and `CacheTrace` treats the calls as one serialized sequence.
- The ticker goroutine started by `NewCache`: the sweep is the method `ReapLoop`, called with a clock reading. When and how often it runs is not modelled.
- `time.Now()` and `time.Since`: replaced by the integer argument `now`. Clock readings are unbounded integers; the int64 nanosecond range of `time.Duration` and the saturation of `time.Time.Sub` are not modelled. Nothing assumes the clock is monotonic.
- The aliasing of Go slices: a payload is a value (`seq<bv8>`), so a caller mutating a slice after `Add` is not modelled.
- Go's nil versus empty slice: both are the empty sequence. `Get` on a missing key returns the zero entry's nil payload, which is the empty sequence here.
- The createdAt of Go's zero entry (`time.Time{}`): `ZeroEntry` uses 0. `Get` only ever reads the payload of that entry.
- `main.go` (HTTP fetches, JSON decoding, the command loop, `rand.Intn`) and `repl_test.go`: they are callers and tests of other code, not part of the cache.
- PokeCache.Cache.constructor: accepts any interval and returns a working cache. In the source, `NewCache` starts a goroutine that calls `time.NewTicker(interval)`, which panics for a non-positive interval; that unrecovered panic ends the process, so no sweep ever runs with such an interval. The model leaves the ticker out and so does not capture this failure.
- PokeCache.Cache.ReapLoop: uses one clock reading `now` for the whole sweep. The source takes a fresh reading for every entry it visits (`time.Since` inside the loop), so the cutoff moves forward during one sweep, and which entries right at the edge of the interval are deleted depends on Go's random map iteration order. `ensures entries == Reaped(old(entries), now, interval)` describes the case where all those readings are equal.
- A shutdown of the sweep: the code has none, so the model does not add one.
