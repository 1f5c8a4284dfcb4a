/** A model of the time-expiring key/value cache of package pokecache.

    The cache maps string keys to entries that carry the payload and the
    clock reading at which it was stored. `Add` overwrites and restamps an
    entry, `Get` reads one without touching it, and a periodic sweep
    (`ReapLoop`) deletes every entry whose age has reached the interval.
    The clock is an explicit integer argument; the lock and the ticker that
    drives the sweep are not modelled, so every operation is one atomic step.
 */
module PokeCache {

  /** One byte of a cached payload. */
  type Byte = bv8

  /** A stored payload and the clock reading taken when it was stored. */
  datatype CacheEntry = CacheEntry(createdAt: int, val: seq<Byte>)

  /** What indexing the map yields for a missing key: the zero value of the
      entry record, whose payload is empty (Go's nil slice). */
  const ZeroEntry: CacheEntry := CacheEntry(0, [])

  /** Indexing the map the way the source does: the stored entry, or the
      zero value when the key is missing. */
  function Index(m: map<string, CacheEntry>, key: string): (e: CacheEntry)
    ensures key in m ==> e == m[key]
    ensures key !in m ==> e.val == []
  {
    if key in m then m[key] else ZeroEntry
  }

  /** An entry is expired at `now` once its age has reached the interval. */
  predicate Expired(e: CacheEntry, now: int, interval: int)
  {
    now - e.createdAt >= interval
  }

  /** The map that one complete sweep at `now` leaves behind. */
  function Reaped(m: map<string, CacheEntry>, now: int, interval: int): (r: map<string, CacheEntry>)
  {
    map k | k in m && !Expired(m[k], now, interval) :: m[k]
  }

  /** The answer `Get` gives on map `m`: the payload found by indexing, and
      a flag that is set exactly when that payload is non-empty. A missing
      key and a key stored with an empty payload give the same answer. */
  function Lookup(m: map<string, CacheEntry>, key: string): (r: (seq<Byte>, bool))
  {
    var v := Index(m, key).val;
    (v, |v| != 0)
  }

  /** The cache object: the entry map and the fixed expiration interval. */
  class Cache {
    var entries: map<string, CacheEntry>
    const interval: int

    /** A new cache: no entries, and the interval exactly as given. The
        constructor itself does not check the interval; the ticker that the
        source starts beside it is not modelled. */
    constructor (interval: int)
      ensures entries == map[]
      ensures this.interval == interval
    {
      entries := map[];
      this.interval := interval;
    }

    /** Stores `val` under `key`, stamped with `now`, replacing any earlier
        entry for that key; every other entry stays as it was. */
    method Add(key: string, val: seq<Byte>, now: int)
      modifies this
      ensures entries == old(entries)[key := CacheEntry(now, val)]
      ensures key in entries && entries[key].createdAt == now && entries[key].val == val
      ensures entries.Keys == old(entries).Keys + {key}
      ensures forall k :: k in old(entries) && k != key ==> k in entries && entries[k] == old(entries)[k]
    {
      entries := entries[key := CacheEntry(now, val)];
    }

    /** Reads the entry for `key` without changing anything: the stored
        payload, or an empty one for a missing key, and `found` set exactly
        when that payload is non-empty. */
    method Get(key: string) returns (val: seq<Byte>, found: bool)
      ensures key in entries ==> val == entries[key].val
      ensures key !in entries ==> val == []
      ensures found <==> |val| > 0
      ensures (val, found) == Lookup(entries, key)
    {
      var e := Index(entries, key);
      if |e.val| == 0 {
        return e.val, false;
      }
      return e.val, true;
    }

    /** One sweep at `now`: visits every key and deletes the entry when its
        age has reached the interval. Exactly the expired entries go; the
        rest are left untouched and are all younger than the interval. */
    method ReapLoop(now: int)
      modifies this
      ensures entries == Reaped(old(entries), now, interval)
      ensures entries.Keys <= old(entries).Keys
      ensures forall k :: k in old(entries) ==> (k !in entries <==> Expired(old(entries)[k], now, interval))
      ensures forall k :: k in entries ==> entries[k] == old(entries)[k] && now - entries[k].createdAt < interval
    {
      var pending := entries.Keys;
      while pending != {}
        invariant pending <= entries.Keys <= old(entries).Keys
        invariant forall k :: k in entries ==> entries[k] == old(entries)[k]
        invariant forall k :: k in old(entries) && k !in pending ==>
                    (k in entries <==> !Expired(old(entries)[k], now, interval))
        decreases pending
      {
        var k :| k in pending;
        if Expired(entries[k], now, interval) {
          entries := entries - {k};
        }
        pending := pending - {k};
      }
    }
  }

  // ---------------------------------------------------------------------
  // Properties of single operations, stated on the specification functions

  /** Round trip: right after `Add(k, v)` a `Get(k)` returns `v`, and reports
      it found exactly when `v` is non-empty. */
  lemma AddThenGet(m: map<string, CacheEntry>, k: string, v: seq<Byte>, now: int)
    ensures Lookup(m[k := CacheEntry(now, v)], k) == (v, |v| > 0)
  {
  }

  /** `Add` on one key does not change what `Get` answers for another. */
  lemma AddOtherKey(m: map<string, CacheEntry>, k: string, v: seq<Byte>, now: int, k': string)
    requires k' != k
    ensures Lookup(m[k := CacheEntry(now, v)], k') == Lookup(m, k')
  {
  }

  /** The flag of `Get` is set exactly when the key is present with a
      non-empty payload; it is not a membership test. */
  lemma FoundIffStoredNonEmpty(m: map<string, CacheEntry>, k: string)
    ensures Lookup(m, k).1 <==> (k in m && |m[k].val| > 0)
    ensures k !in m ==> Lookup(m, k) == ([], false)
  {
  }

  /** A key stored with an empty payload cannot be told apart from a
      missing key. */
  lemma EmptyPayloadLooksAbsent(m: map<string, CacheEntry>, k: string, now: int)
    ensures Lookup(m[k := CacheEntry(now, [])], k) == Lookup(m - {k}, k) == ([], false)
  {
  }

  /** Repeating a sweep at the same clock reading changes nothing. */
  lemma ReapIdempotent(m: map<string, CacheEntry>, now: int, interval: int)
    ensures Reaped(Reaped(m, now, interval), now, interval) == Reaped(m, now, interval)
  {
  }

  /** A sweep at `t1` followed by one at a later `t2` leaves what the sweep
      at `t2` alone leaves: an entry expired at `t1` is expired at `t2`. */
  lemma ReapLaterSubsumes(m: map<string, CacheEntry>, t1: int, t2: int, interval: int)
    requires t1 <= t2
    ensures Reaped(Reaped(m, t1, interval), t2, interval) == Reaped(m, t2, interval)
  {
  }

  /** A sweep never adds entries, so the cache never grows by sweeping. */
  lemma {:induction false} ReapShrinks(m: map<string, CacheEntry>, now: int, interval: int)
    ensures Reaped(m, now, interval).Keys <= m.Keys
    ensures |Reaped(m, now, interval)| <= |m|
  {
    var r := Reaped(m, now, interval);
    assert r.Keys <= m.Keys;
    SubsetCard(r.Keys, m.Keys);
  }

  /** A subset is no larger than its superset. */
  lemma {:induction false} SubsetCard<T>(a: set<T>, b: set<T>)
    requires a <= b
    ensures |a| <= |b|
  {
    if a != {} {
      var x :| x in a;
      SubsetCard(a - {x}, b - {x});
    }
  }

  /** What `Get` answers after a sweep: a miss for an expired key, and the
      answer from before the sweep for every other key. */
  lemma GetAfterReap(m: map<string, CacheEntry>, now: int, interval: int, k: string)
    ensures k in m && Expired(m[k], now, interval) ==> Lookup(Reaped(m, now, interval), k) == ([], false)
    ensures !(k in m && Expired(m[k], now, interval)) ==> Lookup(Reaped(m, now, interval), k) == Lookup(m, k)
  {
  }

  /** With a positive interval, an entry added at `now` survives a sweep at
      the same reading and the sweep treats the other keys as before. */
  lemma AddThenReap(m: map<string, CacheEntry>, k: string, v: seq<Byte>, now: int, interval: int)
    requires interval > 0
    ensures Reaped(m[k := CacheEntry(now, v)], now, interval) == Reaped(m, now, interval)[k := CacheEntry(now, v)]
  {
  }

  /** A direct sweep with a non-positive interval empties a cache whose
      entries were all stamped no later than `now`. The program itself never
      runs such a sweep: its ticker refuses a non-positive period. */
  lemma NonPositiveIntervalEmpties(m: map<string, CacheEntry>, now: int, interval: int)
    requires interval <= 0
    requires forall k :: k in m ==> m[k].createdAt <= now
    ensures Reaped(m, now, interval) == map[]
  {
  }
}
