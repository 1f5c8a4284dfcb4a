/** Sequences of cache calls. The lock in the cache serializes every `Add`,
    `Get` and sweep, so any interleaving of callers and the sweeper amounts
    to one sequence of these calls applied in order. */
module CacheTrace {
  import opened PokeCache

  /** One serialized call on the cache, with the clock reading it sees. */
  datatype Call =
    | AddCall(key: string, val: seq<Byte>, now: int)
    | GetCall(key: string)
    | ReapCall(now: int)

  /** The entry map after one call, as the methods of `Cache` leave it. */
  function Step(m: map<string, CacheEntry>, interval: int, c: Call): (r: map<string, CacheEntry>)
  {
    match c
    case AddCall(k, v, t) => m[k := CacheEntry(t, v)]
    case GetCall(_) => m
    case ReapCall(t) => Reaped(m, t, interval)
  }

  /** The entry map after a sequence of calls, applied first to last. */
  function Run(m: map<string, CacheEntry>, interval: int, calls: seq<Call>): (r: map<string, CacheEntry>)
    decreases |calls|
  {
    if calls == [] then m else Run(Step(m, interval, calls[0]), interval, calls[1..])
  }

  /** Performs one call on a cache object through its methods; the entries
      it leaves are those `Step` describes, so the lemmas about `Run` are
      lemmas about sequences of method calls on `Cache`. */
  method Apply(c: Cache, call: Call)
    modifies c
    ensures c.entries == Step(old(c.entries), c.interval, call)
  {
    match call
    case AddCall(k, v, t) =>
      c.Add(k, v, t);
    case GetCall(k) =>
      var _, _ := c.Get(k);
    case ReapCall(t) =>
      c.ReapLoop(t);
  }

  /** True when no call in `calls` is an `Add` of `k`. */
  predicate NoAddOf(calls: seq<Call>, k: string)
  {
    forall j :: 0 <= j < |calls| ==> !(calls[j].AddCall? && calls[j].key == k)
  }

  /** True when no sweep in `calls` runs at a reading where an entry stamped
      `t` would have expired. */
  predicate NoSweepExpires(calls: seq<Call>, t: int, interval: int)
  {
    forall j :: 0 <= j < |calls| && calls[j].ReapCall? ==> calls[j].now - t < interval
  }

  /** The calls with every `Get` dropped. */
  function WithoutGets(calls: seq<Call>): (r: seq<Call>)
    ensures |r| <= |calls|
    ensures forall j :: 0 <= j < |r| ==> !r[j].GetCall?
  {
    if calls == [] then []
    else if calls[0].GetCall? then WithoutGets(calls[1..])
    else [calls[0]] + WithoutGets(calls[1..])
  }

  /** Running two sequences back to back is running their concatenation. */
  lemma {:induction false} RunAppend(m: map<string, CacheEntry>, interval: int, a: seq<Call>, b: seq<Call>)
    ensures Run(m, interval, a + b) == Run(Run(m, interval, a), interval, b)
    decreases |a|
  {
    if a == [] {
      assert a + b == b;
    } else {
      assert (a + b)[0] == a[0] && (a + b)[1..] == a[1..] + b;
      RunAppend(Step(m, interval, a[0]), interval, a[1..], b);
    }
  }

  /** Reading is not a touch: the `Get` calls of a sequence have no effect
      on the entries, their stamps or their expiry. */
  lemma {:induction false} GetsDoNotMatter(m: map<string, CacheEntry>, interval: int, calls: seq<Call>)
    ensures Run(m, interval, calls) == Run(m, interval, WithoutGets(calls))
    decreases |calls|
  {
    if calls != [] {
      GetsDoNotMatter(Step(m, interval, calls[0]), interval, calls[1..]);
      if !calls[0].GetCall? {
        var w := [calls[0]] + WithoutGets(calls[1..]);
        assert w[0] == calls[0] && w[1..] == WithoutGets(calls[1..]);
      }
    }
  }

  /** Every entry left after a sequence of calls is either one the map
      started with or exactly the entry some `Add` of that key stored. */
  lemma {:induction false} EntriesComeFromAdds(m: map<string, CacheEntry>, interval: int, calls: seq<Call>, k: string)
    requires k in Run(m, interval, calls)
    ensures var e := Run(m, interval, calls)[k];
            (k in m && e == m[k]) ||
            exists j :: 0 <= j < |calls| && calls[j] == AddCall(k, e.val, e.createdAt)
    decreases |calls|
  {
    if calls != [] {
      var s := Step(m, interval, calls[0]);
      var e := Run(m, interval, calls)[k];
      EntriesComeFromAdds(s, interval, calls[1..], k);
      if k in s && e == s[k] {
        if calls[0] == AddCall(k, e.val, e.createdAt) {
        } else {
          assert k in m && e == m[k];
        }
      } else {
        var j :| 0 <= j < |calls[1..]| && calls[1..][j] == AddCall(k, e.val, e.createdAt);
        assert calls[j + 1] == AddCall(k, e.val, e.createdAt);
      }
    }
  }

  /** Overwrite and visibility: after an `Add(k, v)` at `t`, as long as no
      later `Add` of `k` follows and no later sweep runs once the entry has
      expired, the entry for `k` is the one that `Add` stored, so `Get(k)`
      returns `v` (found exactly when `v` is non-empty). */
  lemma {:induction false} LastAddIsVisible(m: map<string, CacheEntry>, interval: int,
                                            pre: seq<Call>, k: string, v: seq<Byte>, t: int, post: seq<Call>)
    requires NoAddOf(post, k)
    requires NoSweepExpires(post, t, interval)
    ensures var r := Run(m, interval, pre + [AddCall(k, v, t)] + post);
            k in r && r[k] == CacheEntry(t, v) && Lookup(r, k) == (v, |v| > 0)
  {
    RunAppend(m, interval, pre + [AddCall(k, v, t)], post);
    RunAppend(m, interval, pre, [AddCall(k, v, t)]);
    var s := Run(Run(m, interval, pre), interval, [AddCall(k, v, t)]);
    assert k in s && s[k] == CacheEntry(t, v);
    KeptThrough(s, interval, post, k);
  }

  /** An entry that no later call replaces and no later sweep expires is
      still there, unchanged, after those calls. */
  lemma {:induction false} KeptThrough(m: map<string, CacheEntry>, interval: int, calls: seq<Call>, k: string)
    requires k in m
    requires NoAddOf(calls, k)
    requires NoSweepExpires(calls, m[k].createdAt, interval)
    ensures k in Run(m, interval, calls) && Run(m, interval, calls)[k] == m[k]
    decreases |calls|
  {
    if calls != [] {
      var s := Step(m, interval, calls[0]);
      assert !(calls[0].AddCall? && calls[0].key == k);
      assert calls[0].ReapCall? ==> calls[0].now - m[k].createdAt < interval;
      assert k in s && s[k] == m[k];
      assert forall j :: 0 <= j < |calls[1..]| ==> calls[1..][j] == calls[j + 1];
      KeptThrough(s, interval, calls[1..], k);
    }
  }

  /** Expiry is enforced by the sweep: once a sweep at `r` has run, an entry
      for `k` that is still there and was not re-added afterwards was
      younger than the interval at `r`. */
  lemma {:induction false} SweptEntriesWereLive(m: map<string, CacheEntry>, interval: int,
                                                pre: seq<Call>, r: int, post: seq<Call>, k: string)
    requires NoAddOf(post, k)
    requires k in Run(m, interval, pre + [ReapCall(r)] + post)
    ensures r - Run(m, interval, pre + [ReapCall(r)] + post)[k].createdAt < interval
  {
    RunAppend(m, interval, pre + [ReapCall(r)], post);
    RunAppend(m, interval, pre, [ReapCall(r)]);
    var s := Run(Run(m, interval, pre), interval, [ReapCall(r)]);
    assert s == Reaped(Run(m, interval, pre), r, interval);
    UnaddedKeyUnchanged(s, interval, post, k);
  }

  /** End-to-end expiry: after `Add(k, v)` at `t`, a later sweep at `r` with
      `r - t >= interval` and no `Add` of `k` since the one at `t` leaves `k`
      absent, so `Get(k)` misses from then on. */
  lemma {:induction false} ExpiredAddIsGone(m: map<string, CacheEntry>, interval: int, pre: seq<Call>,
                                            k: string, v: seq<Byte>, t: int, mid: seq<Call>, r: int, post: seq<Call>)
    requires NoAddOf(mid, k) && NoAddOf(post, k)
    requires r - t >= interval
    ensures var res := Run(m, interval, pre + [AddCall(k, v, t)] + mid + [ReapCall(r)] + post);
            k !in res && Lookup(res, k) == ([], false)
  {
    var a := pre + [AddCall(k, v, t)];
    RunAppend(m, interval, a + mid + [ReapCall(r)], post);
    RunAppend(m, interval, a + mid, [ReapCall(r)]);
    RunAppend(m, interval, a, mid);
    RunAppend(m, interval, pre, [AddCall(k, v, t)]);
    var s1 := Run(m, interval, a);
    assert k in s1 && s1[k] == CacheEntry(t, v);
    var s2 := Run(s1, interval, mid);
    UnaddedKeyUnchanged(s1, interval, mid, k);
    var s3 := Run(s2, interval, [ReapCall(r)]);
    assert s3 == Reaped(s2, r, interval);
    assert k !in s3;
    UnaddedKeyUnchanged(s3, interval, post, k);
  }

  /** A key that no call adds can only lose its entry, never gain or change
      one. */
  lemma {:induction false} UnaddedKeyUnchanged(m: map<string, CacheEntry>, interval: int, calls: seq<Call>, k: string)
    requires NoAddOf(calls, k)
    ensures k in Run(m, interval, calls) ==> k in m && Run(m, interval, calls)[k] == m[k]
    decreases |calls|
  {
    if calls != [] {
      var s := Step(m, interval, calls[0]);
      assert !(calls[0].AddCall? && calls[0].key == k);
      assert forall j :: 0 <= j < |calls[1..]| ==> calls[1..][j] == calls[j + 1];
      UnaddedKeyUnchanged(s, interval, calls[1..], k);
    }
  }

  /** A concrete run with a 100-unit interval: a payload added at 0 is found
      at 50, a sweep at 50 keeps it, the sweep at 100 removes it and a later
      `Get` misses. An empty payload is reported missing even right after
      its `Add`. */
  lemma ConcreteScenario()
    ensures Lookup(Run(map[], 100, [AddCall("u1", [0x01, 0x02], 0)]), "u1") == ([0x01, 0x02], true)
    ensures Lookup(Run(map[], 100, [AddCall("u1", [0x01, 0x02], 0), ReapCall(50)]), "u1") == ([0x01, 0x02], true)
    ensures Lookup(Run(map[], 100, [AddCall("u1", [0x01, 0x02], 0), ReapCall(50), ReapCall(100)]), "u1") == ([], false)
    ensures Lookup(Run(map[], 100, [AddCall("u2", [], 0)]), "u2") == ([], false)
  {
  }
}
