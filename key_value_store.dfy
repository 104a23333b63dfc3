/**
 * A string key/value store whose entries carry a time to live in milliseconds.
 * A time to live of 0 makes the entry immortal; otherwise it expires at insertion time
 * plus the time to live (Java `long` arithmetic). Reads hide expired entries; a sweep
 * removes them. The wall clock is the `now` parameter of each operation.
 */
module KeyValueStore {
  import opened Wrappers
  import opened JavaLang

  /** An entry: the stored value and the last millisecond at which it is alive. */
  datatype Entry = Entry(value: string, expiresAt: int64)

  /** The entry `put` creates at time `now`: `Long.MAX_VALUE` for ttl 0, else `now + ttl` in `long` arithmetic. */
  function NewEntry(value: string, ttl: int64, now: int64): Entry {
    Entry(value, if ttl == 0 then LongMax else Wrap64(now + ttl))
  }

  /** An entry is alive up to and including its expiry time. */
  predicate Alive(e: Entry, now: int64) {
    now <= e.expiresAt
  }

  /** What `get` returns: the value of a present, alive entry, otherwise `null`. */
  function Lookup(m: map<string, Entry>, key: string, now: int64): (r: Option<string>)
    ensures r.Some? <==> key in m && Alive(m[key], now)
    ensures r.Some? ==> r.value == m[key].value
  {
    if key in m && Alive(m[key], now) then Some(m[key].value) else None
  }

  /** The map left after removing every entry that is not alive at `now`. */
  function Swept(m: map<string, Entry>, now: int64): (r: map<string, Entry>)
    ensures forall k :: k in r <==> k in m && Alive(m[k], now)
    ensures forall k :: k in r ==> r[k] == m[k]
  {
    map k | k in m && Alive(m[k], now) :: m[k]
  }

  /** An entry put with ttl 0 is alive at every time. */
  lemma ImmortalEntry(value: string, now: int64, t: int64)
    ensures Alive(NewEntry(value, 0, now), t)
  {
  }

  /** Without overflow, an entry put at `now` with a positive ttl is alive exactly until `now + ttl`, inclusive. */
  lemma AliveWindow(value: string, ttl: int64, now: int64, t: int64)
    requires 0 < ttl && IsLong(now + ttl)
    ensures Alive(NewEntry(value, ttl, now), t) <==> t <= now + ttl
  {
  }

  /** A ttl so large that `now + ttl` overflows wraps the expiry below `now`: the entry is dead at once. */
  lemma OverflowingTtlIsDead(value: string, ttl: int64, now: int64)
    requires 0 < ttl && !IsLong(now + ttl)
    ensures !Alive(NewEntry(value, ttl, now), now)
  {
    Wrap64Overflow(now + ttl);
  }

  /** Once an entry is dead it stays dead. */
  lemma DeadStaysDead(e: Entry, now: int64, t: int64)
    requires !Alive(e, now) && now <= t
    ensures !Alive(e, t)
  {
  }

  /** A sweep at `now` cannot be observed by any later read. */
  lemma {:induction false} SweepUnobservable(m: map<string, Entry>, now: int64, key: string, t: int64)
    requires now <= t
    ensures Lookup(Swept(m, now), key, t) == Lookup(m, key, t)
  {
    if key in m && !Alive(m[key], now) {
      DeadStaysDead(m[key], now, t);
    }
  }

  /**
   * A read right after `put` sees the new value when the ttl is 0 or a positive ttl that
   * does not overflow; every other key reads as before.
   */
  lemma PutThenGet(m: map<string, Entry>, key: string, value: string, ttl: int64, now: int64, other: string, t: int64)
    requires ttl == 0 || (0 < ttl && IsLong(now + ttl))
    ensures Lookup(m[key := NewEntry(value, ttl, now)], key, now) == Some(value)
    ensures other != key ==> Lookup(m[key := NewEntry(value, ttl, now)], other, t) == Lookup(m, other, t)
  {
  }

  /** After `delete` the key reads as absent at every time. */
  lemma DeleteThenGet(m: map<string, Entry>, key: string, t: int64)
    ensures Lookup(m - {key}, key, t) == None
  {
  }

  /** Sweeping twice at the same time removes nothing more. */
  lemma SweepIdempotent(m: map<string, Entry>, now: int64)
    ensures Swept(Swept(m, now), now) == Swept(m, now)
  {
  }

  class Store {
    /** The whole database. */
    var entries: map<string, Entry>

    constructor()
      ensures entries == map[]
    {
      entries := map[];
    }

    /** `put`: the key now maps to a fresh entry; every other key is untouched. */
    method Put(key: string, value: string, ttl: int64, now: int64)
      modifies this
      ensures entries == old(entries)[key := NewEntry(value, ttl, now)]
    {
      entries := entries[key := NewEntry(value, ttl, now)];
    }

    /** `putSeconds`: `put` with the ttl converted to milliseconds in `long` arithmetic. */
    method PutSeconds(key: string, value: string, ttlSeconds: int64, now: int64)
      modifies this
      ensures entries == old(entries)[key := NewEntry(value, Wrap64(ttlSeconds * 1000), now)]
    {
      Put(key, value, Wrap64(ttlSeconds * 1000), now);
    }

    /** `get`: the value if the key is present and alive at `now`, else `null`; the map is not changed. */
    method Get(key: string, now: int64) returns (r: Option<string>)
      ensures r == Lookup(entries, key, now)
    {
      if key in entries && Alive(entries[key], now) {
        r := Some(entries[key].value);
      } else {
        r := None;
      }
    }

    /** `delete`: removes the key whatever its ttl; absent keys are ignored. */
    method Delete(key: string)
      modifies this
      ensures entries == old(entries) - {key}
    {
      entries := entries - {key};
    }

    /** `size`: the number of stored keys, expired but unswept ones included. */
    method Size() returns (n: int)
      ensures n == |entries.Keys|
    {
      n := |entries|;
    }

    /** The background sweep: every entry not alive at `now` is removed, one key at a time. */
    method Sweep(now: int64)
      modifies this
      ensures entries == Swept(old(entries), now)
    {
      ghost var m0 := entries;
      var pending := entries.Keys;
      while pending != {}
        invariant pending <= m0.Keys
        invariant forall k :: k in entries <==> k in m0 && (k in pending || Alive(m0[k], now))
        invariant forall k :: k in entries ==> entries[k] == m0[k]
        decreases pending
      {
        var k :| k in pending;
        if !Alive(entries[k], now) {
          entries := entries - {k};
        }
        pending := pending - {k};
      }
      assert entries.Keys == Swept(m0, now).Keys;
    }
  }

  /**
   * The demonstration run: a 2-second token and an immortal name at time 0; the token
   * is readable at 0 and gone at 2500 ms; the name is readable until deleted.
   */
  method Demo() returns (token0: Option<string>, token2500: Option<string>, name: Option<string>, deleted: Option<string>)
    ensures token0 == Some("XYZ") && token2500 == None
    ensures name == Some("Alice") && deleted == None
  {
    var kv := new Store();
    kv.PutSeconds("token", "XYZ", 2, 0);
    kv.Put("name", "Alice", 0, 0);
    token0 := kv.Get("token", 0);
    token2500 := kv.Get("token", 2500);
    name := kv.Get("name", 2500);
    kv.Delete("name");
    deleted := kv.Get("name", 2500);
  }
}
