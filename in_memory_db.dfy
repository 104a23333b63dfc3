/**
 * An in-memory database: each key holds a list of (field, value) items, each item stamped
 * with a timestamp and a time to live (`int` arithmetic; ttl 0 means immortal). Lookups
 * return the first matching item of the key's list.
 */
module InMemoryDB {
  import opened Wrappers
  import opened JavaLang

  /** An item of a key's list. Items made by `set` carry timestamp 0 and ttl 0. */
  datatype Item = Item(field: string, value: string, timestamp: int32, ttl: int32)

  /** `isAlive`: immortal when ttl is 0, else alive while `ts <= timestamp + ttl` (the sum in `int` arithmetic). */
  predicate IsAlive(it: Item, ts: int32) {
    it.ttl == 0 || ts <= Wrap32(it.timestamp + it.ttl)
  }

  /** The item tests the lookups make while walking a list. */
  datatype Query =
    | FieldIs(field: string)                        // `get` and `delete`: exact field name
    | LiveFieldAt(field: string, ts: int32)         // `getAt` and `deleteAt`: field ignoring case, alive at ts
    | LiveAt(ts: int32)                             // `scanAt`: any item alive at ts
    | LivePrefixAt(prefix: string, ts: int32)       // `scanByPrefixAt`: field starting with prefix, alive at ts

  predicate Matches(q: Query, it: Item) {
    match q
    case FieldIs(f) => it.field == f
    case LiveFieldAt(f, ts) => EqualsIgnoreCase(it.field, f) && IsAlive(it, ts)
    case LiveAt(ts) => IsAlive(it, ts)
    case LivePrefixAt(p, ts) => p <= it.field && IsAlive(it, ts)
  }

  /** The index of the first item at or after `from` that matches, if any. */
  function FindFrom(items: seq<Item>, q: Query, from: nat): (r: Option<nat>)
    requires from <= |items|
    ensures r.Some? ==> from <= r.value < |items| && Matches(q, items[r.value])
    ensures r.Some? ==> forall j :: from <= j < r.value ==> !Matches(q, items[j])
    ensures r.None? ==> forall j :: from <= j < |items| ==> !Matches(q, items[j])
    decreases |items| - from
  {
    if from == |items| then None
    else if Matches(q, items[from]) then Some(from)
    else FindFrom(items, q, from + 1)
  }

  /** The index of the first matching item, if any. */
  function FindFirst(items: seq<Item>, q: Query): Option<nat> {
    FindFrom(items, q, 0)
  }

  /** The value of the first matching item, or `null`. */
  function FirstValue(items: seq<Item>, q: Query): Option<string> {
    match FindFirst(items, q)
    case None => None
    case Some(j) => Some(items[j].value)
  }

  /** How a scan shows an item: `field(value)`. */
  function Render(it: Item): string {
    it.field + "(" + it.value + ")"
  }

  /** What the scans return: a one-element list for the first matching item, or `null`. */
  function FirstRendered(items: seq<Item>, q: Query): Option<seq<string>> {
    match FindFirst(items, q)
    case None => None
    case Some(j) => Some([Render(items[j])])
  }

  /** The items that do not match, in their original order (`removeIf`). */
  function Remove(items: seq<Item>, q: Query): (r: seq<Item>)
    ensures |r| <= |items|
    ensures forall j :: 0 <= j < |r| ==> !Matches(q, r[j]) && r[j] in items
    ensures forall j :: 0 <= j < |items| && !Matches(q, items[j]) ==> items[j] in r
    ensures |r| == |items| <==> FindFirst(items, q).None?
  {
    if items == [] then []
    else
      var rest := Remove(items[1..], q);
      assert FindFirst(items[1..], q).None? <==> FindFrom(items, q, 1).None? by {
        FindFromShift(items, q, 1);
      }
      if Matches(q, items[0]) then rest else [items[0]] + rest
  }

  /** Searching a suffix is searching the whole list from the suffix's start. */
  lemma {:induction false} FindFromShift(items: seq<Item>, q: Query, k: nat)
    requires k <= |items|
    ensures FindFirst(items[k..], q).None? <==> FindFrom(items, q, k).None?
  {
    var r := FindFrom(items, q, k);
    if r.Some? {
      assert Matches(q, items[k..][r.value - k]);
    }
    if FindFirst(items[k..], q).Some? {
      var j := FindFirst(items[k..], q).value;
      assert items[k..][j] == items[k + j];
    }
  }

  /** What `setWithTTL` does to the existing items: those with the field take the new value, timestamp and ttl. */
  function Overwrite(it: Item, field: string, value: string, ts: int32, ttl: int32): Item {
    if it.field == field then Item(field, value, ts, ttl) else it
  }

  /** An item stored by `set` is alive at every timestamp. */
  lemma SetItemImmortal(field: string, value: string, ts: int32)
    ensures IsAlive(Item(field, value, 0, 0), ts)
  {
  }

  /** Without `int` overflow, an item is alive iff it is immortal or `ts` is within its window. */
  lemma IsAliveWindow(it: Item, ts: int32)
    requires IsInt(it.timestamp + it.ttl)
    ensures IsAlive(it, ts) <==> it.ttl == 0 || ts <= it.timestamp + it.ttl
  {
  }

  /** After `deleteAt`, a `getAt` with the same field and timestamp finds nothing. */
  lemma DeleteAtThenGetAt(items: seq<Item>, field: string, ts: int32)
    ensures FirstValue(Remove(items, LiveFieldAt(field, ts)), LiveFieldAt(field, ts)) == None
  {
  }

  /** `removeIf` twice removes nothing more. */
  lemma {:induction false} RemoveIdempotent(items: seq<Item>, q: Query)
    ensures Remove(Remove(items, q), q) == Remove(items, q)
  {
    if items != [] {
      RemoveIdempotent(items[1..], q);
    }
  }

  /** `removeIf` on one item keeps it exactly when it does not match. */
  lemma RemoveSingle(x: Item, q: Query)
    ensures Remove([x], q) == if Matches(q, x) then [] else [x]
  {
    assert [x][1..] == [];
  }

  /** `removeIf` filters in order: the survivors of a concatenation are those of each part, in turn. */
  lemma {:induction false} RemoveAppend(a: seq<Item>, b: seq<Item>, q: Query)
    ensures Remove(a + b, q) == Remove(a, q) + Remove(b, q)
    decreases |a|
  {
    if a != [] {
      assert (a + b)[1..] == a[1..] + b;
      RemoveAppend(a[1..], b, q);
    } else {
      assert a + b == b;
    }
  }

  class Database {
    var store: map<string, seq<Item>>

    constructor()
      ensures store == map[]
    {
      store := map[];
    }

    /** The list kept for `key`; an absent key behaves as an empty list for every lookup. */
    function Items(key: string): seq<Item>
      reads this
    {
      if key in store then store[key] else []
    }

    /** The loop the lookups share: walk the list and stop at the first matching item. */
    static method Search(items: seq<Item>, q: Query) returns (r: Option<nat>)
      ensures r == FindFirst(items, q)
    {
      var i := 0;
      while i < |items|
        invariant 0 <= i <= |items|
        invariant FindFirst(items, q) == FindFrom(items, q, i)
      {
        if Matches(q, items[i]) {
          return Some(i);
        }
        i := i + 1;
      }
      return None;
    }

    /** `set`: appends one immortal item, even when the field is already present. */
    method Set(key: string, field: string, value: string)
      modifies this
      ensures store == old(store)[key := old(Items(key)) + [Item(field, value, 0, 0)]]
    {
      store := store[key := Items(key) + [Item(field, value, 0, 0)]];
    }

    /** `get`: the value of the first item with exactly this field, or `null`. */
    method Get(key: string, field: string) returns (r: Option<string>)
      ensures r == FirstValue(Items(key), FieldIs(field))
    {
      var items := Items(key);
      var j := Search(items, FieldIs(field));
      r := if j.Some? then Some(items[j.value].value) else None;
    }

    /** `delete`: removes every item with exactly this field; the key must be present. */
    method Delete(key: string, field: string)
      requires key in store
      modifies this
      ensures store == old(store)[key := Remove(old(store)[key], FieldIs(field))]
    {
      store := store[key := Remove(store[key], FieldIs(field))];
    }

    /** `setAt`: `setWithTTL` with ttl 0. */
    method SetAt(key: string, field: string, value: string, ts: int32)
      modifies this
      ensures store == old(store)[key := Rewritten(old(Items(key)), field, value, ts, 0)]
    {
      SetWithTtl(key, field, value, ts, 0);
    }

    /** The list `setWithTTL` leaves: every item with the field overwritten, then one new item appended. */
    static function Rewritten(items: seq<Item>, field: string, value: string, ts: int32, ttl: int32): (r: seq<Item>)
      ensures |r| == |items| + 1
      ensures r[|items|] == Item(field, value, ts, ttl)
      ensures forall j :: 0 <= j < |items| && items[j].field != field ==> r[j] == items[j]
      ensures forall j :: 0 <= j < |items| && items[j].field == field ==> r[j] == Item(field, value, ts, ttl)
    {
      seq(|items|, j requires 0 <= j < |items| => Overwrite(items[j], field, value, ts, ttl)) + [Item(field, value, ts, ttl)]
    }

    /** `setWithTTL`: the loop overwrites each item with the field in place, then a new item is appended. */
    method SetWithTtl(key: string, field: string, value: string, ts: int32, ttl: int32)
      modifies this
      ensures store == old(store)[key := Rewritten(old(Items(key)), field, value, ts, ttl)]
    {
      var items := Items(key);
      ghost var before := items;
      var i := 0;
      while i < |items|
        invariant 0 <= i <= |items| == |before|
        invariant forall j :: 0 <= j < i ==> items[j] == Overwrite(before[j], field, value, ts, ttl)
        invariant forall j :: i <= j < |items| ==> items[j] == before[j]
      {
        if items[i].field == field {
          items := items[i := Item(field, value, ts, ttl)];
        }
        i := i + 1;
      }
      items := items + [Item(field, value, ts, ttl)];
      assert items == Rewritten(before, field, value, ts, ttl);
      store := store[key := items];
    }

    /** `getAt`: the value of the first item whose field matches ignoring case and is alive at `ts`, or `null`. */
    method GetAt(key: string, field: string, ts: int32) returns (r: Option<string>)
      ensures r == FirstValue(Items(key), LiveFieldAt(field, ts))
    {
      var items := Items(key);
      var j := Search(items, LiveFieldAt(field, ts));
      r := if j.Some? then Some(items[j.value].value) else None;
    }

    /**
     * `deleteAt`: false for an unknown key; otherwise removes the items that match ignoring
     * case and are alive at `ts`, and answers whether any was removed.
     */
    method DeleteAt(key: string, field: string, ts: int32) returns (removed: bool)
      modifies this
      ensures key !in old(store) ==> !removed && store == old(store)
      ensures key in old(store) ==> store == old(store)[key := Remove(old(store)[key], LiveFieldAt(field, ts))]
      ensures removed <==> FindFirst(old(Items(key)), LiveFieldAt(field, ts)).Some?
    {
      if key !in store {
        return false;
      }
      var items := store[key];
      var kept := Remove(items, LiveFieldAt(field, ts));
      store := store[key := kept];
      removed := |kept| < |items|;
    }

    /** `scanAt`: `[field(value)]` for the first item alive at `ts`, or `null`. */
    method ScanAt(key: string, ts: int32) returns (r: Option<seq<string>>)
      ensures r == FirstRendered(Items(key), LiveAt(ts))
    {
      var items := Items(key);
      var j := Search(items, LiveAt(ts));
      r := if j.Some? then Some([Render(items[j.value])]) else None;
    }

    /** `scanByPrefixAt`: as `scanAt`, among the items whose field starts with `prefix` (case-sensitive). */
    method ScanByPrefixAt(key: string, prefix: string, ts: int32) returns (r: Option<seq<string>>)
      ensures r == FirstRendered(Items(key), LivePrefixAt(prefix, ts))
    {
      var items := Items(key);
      var j := Search(items, LivePrefixAt(prefix, ts));
      r := if j.Some? then Some([Render(items[j.value])]) else None;
    }
  }

  /** After `setWithTTL`, `get` of the same field returns the new value. */
  lemma SetWithTtlThenGet(items: seq<Item>, field: string, value: string, ts: int32, ttl: int32)
    ensures FirstValue(Database.Rewritten(items, field, value, ts, ttl), FieldIs(field)) == Some(value)
  {
    var r := Database.Rewritten(items, field, value, ts, ttl);
    assert Matches(FieldIs(field), r[|items|]);
  }

  /**
   * The demonstration run: `name` set to Alice, a `session` item at 100 with ttl 10 read at
   * 108 and at 120, then scans at 200.
   */
  method Demo() returns (name: Option<string>, at108: Option<string>, at120: Option<string>, scan: Option<seq<string>>, prefixed: Option<seq<string>>)
    ensures name == Some("Alice")
    ensures at108 == Some("xyz") && at120 == None
    ensures scan == Some(["name(Alice)"]) && prefixed == Some(["name(Alice)"])
  {
    var db := new Database();
    db.Set("user:1", "name", "Alice");
    name := db.Get("user:1", "name");
    db.SetWithTtl("user:1", "session", "xyz", 100, 10);
    var items := db.Items("user:1");
    assert items == [Item("name", "Alice", 0, 0), Item("session", "xyz", 100, 10)];
    at108 := db.GetAt("user:1", "session", 108);
    at120 := db.GetAt("user:1", "session", 120);
    assert Render(items[0]) == "name(Alice)";
    scan := db.ScanAt("user:1", 200);
    prefixed := db.ScanByPrefixAt("user:1", "na", 200);
  }
}
