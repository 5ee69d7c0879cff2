/**
 cachedByKeys: reading values through a cache that is filled from a store.
 */
module RawCache {
  import opened Collections

  type Id = string
  type Val = string
  datatype Row = Row(id: Id, columns: string)

  /** A cache key is made of a name and an id. */
  datatype Key = Key(name: string, id: Id)

  type Entries = map<Key, Val>

  /** What a call works with: the store behind `fetch`, the name of its keys, and toValue. */
  datatype Source = Source(store: map<Id, Row>, name: string, toValue: Row -> Val) {

    predicate Valid() {
      forall id | id in store :: store[id].id == id
    }

    function Value(id: Id): Val
      requires id in store
    {
      toValue(store[id])
    }

    /** What is cached is what the store would give. */
    ghost predicate Coherent(entries: Entries) {
      forall id | Key(name, id) in entries :: id in store && entries[Key(name, id)] == Value(id)
    }

    /** The values of those ids that exist. */
    function Values(ids: set<Id>): map<Id, Val> {
      map id | id in ids && id in store :: Value(id)
    }
  }

  function Ids(rows: seq<Row>): set<Id> {
    set r | r in rows :: r.id
  }

  lemma IdsSnoc(rows: seq<Row>, i: nat)
    requires i < |rows|
    ensures Ids(rows[..i + 1]) == Ids(rows[..i]) + {rows[i].id}
  {
    assert rows[..i + 1] == rows[..i] + [rows[i]];
  }

  /** The ids that are cached. */
  function Hits(s: Source, entries: Entries, ids: set<Id>): set<Id> {
    set id | id in ids && Key(s.name, id) in entries
  }

  /** Every id is a hit or missed. */
  lemma HitsAndMissed(s: Source, entries: Entries, ids: set<Id>)
    ensures var hits := Hits(s, entries, ids);
            hits + (ids - hits) == ids && s.Values(hits) + s.Values(ids - hits) == s.Values(ids)
    ensures s.Values({}) == map[] && s.Values(ids) + map[] == s.Values(ids)
  {
  }

  class Cache {
    var entries: Entries
    ghost var fetched: seq<Id>  // what the store has been asked for

    constructor ()
      ensures entries == map[] && fetched == []
    {
      entries, fetched := map[], [];
    }

    /** An entry may vanish at any time; what is left stays coherent. */
    method Expire(key: Key, ghost s: Source)
      requires s.Coherent(entries)
      modifies this`entries
      ensures s.Coherent(entries) && entries == old(entries) - {key}
    {
      entries := entries - {key};
    }

    /** The rows of those ids that exist, each once. */
    method Fetch(s: Source, missed: seq<Id>) returns (rows: seq<Row>)
      requires s.Valid()
      modifies this`fetched
      ensures forall r | r in rows :: r.id in s.store && s.store[r.id] == r
      ensures Ids(rows) == Set(missed) * s.store.Keys
      ensures fetched == old(fetched) + missed
    {
      rows := [];
      for i := 0 to |missed|
        invariant forall r | r in rows :: r.id in s.store && s.store[r.id] == r
        invariant Ids(rows) == Set(missed[..i]) * s.store.Keys
      {
        assert Set(missed[..i + 1]) == Set(missed[..i]) + {missed[i]};
        if missed[i] in s.store && s.store[missed[i]] !in rows {
          assert Ids(rows + [s.store[missed[i]]]) == Ids(rows) + {missed[i]};
          rows := rows + [s.store[missed[i]]];
        }
      }
      assert missed[..|missed|] == missed;
      fetched := fetched + missed;
    }

    /** setMany */
    method SetMany(s: Source, rows: seq<Row>)
      requires s.Coherent(entries)
      requires forall r | r in rows :: r.id in s.store && s.store[r.id] == r
      modifies this`entries
      ensures s.Coherent(entries)
      ensures forall key | key in old(entries) :: key in entries
      ensures forall r | r in rows :: Key(s.name, r.id) in entries
      ensures forall key | key in entries && key !in old(entries) :: key.name == s.name && key.id in Ids(rows)
      ensures forall key | key in old(entries) :: entries[key] == old(entries)[key]
    {
      for i := 0 to |rows|
        invariant s.Coherent(entries)
        invariant forall key | key in old(entries) :: key in entries
        invariant forall k | 0 <= k < i :: Key(s.name, rows[k].id) in entries
        invariant forall key | key in entries && key !in old(entries) :: key.name == s.name && key.id in Ids(rows)
        invariant forall key | key in old(entries) :: entries[key] == old(entries)[key]
      {
        assert rows[i] in rows;
        entries := entries[Key(s.name, rows[i].id) := s.toValue(rows[i])];
      }
    }

    /** The loop that puts the rows into the result. */
    static method Merge(s: Source, rows: seq<Row>, result0: map<Id, Val>) returns (result: map<Id, Val>)
      requires forall r | r in rows :: r.id in s.store && s.store[r.id] == r
      ensures result == result0 + s.Values(Ids(rows))
    {
      result := result0;
      for i := 0 to |rows|
        invariant Ids(rows[..i]) <= s.store.Keys && result.Keys == result0.Keys + Ids(rows[..i])
        invariant forall id | id in result :: result[id] == if id in Ids(rows[..i]) then s.Value(id) else result0[id]
      {
        assert rows[i] in rows;
        IdsSnoc(rows, i);
        result := result[rows[i].id := s.toValue(rows[i])];
      }
      assert rows[..|rows|] == rows;
    }

    /** The first loop: what is cached goes to the result, the other ids are missed. */
    method Split(s: Source, ids: seq<Id>) returns (result: map<Id, Val>, missed: seq<Id>)
      requires s.Coherent(entries)
      ensures result == s.Values(Hits(s, entries, Set(ids)))
      ensures Set(missed) == Set(ids) - Hits(s, entries, Set(ids))
    {
      result, missed := map[], [];
      for i := 0 to |ids|
        invariant result == s.Values(Hits(s, entries, Set(ids[..i])))
        invariant Set(missed) == Set(ids[..i]) - Hits(s, entries, Set(ids[..i]))
      {
        assert Set(ids[..i + 1]) == Set(ids[..i]) + {ids[i]};
        if Key(s.name, ids[i]) in entries {
          assert Hits(s, entries, Set(ids[..i + 1])) == Hits(s, entries, Set(ids[..i])) + {ids[i]};
          result := result[ids[i] := entries[Key(s.name, ids[i])]];
        } else {
          assert Hits(s, entries, Set(ids[..i + 1])) == Hits(s, entries, Set(ids[..i]));
          assert Set(missed + [ids[i]]) == Set(missed) + {ids[i]};
          missed := missed + [ids[i]];
        }
      }
      assert ids[..|ids|] == ids;
    }

    /** What was missed is fetched, cached, and put into the result. */
    method Refill(s: Source, missed: seq<Id>, result0: map<Id, Val>) returns (result: map<Id, Val>)
      requires s.Valid() && s.Coherent(entries)
      modifies this
      ensures result == result0 + s.Values(Set(missed)) && fetched == old(fetched) + missed
      ensures s.Coherent(entries)
      ensures forall id | id in s.Values(Set(missed)) :: Key(s.name, id) in entries
      ensures forall key | key in entries && key !in old(entries) :: key.name == s.name && key.id in s.Values(Set(missed))
      ensures forall key | key in old(entries) :: key in entries && entries[key] == old(entries)[key]
    {
      var rows := Fetch(s, missed);
      SetMany(s, rows);
      result := Merge(s, rows, result0);
      assert forall id | id in Ids(rows) :: exists r | r in rows :: r.id == id;
      assert s.Values(Ids(rows)) == s.Values(Set(missed));
    }

    /**
     Through a coherent cache the result is exactly what the store has for the ids; the cache stays
     coherent, and then holds all of it beside what it held before and nothing else; and the store is asked
     only for what was not cached.
     */
    method CachedByKeys(s: Source, ids: seq<Id>) returns (result: map<Id, Val>, ghost missed: seq<Id>)
      requires s.Valid() && s.Coherent(entries)
      modifies this
      ensures forall id :: id in result <==> id in ids && id in s.store
      ensures forall id | id in result :: result[id] == s.toValue(s.store[id])
      ensures s.Coherent(entries)
      ensures entries.Keys == old(entries).Keys + set id | id in result :: Key(s.name, id)
      ensures forall key | key in old(entries) :: entries[key] == old(entries)[key]
      ensures fetched == old(fetched) + missed
      ensures forall id :: id in missed <==> id in ids && Key(s.name, id) !in old(entries)
    {
      var toFetch;
      result, toFetch := Split(s, ids);
      missed := toFetch;
      HitsAndMissed(s, entries, Set(ids));
      if toFetch != [] {
        result := Refill(s, toFetch, result);
      } else {
        assert fetched + [] == fetched;
        assert Set(toFetch) == {};
      }
      assert result == s.Values(Set(ids));
      assert Set(missed) == Set(ids) - Hits(s, old(entries), Set(ids));
      assert forall id :: id in missed <==> id in Set(missed);
    }
  }
}
