/**
 JSON values as JavaScript sees them, with reading and assigning a property of an object.
 */
module Json {

  /** The fields of an object are in the order in which Object.entries lists them. */
  datatype Json = Null | Bool(b: bool) | Number(n: real) | Str(s: string) | Arr(items: seq<Json>) | Obj(fields: seq<Field>)
  datatype Field = Field(key: string, value: Json)

  /** obj[key]; what is missing reads as null. */
  function Lookup(fs: seq<Field>, key: string): Json {
    if fs == [] then Null else if fs[0].key == key then fs[0].value else Lookup(fs[1..], key)
  }

  /** obj[key] = value */
  function Put(fs: seq<Field>, key: string, value: Json): seq<Field> {
    if fs == [] then [Field(key, value)]
    else if fs[0].key == key then [Field(key, value)] + fs[1..]
    else [fs[0]] + Put(fs[1..], key, value)
  }

  lemma {:induction false} PutNew(fs: seq<Field>, key: string, value: Json)
    requires forall f | f in fs :: f.key != key
    ensures Put(fs, key, value) == fs + [Field(key, value)]
  {
    if fs != [] {
      assert fs[0] in fs && forall f | f in fs[1..] :: f in fs;
      PutNew(fs[1..], key, value);
    }
  }

  lemma {:induction false} LookupIn(fs: seq<Field>, key: string)
    ensures Lookup(fs, key) != Null ==> exists f | f in fs :: f.key == key && f.value == Lookup(fs, key)
  {
    if fs != [] && fs[0].key != key {
      LookupIn(fs[1..], key);
      assert forall f | f in fs[1..] :: f in fs;
    } else if fs != [] {
      assert fs[0] in fs;
    }
  }

  /** Assigning changes the one property, and nothing if it had that value. */
  lemma {:induction false} LookupPut(fs: seq<Field>, key: string, value: Json, other: string)
    ensures Lookup(Put(fs, key, value), other) == if other == key then value else Lookup(fs, other)
    ensures value != Null ==> (Put(fs, key, value) == fs <==> Lookup(fs, key) == value)
  {
    if fs != [] {
      LookupPut(fs[1..], key, value, other);
      if fs[0].key == key {
        assert fs == [fs[0]] + fs[1..];
        assert ([Field(key, value)] + fs[1..])[0] == Field(key, value);
      } else {
        var rest := Put(fs[1..], key, value);
        assert fs == [fs[0]] + fs[1..];
        assert ([fs[0]] + rest)[1..] == rest;
      }
    }
  }

  /** Object.keys(obj) */
  function FieldKeys(fs: seq<Field>): (ks: seq<string>)
    ensures |ks| == |fs|
  {
    seq(|fs|, i requires 0 <= i < |fs| => fs[i].key)
  }

  /** A new key comes last; otherwise the keys stay as they are. */
  function WithKey(keys: seq<string>, key: string): seq<string> {
    if key in keys then keys else keys + [key]
  }

  lemma {:induction false} PutFieldKeys(fs: seq<Field>, key: string, value: Json)
    ensures FieldKeys(Put(fs, key, value)) == WithKey(FieldKeys(fs), key)
  {
    if fs != [] {
      PutFieldKeys(fs[1..], key, value);
      assert FieldKeys(fs) == [fs[0].key] + FieldKeys(fs[1..]);
      if fs[0].key == key {
        assert FieldKeys(fs)[0] == key;
      } else {
        assert FieldKeys(Put(fs, key, value)) == [fs[0].key] + FieldKeys(Put(fs[1..], key, value));
        assert key in FieldKeys(fs) <==> key in FieldKeys(fs[1..]);
      }
    }
  }

  lemma {:induction false} LookupFieldKeys(fs: seq<Field>, key: string)
    requires Lookup(fs, key) != Null
    ensures key in FieldKeys(fs)
  {
    LookupIn(fs, key);
    var f :| f in fs && f.key == key;
    var i :| 0 <= i < |fs| && fs[i] == f;
    assert FieldKeys(fs)[i] == key;
  }
}
