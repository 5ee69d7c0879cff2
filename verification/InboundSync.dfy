/**
 syncInbounds: making the stored inbounds of a config profile those of its config, by deleting and
 creating rows, or, if there is nothing to delete or create, by updating them.
 */
module InboundSync {
  import opened Collections

  /** What a config says about an inbound, and what a row stores. */
  datatype Inbound = Inbound(
    tag: string, type_: string, network: Option<string>, security: Option<string>, port: Option<int>, rawInbound: string)

  type Uuid = nat
  type Rows = map<Uuid, Inbound>

  /** config.find(ci => ci.tag === tag) */
  function Find(config: seq<Inbound>, tag: string): (r: Option<Inbound>)
    ensures r.Some? ==> r.value in config && r.value.tag == tag
    ensures r.None? ==> forall c | c in config :: c.tag != tag
  {
    if config == [] then None else if config[0].tag == tag then Some(config[0]) else Find(config[1..], tag)
  }

  /** The config still has this inbound, with the same type. */
  predicate Kept(i: Inbound, config: seq<Inbound>) {
    Find(config, i.tag).Some? && Find(config, i.tag).value.type_ == i.type_
  }

  /** Some row has this inbound, with the same type. */
  predicate Stored(c: Inbound, rows: Rows) {
    exists u | u in rows :: rows[u].tag == c.tag && rows[u].type_ == c.type_
  }

  predicate UniqueTags(rows: Rows) {
    forall u, v | u in rows && v in rows && u != v :: rows[u].tag != rows[v].tag
  }

  predicate UniqueConfig(config: seq<Inbound>) {
    forall i, j | 0 <= i < j < |config| :: config[i].tag != config[j].tag
  }

  /** With distinct tags an inbound of the config is the one that is found by its tag. */
  lemma {:induction false} FindUnique(config: seq<Inbound>, c: Inbound)
    requires UniqueConfig(config) && c in config
    ensures Find(config, c.tag) == Some(c)
  {
    if c != config[0] {
      var k :| 0 <= k < |config| && config[k] == c;
      assert config[1..][k - 1] == c;
      FindUnique(config[1..], c);
    }
  }

  // ---- One run, as a function ----

  function KeptRows(rows: Rows, config: seq<Inbound>): Rows {
    map u | u in rows && Kept(rows[u], config) :: rows[u]
  }

  function ToAdd(rows: Rows, config: seq<Inbound>): seq<Inbound> {
    if config == [] then [] else (if Stored(config[0], rows) then [] else [config[0]]) + ToAdd(rows, config[1..])
  }

  /** New rows get uuids that have not been used. */
  function Created(rows: Rows, items: seq<Inbound>, next: Uuid): Rows
    decreases |items|
  {
    if items == [] then rows else Created(rows[next := items[0]], items[1..], next + 1)
  }

  function Updated(rows: Rows, config: seq<Inbound>): Rows {
    map u | u in rows :: if Find(config, rows[u].tag).Some? then Find(config, rows[u].tag).value else rows[u]
  }

  function Synced(rows: Rows, config: seq<Inbound>, next: Uuid): Rows {
    if KeptRows(rows, config) == rows && ToAdd(rows, config) == [] then Updated(rows, config)
    else Created(KeptRows(rows, config), ToAdd(rows, config), next)
  }

  predicate Fresh(rows: Rows, next: Uuid) {
    forall u | u in rows :: u < next
  }

  lemma HeadTagDiffers(config: seq<Inbound>)
    requires config != [] && UniqueConfig(config)
    ensures forall c | c in config[1..] :: c.tag != config[0].tag
  {
    forall c | c in config[1..]
      ensures c.tag != config[0].tag
    {
      var k :| 0 <= k < |config| - 1 && config[1..][k] == c;
      assert config[k + 1] == c;
    }
  }

  lemma {:induction false} ToAddExact(rows: Rows, config: seq<Inbound>)
    ensures forall c :: c in ToAdd(rows, config) <==> c in config && !Stored(c, rows)
    ensures UniqueConfig(config) ==> UniqueConfig(ToAdd(rows, config))
  {
    if config != [] {
      ToAddExact(rows, config[1..]);
      assert forall c :: c in config <==> c == config[0] || c in config[1..];
      if UniqueConfig(config) {
        assert forall i, j | 0 <= i < j < |config| - 1 :: config[1..][i] == config[i + 1] && config[1..][j] == config[j + 1];
        HeadTagDiffers(config);
      }
    }
  }

  /** Creating keeps the old rows, and adds one new row for each item. */
  lemma {:induction false} CreatedExact(rows: Rows, items: seq<Inbound>, next: Uuid)
    requires Fresh(rows, next)
    ensures var r := Created(rows, items, next);
            && Fresh(r, next + |items|)
            && (forall u | u in rows :: u in r && r[u] == rows[u])
            && (forall u | u in r && u !in rows :: next <= u < next + |items|)
            && (forall u | next <= u < next + |items| :: u in r && r[u] == items[u - next])
    decreases |items|
  {
    if items != [] {
      var one := rows[next := items[0]];
      CreatedExact(one, items[1..], next + 1);
      var r := Created(one, items[1..], next + 1);
      assert next in one && r[next] == items[0];
      forall u | next <= u < next + |items|
        ensures u in r && r[u] == items[u - next]
      {
        if u != next {
          assert u in r && r[u] == items[1..][u - (next + 1)];
        }
      }
    }
  }

  lemma KeptNotAdded(rows: Rows, config: seq<Inbound>, u: Uuid, c: Inbound)
    requires UniqueConfig(config) && u in rows && Kept(rows[u], config) && c in config && !Stored(c, rows)
    ensures rows[u].tag != c.tag
  {
    if rows[u].tag == c.tag {
      FindUnique(config, c);
    }
  }

  /** No write leaves two rows with one tag: what is created has no tag that was kept. */
  lemma CreatedUnique(rows: Rows, config: seq<Inbound>, next: Uuid, k: nat)
    requires UniqueTags(rows) && UniqueConfig(config) && Fresh(rows, next)
    requires k <= |ToAdd(rows, config)|
    ensures UniqueTags(KeptRows(rows, config))
    ensures UniqueTags(Created(KeptRows(rows, config), ToAdd(rows, config)[..k], next))
  {
    var kept, items := KeptRows(rows, config), ToAdd(rows, config)[..k];
    ToAddExact(rows, config);
    CreatedExact(kept, items, next);
    var r := Created(kept, items, next);
    forall u, v | u in r && v in r && u != v
      ensures r[u].tag != r[v].tag
    {
      if u in kept && v !in kept {
        KeptNotAdded(rows, config, u, items[v - next]);
      } else if u !in kept && v in kept {
        KeptNotAdded(rows, config, v, items[u - next]);
      }
    }
  }

  // ---- What runs achieve ----

  /** The rows and the config have the same tags, with the same types. */
  predicate SameTagTypes(rows: Rows, config: seq<Inbound>) {
    && (forall u | u in rows :: Kept(rows[u], config))
    && (forall c | c in config :: Stored(c, rows))
  }

  /** The rows are the inbounds of the config, field by field. */
  predicate Same(rows: Rows, config: seq<Inbound>) {
    && (forall u | u in rows :: rows[u] in config)
    && (forall c | c in config :: exists u | u in rows :: rows[u] == c)
  }

  lemma NothingToDo(rows: Rows, config: seq<Inbound>)
    ensures KeptRows(rows, config) == rows && ToAdd(rows, config) == [] <==> SameTagTypes(rows, config)
  {
    ToAddExact(rows, config);
    if KeptRows(rows, config) == rows {
      assert forall u | u in rows :: u in KeptRows(rows, config);
    }
    if ToAdd(rows, config) != [] {
      assert ToAdd(rows, config)[0] in ToAdd(rows, config);
    }
    if SameTagTypes(rows, config) {
      assert forall u | u in rows :: u in KeptRows(rows, config);
    }
  }

  lemma UpdatedIsSame(rows: Rows, config: seq<Inbound>)
    requires UniqueConfig(config) && SameTagTypes(rows, config)
    ensures Same(Updated(rows, config), config)
    ensures forall u | u in rows :: Updated(rows, config)[u].tag == rows[u].tag && Updated(rows, config)[u].type_ == rows[u].type_
  {
    forall c | c in config
      ensures exists u | u in Updated(rows, config) :: Updated(rows, config)[u] == c
    {
      var u :| u in rows && rows[u].tag == c.tag && rows[u].type_ == c.type_;
      FindUnique(config, c);
      assert Updated(rows, config)[u] == c;
    }
  }

  lemma CreatedTagTypes(rows: Rows, config: seq<Inbound>, next: Uuid)
    requires UniqueConfig(config) && Fresh(rows, next)
    ensures SameTagTypes(Created(KeptRows(rows, config), ToAdd(rows, config), next), config)
  {
    var kept, items := KeptRows(rows, config), ToAdd(rows, config);
    var r := Created(kept, items, next);
    ToAddExact(rows, config);
    CreatedExact(kept, items, next);
    forall u | u in r
      ensures Kept(r[u], config)
    {
      if u !in kept {
        assert items[u - next] in items;
        FindUnique(config, r[u]);
      }
    }
    forall c | c in config
      ensures Stored(c, r)
    {
      FindUnique(config, c);
      if Stored(c, rows) {
        var u :| u in rows && rows[u].tag == c.tag && rows[u].type_ == c.type_;
        assert u in kept;
        assert r[u] == rows[u];
      } else {
        var k :| 0 <= k < |items| && items[k] == c;
        assert next + k in r && r[next + k] == items[next + k - next] == c;
      }
    }
  }

  lemma SameIsSameTagTypes(rows: Rows, config: seq<Inbound>)
    requires UniqueConfig(config) && Same(rows, config)
    ensures SameTagTypes(rows, config)
  {
    forall u | u in rows
      ensures Kept(rows[u], config)
    {
      FindUnique(config, rows[u]);
    }
  }

  /** After one run tags and types agree; unique tags stay unique; what was kept keeps its uuid. */
  lemma OneRun(rows: Rows, config: seq<Inbound>, next: Uuid)
    requires UniqueTags(rows) && UniqueConfig(config) && Fresh(rows, next)
    ensures var r := Synced(rows, config, next);
            && SameTagTypes(r, config) && UniqueTags(r)
            && (forall u | u in rows && Kept(rows[u], config) :: u in r && r[u].tag == rows[u].tag && r[u].type_ == rows[u].type_)
            && Fresh(r, next + |ToAdd(rows, config)|)
  {
    NothingToDo(rows, config);
    var kept, items := KeptRows(rows, config), ToAdd(rows, config);
    if SameTagTypes(rows, config) {
      UpdatedIsSame(rows, config);
      SameIsSameTagTypes(Updated(rows, config), config);
    } else {
      CreatedTagTypes(rows, config, next);
      CreatedExact(kept, items, next);
      CreatedUnique(rows, config, next, |items|);
      assert items[..|items|] == items;
    }
  }

  lemma UpdatedFixed(rows: Rows, config: seq<Inbound>)
    requires UniqueConfig(config) && Same(rows, config)
    ensures Updated(rows, config) == rows
  {
    forall u | u in rows
      ensures Updated(rows, config)[u] == rows[u]
    {
      FindUnique(config, rows[u]);
    }
  }

  /** The config has an inbound of this tag and type. */
  predicate Listed(i: Inbound, config: seq<Inbound>) {
    exists c | c in config :: c.tag == i.tag && c.type_ == i.type_
  }

  lemma KeptMeans(i: Inbound, config: seq<Inbound>)
    requires UniqueConfig(config)
    ensures Kept(i, config) <==> Listed(i, config)
  {
    if Listed(i, config) {
      var c :| c in config && c.tag == i.tag && c.type_ == i.type_;
      FindUnique(config, c);
    }
  }

  lemma SyncedNew(rows: Rows, config: seq<Inbound>, next: Uuid, c: Inbound)
    requires Fresh(rows, next) && c in config && !Stored(c, rows)
    ensures exists u | u in Synced(rows, config, next) :: u >= next && Synced(rows, config, next)[u] == c
  {
    hide Kept, Stored, Updated;
    ToAddExact(rows, config);
    var kept, items := KeptRows(rows, config), ToAdd(rows, config);
    CreatedExact(kept, items, next);
    var r := Created(kept, items, next);
    var k :| 0 <= k < |items| && items[k] == c;
    assert Synced(rows, config, next) == r;
    assert next + k in r && r[next + k] == items[next + k - next];
  }

  lemma SyncedOld(rows: Rows, config: seq<Inbound>, next: Uuid, u: Uuid)
    requires Fresh(rows, next) && u in rows
    ensures u in Synced(rows, config, next) <==> Kept(rows[u], config)
  {
    hide Kept, Stored;
    var kept, items := KeptRows(rows, config), ToAdd(rows, config);
    CreatedExact(kept, items, next);
  }

  /**
   One run, told from the rows and the config alone: afterwards they have the same pairs of tag and type; a
   row is there before and after iff the config has its tag and type; and an inbound whose tag and type no row
   had is stored as it is, under a new uuid.
   */
  lemma OneRunMeans(rows: Rows, config: seq<Inbound>, next: Uuid)
    requires UniqueTags(rows) && UniqueConfig(config) && Fresh(rows, next)
    ensures var r := Synced(rows, config, next);
      && (forall u | u in r :: Listed(r[u], config))
      && (forall c | c in config :: Stored(c, r))
      && (forall u | u in rows :: u in r <==> Listed(rows[u], config))
      && (forall u | u in rows && u in r :: r[u].tag == rows[u].tag && r[u].type_ == rows[u].type_)
      && (forall c | c in config && !Stored(c, rows) :: exists u | u in r :: u >= next && r[u] == c)
  {
    hide Synced, Kept, Listed, Stored;
    OneRun(rows, config, next);
    var r := Synced(rows, config, next);
    forall i
      ensures Kept(i, config) <==> Listed(i, config)
    {
      KeptMeans(i, config);
    }
    assert forall u | u in r :: Kept(r[u], config);
    forall u | u in rows
      ensures u in r <==> Kept(rows[u], config)
    {
      SyncedOld(rows, config, next, u);
    }
    forall c | c in config && !Stored(c, rows)
      ensures exists u | u in r :: u >= next && r[u] == c
    {
      SyncedNew(rows, config, next, c);
    }
  }

  /** Two runs make all fields equal, and a third changes nothing. */
  lemma TwoRuns(rows: Rows, config: seq<Inbound>, next: Uuid, next2: Uuid, next3: Uuid)
    requires UniqueTags(rows) && UniqueConfig(config) && Fresh(rows, next)
    ensures var two := Synced(Synced(rows, config, next), config, next2);
            && Same(two, config)
            && Synced(two, config, next3) == two
            && ToAdd(two, config) == [] && KeptRows(two, config) == two
  {
    OneRun(rows, config, next);
    var one := Synced(rows, config, next);
    NothingToDo(one, config);
    UpdatedIsSame(one, config);
    var two := Updated(one, config);
    SameIsSameTagTypes(two, config);
    NothingToDo(two, config);
    UpdatedFixed(two, config);
  }

  lemma CreatedSame(rows: Rows, config: seq<Inbound>, next: Uuid)
    requires UniqueConfig(config) && Fresh(rows, next)
    ensures Same(Created(KeptRows(rows, config), ToAdd(rows, config), next), config) <==>
            forall u | u in rows && Kept(rows[u], config) :: rows[u] in config
  {
    var kept, items := KeptRows(rows, config), ToAdd(rows, config);
    var r := Created(kept, items, next);
    ToAddExact(rows, config);
    CreatedExact(kept, items, next);
    CreatedTagTypes(rows, config, next);
    if forall u | u in rows && Kept(rows[u], config) :: rows[u] in config {
      forall u | u in r
        ensures r[u] in config
      {
        if u !in kept {
          assert items[u - next] in items;
        }
      }
      forall c | c in config
        ensures exists u | u in r :: r[u] == c
      {
        var u :| u in r && r[u].tag == c.tag && r[u].type_ == c.type_;
        FindUnique(config, c);
        FindUnique(config, r[u]);
      }
    } else {
      var u :| u in rows && Kept(rows[u], config) && rows[u] !in config;
      assert u in kept && r[u] == rows[u];
    }
  }

  /** One run is enough iff it only updates, or what it keeps beside its changes was already up to date. */
  lemma OneRunExact(rows: Rows, config: seq<Inbound>, next: Uuid)
    requires UniqueTags(rows) && UniqueConfig(config) && Fresh(rows, next)
    ensures Same(Synced(rows, config, next), config) <==>
            SameTagTypes(rows, config) || forall u | u in rows && Kept(rows[u], config) :: rows[u] in config
  {
    NothingToDo(rows, config);
    if SameTagTypes(rows, config) {
      UpdatedIsSame(rows, config);
    } else {
      CreatedSame(rows, config, next);
    }
  }

  /** One run is not always enough: a row that is kept beside a change is not updated. */
  lemma OneRunIsNotEnough()
    ensures var row := Inbound("a", "vless", None, None, Some(1), "");
            var config := [row.(port := Some(2)), row.(tag := "b")];
            UniqueConfig(config) && !Same(Synced(map[0 := row], config, 1), config)
  {
    var row := Inbound("a", "vless", None, None, Some(1), "");
    var config := [row.(port := Some(2)), row.(tag := "b")];
    var rows: Rows := map[0 := row];
    ToAddExact(rows, config);
    assert config[1] in config && !Stored(config[1], rows);
    assert ToAdd(rows, config) != [];
    assert Find(config, "a") == Some(config[0]);
    assert 0 in KeptRows(rows, config);
    CreatedExact(KeptRows(rows, config), ToAdd(rows, config), 1);
    assert Synced(rows, config, 1)[0] == row;
    assert row.port != config[0].port && row.tag != config[1].tag;
  }

  // ---- The method ----

  /** ConfigProfileInboundEntity, whose fields are assigned in place. */
  class Entity {
    const uuid: Uuid
    var data: Inbound

    constructor (uuid: Uuid, data: Inbound)
      ensures this.uuid == uuid && this.data == data
    {
      this.uuid, this.data := uuid, data;
    }
  }

  /** The table, which refuses a second row with the same tag. `rows` are those of one profile. */
  class Repository {
    const others: set<string>  // the tags of the other profiles' rows
    var rows: Rows
    var next: Uuid
    ghost var writes: nat

    ghost predicate Valid()
      reads this
    {
      UniqueTags(rows) && Fresh(rows, next) && forall u | u in rows :: rows[u].tag !in others
    }

    constructor (others: set<string>)
      ensures Valid() && rows == map[] && writes == 0 && this.others == others
    {
      this.others, rows, next, writes := others, map[], 0, 0;
    }

    method DeleteMany(uuids: set<Uuid>)
      requires Valid()
      modifies this
      ensures Valid() && rows == old(rows) - uuids && next == old(next) && writes == old(writes) + 1
    {
      rows := rows - uuids;
      writes := writes + 1;
    }

    /** All rows or none. */
    method CreateMany(items: seq<Inbound>) returns (ok: bool)
      requires Valid()
      modifies this
      ensures Valid() && writes == old(writes) + 1
      ensures ok <==> UniqueTags(Created(old(rows), items, old(next))) && forall c | c in items :: c.tag !in others
      ensures ok ==> rows == Created(old(rows), items, old(next)) && next == old(next) + |items|
      ensures !ok ==> rows == old(rows) && next == old(next)
    {
      CreatedExact(rows, items, next);
      var all := Created(rows, items, next);
      writes := writes + 1;
      ok := UniqueTags(all) && forall c | c in items :: c.tag !in others;
      if ok {
        assert forall u | u in all && u !in rows :: all[u] == items[u - next] && all[u] in items;
        rows, next := all, next + |items|;
      }
    }

    /** The caller's transaction takes back what has been written. */
    method RollBack(rows: Rows)
      requires Valid() && UniqueTags(rows) && Fresh(rows, next) && forall u | u in rows :: rows[u].tag !in others
      modifies this`rows
      ensures Valid() && this.rows == rows
    {
      this.rows := rows;
    }

    method Update(uuid: Uuid, data: Inbound)
      requires Valid() && uuid in rows && rows[uuid].tag == data.tag
      modifies this
      ensures Valid() && rows == old(rows)[uuid := data] && next == old(next) && writes == old(writes) + 1
    {
      rows := rows[uuid := data];
      writes := writes + 1;
    }
  }

  /** `existing` are the rows, as read from the table. */
  ghost predicate ReadFrom(existing: seq<Entity>, rows: Rows)
    reads existing
  {
    && (forall i, j | 0 <= i < j < |existing| :: existing[i] != existing[j] && existing[i].uuid != existing[j].uuid)
    && (forall i | 0 <= i < |existing| :: existing[i].uuid in rows && rows[existing[i].uuid] == existing[i].data)
    && (forall u | u in rows :: exists i | 0 <= i < |existing| :: existing[i].uuid == u)
  }

  method FindExisting(existing: seq<Entity>, tag: string) returns (found: bool, k: nat)
    ensures found ==> k < |existing| && existing[k].data.tag == tag
    ensures !found ==> forall i | 0 <= i < |existing| :: existing[i].data.tag != tag
  {
    k := 0;
    while k < |existing|
      invariant forall i | 0 <= i < k && i < |existing| :: existing[i].data.tag != tag
    {
      if existing[k].data.tag == tag {
        return true, k;
      }
      k := k + 1;
    }
    return false, 0;
  }

  /** existingInbounds.filter(...), by uuid */
  method InboundsToRemove(existing: seq<Entity>, config: seq<Inbound>, ghost rows: Rows) returns (uuids: set<Uuid>)
    requires ReadFrom(existing, rows)
    ensures uuids == set u | u in rows && !Kept(rows[u], config)
    ensures rows - uuids == KeptRows(rows, config)
  {
    uuids := {};
    for i := 0 to |existing|
      invariant forall u :: u in uuids <==> exists k | 0 <= k < i :: existing[k].uuid == u && !Kept(rows[u], config)
    {
      var configInbound := Find(config, existing[i].data.tag);
      if configInbound.None? || configInbound.value.type_ != existing[i].data.type_ {
        uuids := uuids + {existing[i].uuid};
      }
    }
  }

  lemma StoredExact(existing: seq<Entity>, rows: Rows, c: Inbound, found: bool, k: nat)
    requires ReadFrom(existing, rows) && UniqueTags(rows)
    requires found ==> k < |existing| && existing[k].data.tag == c.tag
    requires !found ==> forall i | 0 <= i < |existing| :: existing[i].data.tag != c.tag
    ensures Stored(c, rows) <==> found && existing[k].data.type_ == c.type_
  {
    if found {
      var u := existing[k].uuid;
      assert u in rows && rows[u] == existing[k].data;
    }
  }

  /** newInbounds.filter(...) */
  method InboundsToAdd(existing: seq<Entity>, config: seq<Inbound>, ghost rows: Rows) returns (items: seq<Inbound>)
    requires ReadFrom(existing, rows) && UniqueTags(rows)
    ensures items == ToAdd(rows, config)
  {
    items := [];
    for i := 0 to |config|
      invariant items + ToAdd(rows, config[i..]) == ToAdd(rows, config)
    {
      assert config[i..][1..] == config[i + 1..];
      var found, k := FindExisting(existing, config[i].tag);
      StoredExact(existing, rows, config[i], found, k);
      if !found || existing[k].data.type_ != config[i].type_ {
        assert items + ([config[i]] + ToAdd(rows, config[i + 1..])) == items + [config[i]] + ToAdd(rows, config[i + 1..]);
        items := items + [config[i]];
      } else {
        assert [] + ToAdd(rows, config[i + 1..]) == ToAdd(rows, config[i + 1..]);
      }
    }
    assert items + [] == items;
  }

  predicate Differs(a: Inbound, b: Inbound) {
    a.security != b.security || a.network != b.network || a.type_ != b.type_ || a.port != b.port || a.rawInbound != b.rawInbound
  }

  function UpdatedData(i: Inbound, config: seq<Inbound>): (r: Inbound)
    ensures r.tag == i.tag
  {
    if Find(config, i.tag).Some? then Find(config, i.tag).value else i
  }

  /** The entity holds what its row should, and is among the updates iff that is something new. */
  ghost predicate UpToDate(e: Entity, rows: Rows, config: seq<Inbound>, updates: seq<Entity>)
    reads e
  {
    e.uuid in rows && e.data == UpdatedData(rows[e.uuid], config) && (e in updates <==> e.data != rows[e.uuid])
  }

  method AssignFields(e: Entity, c: Inbound)
    requires e.data.tag == c.tag
    modifies e
    ensures e.data == c
  {
    e.data := e.data.(security := c.security, network := c.network, type_ := c.type_, port := c.port, rawInbound := c.rawInbound);
  }

  lemma {:induction false} FindSnoc(config: seq<Inbound>, k: nat, tag: string)
    requires k < |config|
    ensures Find(config[..k + 1], tag)
         == if Find(config[..k], tag).Some? then Find(config[..k], tag) else if config[k].tag == tag then Some(config[k]) else None
  {
    if k == 0 {
      assert config[..1][1..] == [];
    } else {
      assert config[..k + 1][1..] == config[1..][..k] && config[..k][1..] == config[1..][..k - 1];
      FindSnoc(config[1..], k - 1, tag);
    }
  }

  /** The next inbound of the config only concerns the entity with its tag, which no earlier one did. */
  lemma UpdatedSnoc(config: seq<Inbound>, k: nat, i: Inbound)
    requires UniqueConfig(config) && k < |config|
    ensures UpdatedData(i, config[..k + 1]) == if i.tag == config[k].tag then config[k] else UpdatedData(i, config[..k])
    ensures i.tag == config[k].tag ==> UpdatedData(i, config[..k]) == i
  {
    FindSnoc(config, k, i.tag);
  }

  /** One inbound of the config: no two entities have its tag, and none has been assigned to for it. */
  method UpdateOne(existing: seq<Entity>, config: seq<Inbound>, k: nat, ghost rows: Rows, updates: seq<Entity>) returns (updates': seq<Entity>)
    requires UniqueConfig(config) && UniqueTags(rows) && k < |config|
    requires forall i, j | 0 <= i < j < |existing| :: existing[i].uuid != existing[j].uuid
    requires forall e | e in existing :: UpToDate(e, rows, config[..k], updates)
    requires forall e | e in updates :: e in existing
    modifies existing
    ensures forall e | e in existing :: UpToDate(e, rows, config[..k + 1], updates')
    ensures forall e | e in updates' :: e in existing
  {
    var c := config[k];
    updates' := updates;
    forall e | e in existing
      ensures e.uuid in rows
      ensures UpdatedData(rows[e.uuid], config[..k + 1]) == if e.data.tag == c.tag then c else e.data
      ensures e.data.tag == c.tag ==> e.data == rows[e.uuid]
    {
      UpdatedSnoc(config, k, rows[e.uuid]);
    }
    var found, m := FindExisting(existing, c.tag);
    if found {
      forall e | e in existing && e != existing[m]
        ensures e.data.tag != c.tag
      {
        assert rows[e.uuid].tag != rows[existing[m].uuid].tag;
      }
      if Differs(c, existing[m].data) {
        AssignFields(existing[m], c);
        updates' := updates + [existing[m]];
      }
    }
  }

  /** newInbounds.filter(...).map(...): the fields of the entity that has the tag are assigned in place. */
  method InboundsToUpdate(existing: seq<Entity>, config: seq<Inbound>, ghost rows: Rows) returns (updates: seq<Entity>)
    requires UniqueConfig(config) && UniqueTags(rows) && ReadFrom(existing, rows)
    modifies existing
    ensures forall e | e in existing :: UpToDate(e, rows, config, updates)
    ensures forall e | e in updates :: e in existing
  {
    updates := [];
    for k := 0 to |config|
      invariant forall e | e in existing :: UpToDate(e, rows, config[..k], updates)
      invariant forall e | e in updates :: e in existing
    {
      updates := UpdateOne(existing, config, k, rows, updates);
    }
    assert config[..|config|] == config;
  }

  /** Another profile has an inbound with a tag that is to be created. */
  predicate TagTaken(rows: Rows, config: seq<Inbound>, others: set<string>) {
    exists c | c in ToAdd(rows, config) :: c.tag in others
  }

  /** The first two parts: rows are deleted, then created; nothing is written if there are none. */
  method DeleteAndCreate(toRemove: set<Uuid>, toAdd: seq<Inbound>, ghost config: seq<Inbound>, repository: Repository) returns (ok: bool)
    requires repository.Valid() && UniqueConfig(config)
    requires repository.rows - toRemove == KeptRows(repository.rows, config) && toAdd == ToAdd(repository.rows, config)
    modifies repository
    ensures repository.Valid() && repository.next >= old(repository.next)
    ensures ok <==> forall c | c in toAdd :: c.tag !in repository.others
    ensures repository.rows
         == if ok then Created(KeptRows(old(repository.rows), config), toAdd, old(repository.next)) else KeptRows(old(repository.rows), config)
    ensures toRemove == {} && toAdd == [] ==>
      repository.rows == old(repository.rows) && repository.writes == old(repository.writes) && repository.next == old(repository.next)
  {
    ghost var rows := repository.rows;
    ok := true;
    if toRemove != {} {
      repository.DeleteMany(toRemove);
    } else {
      assert rows - toRemove == rows;
    }
    if toAdd != [] {
      CreatedUnique(rows, config, repository.next, |toAdd|);
      assert toAdd[..|toAdd|] == toAdd;
      ok := repository.CreateMany(toAdd);
    }
  }

  /** An entity that is to be written has the data that its row should have. */
  ghost predicate Due(updates: seq<Entity>, config: seq<Inbound>, rows: Rows)
    reads updates
  {
    forall j | 0 <= j < |updates| :: updates[j].uuid in rows && updates[j].data == UpdatedData(rows[updates[j].uuid], config)
  }

  /** The first `k` entities have been written, and only rows that had to be were changed. */
  ghost predicate Written(updates: seq<Entity>, k: nat, config: seq<Inbound>, rows: Rows, now: Rows)
    requires k <= |updates|
  {
    && now.Keys == rows.Keys
    && (forall u | u in rows :: now[u] == UpdatedData(rows[u], config) || now[u] == rows[u])
    && (forall j | 0 <= j < k :: updates[j].uuid in rows ==> now[updates[j].uuid] == UpdatedData(rows[updates[j].uuid], config))
  }

  lemma WrittenNext(updates: seq<Entity>, k: nat, config: seq<Inbound>, rows: Rows, now: Rows)
    requires k < |updates| && Due(updates, config, rows) && Written(updates, k, config, rows, now)
    ensures updates[k].uuid in now && now[updates[k].uuid].tag == updates[k].data.tag
    ensures Written(updates, k + 1, config, rows, now[updates[k].uuid := updates[k].data])
  {
  }

  lemma AllWritten(updates: seq<Entity>, config: seq<Inbound>, rows: Rows, now: Rows)
    requires Due(updates, config, rows) && Written(updates, |updates|, config, rows, now)
    requires forall u | u in rows :: UpdatedData(rows[u], config) == rows[u] || exists j | 0 <= j < |updates| :: updates[j].uuid == u
    ensures now == Updated(rows, config)
  {
    forall u | u in rows
      ensures now[u] == UpdatedData(rows[u], config)
    {
      if UpdatedData(rows[u], config) != rows[u] {
        var j :| 0 <= j < |updates| && updates[j].uuid == u;
      }
    }
  }

  /** Each entity that has changed is written; the rows that it leaves alone are up to date. */
  method WriteUpdates(updates: seq<Entity>, ghost config: seq<Inbound>, ghost rows: Rows, repository: Repository)
    requires repository.Valid() && repository.rows == rows && Due(updates, config, rows)
    requires forall u | u in rows :: UpdatedData(rows[u], config) == rows[u] || exists j | 0 <= j < |updates| :: updates[j].uuid == u
    modifies repository
    ensures repository.Valid() && repository.next == old(repository.next)
    ensures repository.rows == Updated(rows, config) && repository.writes == old(repository.writes) + |updates|
  {
    for k := 0 to |updates|
      invariant repository.Valid() && repository.next == old(repository.next)
      invariant Due(updates, config, rows) && Written(updates, k, config, rows, repository.rows)
      invariant repository.writes == old(repository.writes) + k
    {
      WrittenNext(updates, k, config, rows, repository.rows);
      repository.Update(updates[k].uuid, updates[k].data);
    }
    AllWritten(updates, config, rows, repository.rows);
  }

  /** The last part: write the entities that have changed. */
  method UpdateRows(existing: seq<Entity>, config: seq<Inbound>, repository: Repository)
    requires repository.Valid() && ReadFrom(existing, repository.rows) && UniqueConfig(config)
    modifies repository, existing
    ensures repository.Valid() && repository.next == old(repository.next)
    ensures repository.rows == Updated(old(repository.rows), config)
    ensures Updated(old(repository.rows), config) == old(repository.rows) ==> repository.writes == old(repository.writes)
  {
    ghost var rows := repository.rows;
    var updates := InboundsToUpdate(existing, config, rows);
    if updates != [] {
      assert updates[0] in updates && updates[0] in existing;
      assert Updated(rows, config)[updates[0].uuid] != rows[updates[0].uuid];
    }
    forall u | u in rows && UpdatedData(rows[u], config) != rows[u]
      ensures exists j | 0 <= j < |updates| :: updates[j].uuid == u
    {
      var i :| 0 <= i < |existing| && existing[i].uuid == u;
      assert existing[i] in existing;
      assert existing[i] in updates;
    }
    assert forall j | 0 <= j < |updates| :: updates[j] in updates;
    WriteUpdates(updates, config, rows, repository);
  }

  /** One run of syncInbounds; it fails only where another profile has one of the new tags. */
  method SyncInbounds(existing: seq<Entity>, config: seq<Inbound>, repository: Repository) returns (ok: bool)
    requires repository.Valid() && ReadFrom(existing, repository.rows) && UniqueConfig(config)
    modifies repository, existing
    ensures repository.Valid() && repository.next >= old(repository.next)
    ensures ok <==> !TagTaken(old(repository.rows), config, repository.others)
    ensures ok ==> repository.rows == Synced(old(repository.rows), config, old(repository.next))
    ensures !ok ==> repository.rows == KeptRows(old(repository.rows), config)
    ensures Synced(old(repository.rows), config, old(repository.next)) == old(repository.rows) && SameTagTypes(old(repository.rows), config)
            ==> repository.writes == old(repository.writes)
  {
    hide KeptRows, ToAdd, UniqueConfig;
    ghost var rows := repository.rows;
    var toRemove := InboundsToRemove(existing, config, rows);
    var toAdd := InboundsToAdd(existing, config, rows);
    NothingToDo(rows, config);
    ok := DeleteAndCreate(toRemove, toAdd, config, repository);
    if toAdd == [] && toRemove == {} {
      UpdateRows(existing, config, repository);
    }
  }

  /** updateConfigProfileTransactional: the rows become those of the config, or stay as they are. */
  method UpdateConfigProfile(existing: seq<Entity>, config: seq<Inbound>, repository: Repository) returns (ok: bool)
    requires repository.Valid() && ReadFrom(existing, repository.rows) && UniqueConfig(config)
    modifies repository, existing
    ensures repository.Valid()
    ensures ok <==> !TagTaken(old(repository.rows), config, repository.others)
    ensures repository.rows == if ok then Synced(old(repository.rows), config, old(repository.next)) else old(repository.rows)
    ensures ok ==> SameTagTypes(repository.rows, config)
  {
    var before := repository.rows;
    OneRun(before, config, repository.next);
    ok := SyncInbounds(existing, config, repository);
    if !ok {
      repository.RollBack(before);
    }
  }
}
