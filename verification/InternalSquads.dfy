/**
 updateInternalSquad: replacing the inbounds of a squad, and restarting the nodes of exactly those
 config profiles whose part of the squad has changed.
 */
module InternalSquads {
  import opened Collections

  type Squad = nat
  type Inbound = nat
  type Profile = nat

  datatype Outcome = Updated | SquadNotFound | NameOrInboundsRequired | NameAlreadyExists | UpdateError

  /** A row of internalSquadInbounds, joined with the profile that its inbound belongs to. */
  datatype Row = Row(inbound: Inbound, profile: Profile)

  /** The inbounds of one profile, and the profiles that have any. */
  function Of(rows: set<Row>, p: Profile): set<Inbound> {
    set r | r in rows && r.profile == p :: r.inbound
  }

  function Profiles(rows: set<Row>): set<Profile> {
    set r | r in rows :: r.profile
  }

  /** The profiles whose part of the squad is another one after the update. */
  function Affected(before: set<Row>, after: set<Row>): set<Profile> {
    set p | p in Profiles(before) + Profiles(after) && Of(before, p) != Of(after, p)
  }

  /** A profile outside both maps is not affected; and nothing is affected iff the rows are the same. */
  lemma AffectedExact(before: set<Row>, after: set<Row>)
    ensures forall p :: p in Affected(before, after) <==> Of(before, p) != Of(after, p)
    ensures Affected(before, after) == {} <==> before == after
  {
    forall p | Of(before, p) != Of(after, p)
      ensures p in Profiles(before) + Profiles(after)
    {
      var i :| i in Of(before, p) <==> i !in Of(after, p);
      assert Row(i, p) in before + after;
    }
    if Affected(before, after) == {} {
      forall r
        ensures r in before <==> r in after
      {
        assert r in before <==> r.inbound in Of(before, r.profile);
        assert r in after <==> r.inbound in Of(after, r.profile);
        assert r.profile !in Affected(before, after);
      }
    }
  }

  /** The tables behind the repository: names are unique, and an inbound belongs to one profile. */
  class Repository {
    var names: map<Squad, string>
    var profileOf: map<Inbound, Profile>
    var links: set<(Squad, Inbound)>

    predicate Valid()
      reads this
    {
      && (forall s, t | s in names && t in names && s != t :: names[s] != names[t])
      && (forall l | l in links :: l.0 in names && l.1 in profileOf)
    }

    constructor (profileOf: map<Inbound, Profile>)
      ensures Valid() && this.profileOf == profileOf && links == {}
    {
      this.profileOf, names, links := profileOf, map[], {};
    }

    function Inbounds(s: Squad): set<Inbound>
      reads this
    {
      set l | l in links && l.0 == s :: l.1
    }

    function Rows(s: Squad): set<Row>
      requires Valid()
      reads this
    {
      set l | l in links && l.0 == s :: Row(l.1, profileOf[l.1])
    }

    method Rename(s: Squad, name: string) returns (ok: bool)
      requires Valid() && s in names
      modifies this`names
      ensures Valid()
      ensures ok <==> forall t | t in old(names) && t != s :: old(names)[t] != name
      ensures names == if ok then old(names)[s := name] else old(names)
    {
      ok := forall t | t in names && t != s :: names[t] != name;
      if ok {
        names := names[s := name];
      }
    }

    /** syncInternalSquadInbounds: one transaction, which a repeated or unknown inbound undoes. */
    method SyncInbounds(s: Squad, inbounds: seq<Inbound>) returns (ok: bool)
      requires Valid() && s in names
      modifies this`links
      ensures Valid()
      ensures ok <==> Distinct(inbounds) && Set(inbounds) <= profileOf.Keys
      ensures links == if ok then (set l | l in old(links) && l.0 != s) + (set i | i in inbounds :: (s, i)) else old(links)
    {
      var before := links;
      links := set l | l in links && l.0 != s;
      if inbounds != [] {
        ok := Distinct(inbounds) && Set(inbounds) <= profileOf.Keys;
        if ok {
          assert forall i | i in inbounds :: i in Set(inbounds);
          links := links + set i | i in inbounds :: (s, i);
        } else {
          links := before;
        }
      } else {
        ok := true;
      }
    }

    /** getInboundsBySquadUuid: the rows in some order. */
    method GetInbounds(s: Squad) returns (rows: seq<Row>)
      requires Valid()
      ensures Set(rows) == Rows(s)
    {
      rows := [];
      var rest := Rows(s);
      while rest != {}
        invariant rest <= Rows(s) && Set(rows) == Rows(s) - rest
        decreases |rest|
      {
        var r :| r in rest;
        assert Set(rows + [r]) == Set(rows) + {r};
        rows, rest := rows + [r], rest - {r};
      }
    }
  }

  /** startAllNodesByProfile puts a profile into the queue. */
  class NodesQueues {
    var started: seq<Profile>

    constructor ()
      ensures started == []
    {
      started := [];
    }
  }

  /** The map holds the inbounds of each profile that has any. */
  predicate IsMapOf(m: map<Profile, set<Inbound>>, rows: set<Row>) {
    m.Keys == Profiles(rows) && forall p | p in m :: m[p] == Of(rows, p)
  }

  lemma OneMore(rows: set<Row>, r: Row)
    ensures Profiles(rows + {r}) == Profiles(rows) + {r.profile}
    ensures forall p :: Of(rows + {r}, p) == Of(rows, p) + if p == r.profile then {r.inbound} else {}
    ensures r.profile !in Profiles(rows) ==> Of(rows, r.profile) == {}
  {
    assert r in rows + {r};
    forall x | x in rows
      ensures x.profile in Profiles(rows + {r})
    {
      assert x in rows + {r};
    }
    forall p
      ensures Of(rows + {r}, p) == Of(rows, p) + if p == r.profile then {r.inbound} else {}
    {
      forall i | i in Of(rows, p)
        ensures i in Of(rows + {r}, p)
      {
        assert Row(i, p) in rows + {r};
      }
    }
  }

  /** The loop that collects the inbounds of each profile. */
  method ProfilesMap(rows: seq<Row>) returns (m: map<Profile, set<Inbound>>)
    ensures IsMapOf(m, Set(rows))
  {
    m := map[];
    ghost var done: set<Row> := {};
    for i := 0 to |rows|
      invariant done == Set(rows[..i]) && IsMapOf(m, done)
    {
      var r := rows[i];
      OneMore(done, r);
      done := done + {r};
      if r.profile !in m {
        m := m[r.profile := {}];
      }
      m := m[r.profile := m[r.profile] + {r.inbound}];
    }
    assert rows[..|rows|] == rows;
  }

  /** currentProfilesMap.get(profileUuid) || new Set() */
  function Get(m: map<Profile, set<Inbound>>, p: Profile): set<Inbound> {
    if p in m then m[p] else {}
  }

  function SymmetricDifference(a: set<Inbound>, b: set<Inbound>): set<Inbound> {
    (a - b) + (b - a)
  }

  lemma DifferenceExact(a: set<Inbound>, b: set<Inbound>)
    ensures SymmetricDifference(a, b) == {} <==> a == b
  {
    if SymmetricDifference(a, b) == {} {
      forall i
        ensures i in a <==> i in b
      {
        assert i !in SymmetricDifference(a, b);
      }
    }
  }

  /** The loop over the profiles of both maps: each that differs, once. */
  method AffectedProfiles(current: map<Profile, set<Inbound>>, new_: map<Profile, set<Inbound>>) returns (affected: seq<Profile>)
    ensures Distinct(affected)
    ensures forall p :: p in affected <==> Get(current, p) != Get(new_, p)
  {
    affected := [];
    var rest := current.Keys + new_.Keys;
    while rest != {}
      invariant rest <= current.Keys + new_.Keys
      invariant Distinct(affected)
      invariant forall p :: p in affected <==> p !in rest && Get(current, p) != Get(new_, p)
      decreases |rest|
    {
      var p :| p in rest;
      DifferenceExact(Get(current, p), Get(new_, p));
      if SymmetricDifference(Get(current, p), Get(new_, p)) != {} {
        affected := affected + [p];
      }
      rest := rest - {p};
    }
  }

  lemma InMap(m: map<Profile, set<Inbound>>, rows: set<Row>, p: Profile)
    requires IsMapOf(m, rows)
    ensures Get(m, p) == Of(rows, p)
  {
  }

  /** Comparing the maps is comparing the rows. */
  lemma AffectedWhen(current: map<Profile, set<Inbound>>, before: set<Row>, new_: map<Profile, set<Inbound>>, after: set<Row>)
    requires IsMapOf(current, before) && IsMapOf(new_, after)
    ensures forall p :: p in Affected(before, after) <==> Get(current, p) != Get(new_, p)
  {
    AffectedExact(before, after);
    forall p
      ensures Get(current, p) == Of(before, p) && Get(new_, p) == Of(after, p)
    {
      InMap(current, before, p);
      InMap(new_, after, p);
    }
  }

  /** An empty name counts as none. */
  predicate Renames(name: Option<string>) {
    name.Some? && name.value != ""
  }

  /** The map for the inbounds that the squad has now. */
  method SquadProfiles(repository: Repository, s: Squad) returns (m: map<Profile, set<Inbound>>)
    requires repository.Valid()
    ensures IsMapOf(m, repository.Rows(s))
  {
    var rows := repository.GetInbounds(s);
    m := ProfilesMap(rows);
  }

  lemma Restarted(current: map<Profile, set<Inbound>>, before: set<Row>, new_: map<Profile, set<Inbound>>, after: set<Row>, affected: seq<Profile>)
    requires IsMapOf(current, before) && IsMapOf(new_, after)
    requires forall p :: p in affected <==> Get(current, p) != Get(new_, p)
    ensures Set(affected) == Affected(before, after)
    ensures affected == [] <==> before == after
  {
    AffectedWhen(current, before, new_, after);
    AffectedExact(before, after);
    assert affected != [] ==> affected[0] in Set(affected);
  }

  function InboundsIn(links: set<(Squad, Inbound)>, s: Squad): set<Inbound> {
    set l | l in links && l.0 == s :: l.1
  }

  lemma Replaced(after: set<(Squad, Inbound)>, before: set<(Squad, Inbound)>, s: Squad, inbounds: seq<Inbound>)
    requires after == (set l | l in before && l.0 != s) + (set i | i in inbounds :: (s, i))
    ensures InboundsIn(after, s) == Set(inbounds)
    ensures forall t | t != s :: InboundsIn(after, t) == InboundsIn(before, t)
  {
    forall i
      ensures i in InboundsIn(after, s) <==> i in Set(inbounds)
    {
      assert i in InboundsIn(after, s) <==> (s, i) in after;
    }
    forall t | t != s
      ensures InboundsIn(after, t) == InboundsIn(before, t)
    {
      forall i
        ensures i in InboundsIn(after, t) <==> i in InboundsIn(before, t)
      {
        assert i in InboundsIn(after, t) <==> (t, i) in after;
        assert i in InboundsIn(before, t) <==> (t, i) in before;
      }
    }
  }

  /** As every inbound belongs to one profile, equal inbounds are equal rows. */
  lemma SameRows(profileOf: map<Inbound, Profile>, a: set<(Squad, Inbound)>, b: set<(Squad, Inbound)>, s: Squad)
    requires forall l | l in a + b :: l.1 in profileOf
    ensures (set l | l in a && l.0 == s :: Row(l.1, profileOf[l.1])) == (set l | l in b && l.0 == s :: Row(l.1, profileOf[l.1]))
       <==> InboundsIn(a, s) == InboundsIn(b, s)
  {
    var ra := set l | l in a && l.0 == s :: Row(l.1, profileOf[l.1]);
    var rb := set l | l in b && l.0 == s :: Row(l.1, profileOf[l.1]);
    forall i
      ensures i in InboundsIn(a, s) <==> i in profileOf && Row(i, profileOf[i]) in ra
      ensures i in InboundsIn(b, s) <==> i in profileOf && Row(i, profileOf[i]) in rb
    {
      assert i in InboundsIn(a, s) <==> (s, i) in a;
      assert i in InboundsIn(b, s) <==> (s, i) in b;
    }
    if InboundsIn(a, s) == InboundsIn(b, s) {
      forall r
        ensures r in ra <==> r in rb
      {
        assert r in ra <==> r.inbound in InboundsIn(a, s) && r.profile == profileOf[r.inbound];
        assert r in rb <==> r.inbound in InboundsIn(b, s) && r.profile == profileOf[r.inbound];
      }
    }
  }

  /** Some inbound of the profile is in the squad only before, or only after. */
  predicate Changes(profileOf: map<Inbound, Profile>, before: set<Inbound>, after: set<Inbound>, p: Profile) {
    exists i | i in (before - after) + (after - before) :: i in profileOf && profileOf[i] == p
  }

  /** A profile is affected iff one of its inbounds comes or goes. */
  lemma AffectedMeans(profileOf: map<Inbound, Profile>, a: set<(Squad, Inbound)>, b: set<(Squad, Inbound)>, s: Squad, p: Profile)
    requires forall l | l in a + b :: l.1 in profileOf
    ensures p in Affected(set l | l in a && l.0 == s :: Row(l.1, profileOf[l.1]), set l | l in b && l.0 == s :: Row(l.1, profileOf[l.1]))
       <==> Changes(profileOf, InboundsIn(a, s), InboundsIn(b, s), p)
  {
    var ra := set l | l in a && l.0 == s :: Row(l.1, profileOf[l.1]);
    var rb := set l | l in b && l.0 == s :: Row(l.1, profileOf[l.1]);
    AffectedExact(ra, rb);
    forall i
      ensures i in Of(ra, p) <==> i in InboundsIn(a, s) && profileOf[i] == p
      ensures i in Of(rb, p) <==> i in InboundsIn(b, s) && profileOf[i] == p
    {
      assert i in InboundsIn(a, s) <==> (s, i) in a;
      assert i in InboundsIn(b, s) <==> (s, i) in b;
      assert i in InboundsIn(a, s) ==> Row(i, profileOf[i]) in ra;
      assert i in InboundsIn(b, s) ==> Row(i, profileOf[i]) in rb;
    }
    if Of(ra, p) != Of(rb, p) {
      var i :| i in Of(ra, p) <==> i !in Of(rb, p);
      assert i in (InboundsIn(a, s) - InboundsIn(b, s)) + (InboundsIn(b, s) - InboundsIn(a, s));
    }
  }

  /** The part of the call that replaces the inbounds. */
  method ReplaceInbounds(repository: Repository, queues: NodesQueues, s: Squad, inbounds: seq<Inbound>)
    returns (outcome: Outcome, ghost affected: seq<Profile>)
    requires repository.Valid() && s in repository.names
    modifies repository`links, queues
    ensures repository.Valid() && queues.started == old(queues.started) + affected
    ensures outcome == if Distinct(inbounds) && Set(inbounds) <= repository.profileOf.Keys then Updated else UpdateError
    ensures outcome == Updated ==>
      && repository.Inbounds(s) == Set(inbounds)
      && Distinct(affected) && Set(affected) == Affected(old(repository.Rows(s)), repository.Rows(s))
      && (forall p :: p in affected <==> Changes(repository.profileOf, old(repository.Inbounds(s)), Set(inbounds), p))
      && (affected == [] <==> Set(inbounds) == old(repository.Inbounds(s)))
    ensures outcome != Updated ==> repository.links == old(repository.links) && affected == []
    ensures forall t | t != s :: repository.Inbounds(t) == old(repository.Inbounds(t))
  {
    var current := SquadProfiles(repository, s);
    var synced := repository.SyncInbounds(s, inbounds);
    if !synced {
      return UpdateError, [];
    }
    Replaced(repository.links, old(repository.links), s, inbounds);
    var new_ := SquadProfiles(repository, s);
    var profiles := AffectedProfiles(current, new_);
    queues.started := queues.started + profiles;
    outcome, affected := Updated, profiles;
    Restarted(current, old(repository.Rows(s)), new_, repository.Rows(s), profiles);
    SameRows(repository.profileOf, old(repository.links), repository.links, s);
    forall p
      ensures p in affected <==> Changes(repository.profileOf, old(repository.Inbounds(s)), Set(inbounds), p)
    {
      AffectedMeans(repository.profileOf, old(repository.links), repository.links, s, p);
      assert p in affected <==> p in Set(affected);
    }
  }

  /**
   One call. If it gives the squad inbounds, then exactly the profiles whose part of the squad differs
   are restarted, each once, and none iff the inbounds are those it had. A new name stays even if the
   inbounds are refused.
   */
  method UpdateInternalSquad(repository: Repository, queues: NodesQueues, s: Squad, name: Option<string>, inbounds: Option<seq<Inbound>>)
    returns (outcome: Outcome, ghost affected: seq<Profile>)
    requires repository.Valid()
    modifies repository`names, repository`links, queues
    ensures repository.Valid() && queues.started == old(queues.started) + affected
    ensures outcome == SquadNotFound <==> s !in old(repository.names)
    ensures outcome == NameOrInboundsRequired <==> s in old(repository.names) && (name == None || name == Some("")) && inbounds.None?
    ensures outcome == NameAlreadyExists <==>
      s in old(repository.names) && name != None && name != Some("") && exists t | t in old(repository.names) && t != s :: old(repository.names)[t] == name.value
    ensures repository.names == if s in old(repository.names) && name != None && name != Some("") && outcome != NameAlreadyExists
                                then old(repository.names)[s := name.value] else old(repository.names)
    ensures outcome == Updated && inbounds.Some? ==>
      && repository.Inbounds(s) == Set(inbounds.value)
      && Distinct(affected) && Set(affected) == Affected(old(repository.Rows(s)), repository.Rows(s))
      && (forall p :: p in affected <==> Changes(repository.profileOf, old(repository.Inbounds(s)), Set(inbounds.value), p))
      && (affected == [] <==> Set(inbounds.value) == old(repository.Inbounds(s)))
    ensures outcome == UpdateError <==>
      s in old(repository.names) && outcome != NameAlreadyExists
      && inbounds.Some? && !(Distinct(inbounds.value) && Set(inbounds.value) <= repository.profileOf.Keys)
    ensures outcome != Updated || inbounds.None? ==> repository.links == old(repository.links) && affected == []
    ensures forall t | t != s :: repository.Inbounds(t) == old(repository.Inbounds(t))
  {
    affected := [];
    if s !in repository.names {
      return SquadNotFound, [];
    }
    if !Renames(name) && inbounds.None? {
      return NameOrInboundsRequired, [];
    }
    if Renames(name) {
      var renamed := repository.Rename(s, name.value);
      if !renamed {
        return NameAlreadyExists, [];
      }
    }
    outcome := Updated;
    if inbounds.Some? {
      outcome, affected := ReplaceInbounds(repository, queues, s, inbounds.value);
    }
  }
}
