/**
 The feature resolver of core.Instance as a state machine. A step is one critical section of the
 resolve lock, or one callback; steps of different calls, and of calls made by callbacks, interleave freely.
 */
module Resolver {
  import opened Collections

  type TypeId = nat

  /** A feature, the type it is looked up by, and the parameter types it can be passed for. */
  datatype Feature = Feature(id: nat, type_: TypeId, assignable: set<TypeId>)

  /** A registered callback: the types of its parameters, and the list it waits in. */
  datatype Resolution = Resolution(id: nat, deps: seq<TypeId>, optional: bool)

  /** What the reflection calls of the source rely on. */
  predicate WellTyped(fs: seq<Feature>) {
    forall f | f in fs :: f.type_ in f.assignable
  }

  predicate Has(fs: seq<Feature>, t: TypeId) {
    exists f | f in fs :: f.type_ == t
  }

  /** Every dependency is there. */
  predicate Ready(fs: seq<Feature>, r: Resolution) {
    forall d | d in r.deps :: Has(fs, d)
  }

  /** The resolutions that are ready, or those that are not, in order. */
  function Keep(fs: seq<Feature>, rs: seq<Resolution>, ready: bool): seq<Resolution> {
    if rs == [] then []
    else (if Ready(fs, rs[0]) == ready then [rs[0]] else []) + Keep(fs, rs[1..], ready)
  }

  datatype State = State(
    features: seq<Feature>, pending: seq<Resolution>, pendingOptional: seq<Resolution>,
    registered: seq<Resolution>, inFlight: seq<Resolution>, fired: seq<Resolution>)

  const EMPTY := State([], [], [], [], [], [])

  datatype Step = Require(r: Resolution) | Add(f: Feature) | Fire(i: nat)

  predicate Enabled(s: State, step: Step) {
    step.Fire? ==> step.i < |s.inFlight|
  }

  function Next(s: State, step: Step): State
    requires Enabled(s, step)
  {
    match step
    case Require(r) =>
      var t := s.(registered := s.registered + [r]);
      if Ready(s.features, r) then t.(inFlight := s.inFlight + [r])
      else if r.optional then t.(pendingOptional := s.pendingOptional + [r])
      else t.(pending := s.pending + [r])
    case Add(f) =>
      var fs := s.features + [f];
      s.(features := fs,
         pending := Keep(fs, s.pending, false),
         pendingOptional := Keep(fs, s.pendingOptional, false),
         inFlight := s.inFlight + Keep(fs, s.pending, true) + Keep(fs, s.pendingOptional, true))
    case Fire(i) =>
      s.(inFlight := s.inFlight[..i] + s.inFlight[i + 1..], fired := s.fired + [s.inFlight[i]])
  }

  /** A run of enabled steps. */
  predicate IsRun(s: State, steps: seq<Step>)
    decreases |steps|
  {
    steps != [] ==> Enabled(s, steps[0]) && IsRun(Next(s, steps[0]), steps[1..])
  }

  function Run(s: State, steps: seq<Step>): State
    requires IsRun(s, steps)
    decreases |steps|
  {
    if steps == [] then s else Run(Next(s, steps[0]), steps[1..])
  }

  lemma {:induction false} RunSnoc(s: State, steps: seq<Step>, step: Step)
    requires IsRun(s, steps) && Enabled(Run(s, steps), step)
    ensures IsRun(s, steps + [step]) && Run(s, steps + [step]) == Next(Run(s, steps), step)
    decreases |steps|
  {
    if steps != [] {
      assert (steps + [step])[1..] == steps[1..] + [step];
      RunSnoc(Next(s, steps[0]), steps[1..], step);
    }
  }

  // ---- What holds whenever the lock is free ----

  /**
   Each registration is in exactly one place; what waits lacks a dependency; what has been released,
   fired or not, has them all.
   */
  predicate Inv(s: State) {
    && multiset(s.registered) == multiset(s.pending) + multiset(s.pendingOptional) + multiset(s.inFlight) + multiset(s.fired)
    && (forall r | r in s.pending :: !r.optional && !Ready(s.features, r))
    && (forall r | r in s.pendingOptional :: r.optional && !Ready(s.features, r))
    && (forall r | r in s.inFlight :: Ready(s.features, r))
    && (forall r | r in s.fired :: Ready(s.features, r))
  }

  lemma {:induction false} KeepSplits(fs: seq<Feature>, rs: seq<Resolution>)
    ensures multiset(rs) == multiset(Keep(fs, rs, true)) + multiset(Keep(fs, rs, false))
  {
    if rs != [] {
      assert rs == [rs[0]] + rs[1..];
      KeepSplits(fs, rs[1..]);
    }
  }

  lemma {:induction false} KeepKeeps(fs: seq<Feature>, rs: seq<Resolution>, ready: bool)
    ensures forall r | r in Keep(fs, rs, ready) :: r in rs && Ready(fs, r) == ready
  {
    if rs != [] {
      KeepKeeps(fs, rs[1..], ready);
    }
  }

  lemma ReadyGrows(fs: seq<Feature>, f: Feature, r: Resolution)
    requires Ready(fs, r)
    ensures Ready(fs + [f], r)
  {
    forall d | d in r.deps
      ensures Has(fs + [f], d)
    {
      var g :| g in fs && g.type_ == d;
      assert g in fs + [f];
    }
  }

  lemma RequireKeepsInv(s: State, r: Resolution)
    requires Inv(s)
    ensures Inv(Next(s, Require(r)))
  {
  }

  lemma AddKeepsInv(s: State, f: Feature)
    requires Inv(s)
    ensures Inv(Next(s, Add(f)))
  {
    var fs := s.features + [f];
    var a, b := Keep(fs, s.pending, true), Keep(fs, s.pendingOptional, true);
    KeepSplits(fs, s.pending);
    KeepSplits(fs, s.pendingOptional);
    KeepKeeps(fs, s.pending, true);
    KeepKeeps(fs, s.pending, false);
    KeepKeeps(fs, s.pendingOptional, true);
    KeepKeeps(fs, s.pendingOptional, false);
    assert multiset(s.inFlight + a + b) == multiset(s.inFlight) + multiset(a) + multiset(b);
    forall r | r in s.inFlight || r in s.fired
      ensures Ready(fs, r)
    {
      ReadyGrows(s.features, f, r);
    }
  }

  lemma FireKeepsInv(s: State, i: nat)
    requires Inv(s) && i < |s.inFlight|
    ensures Inv(Next(s, Fire(i)))
  {
    var left := s.inFlight[..i] + s.inFlight[i + 1..];
    assert s.inFlight == s.inFlight[..i] + [s.inFlight[i]] + s.inFlight[i + 1..];
    assert multiset(s.inFlight) == multiset(left) + multiset{s.inFlight[i]};
    assert forall r | r in left :: r in s.inFlight;
  }

  lemma StepKeepsInv(s: State, step: Step)
    requires Inv(s) && Enabled(s, step)
    ensures Inv(Next(s, step))
  {
    match step
    case Require(r) => RequireKeepsInv(s, r);
    case Add(f) => AddKeepsInv(s, f);
    case Fire(i) => FireKeepsInv(s, i);
  }

  /** Any interleaving, callbacks that call back in included. */
  lemma {:induction false} RunKeepsInv(s: State, steps: seq<Step>)
    requires Inv(s) && IsRun(s, steps)
    ensures Inv(Run(s, steps))
    decreases |steps|
  {
    if steps != [] {
      StepKeepsInv(s, steps[0]);
      RunKeepsInv(Next(s, steps[0]), steps[1..]);
    }
  }

  lemma {:induction false} DistinctOnce(rs: seq<Resolution>, r: Resolution)
    requires Distinct(rs)
    ensures multiset(rs)[r] <= 1
  {
    if rs != [] {
      assert rs == [rs[0]] + rs[1..];
      DistinctOnce(rs[1..], r);
      if r == rs[0] {
        assert r !in rs[1..];
      }
    }
  }

  /** If no registration is made twice, then no callback fires twice, or fires and still waits. */
  lemma FiresOnce(steps: seq<Step>, r: Resolution)
    requires IsRun(EMPTY, steps) && Distinct(Run(EMPTY, steps).registered)
    ensures var s := Run(EMPTY, steps);
            multiset(s.pending)[r] + multiset(s.pendingOptional)[r] + multiset(s.inFlight)[r] + multiset(s.fired)[r]
            == if r in s.registered then 1 else 0
  {
    RunKeepsInv(EMPTY, steps);
    var s := Run(EMPTY, steps);
    DistinctOnce(s.registered, r);
  }

  // ---- The order of calls does not matter ----

  /** All released callbacks have been called. */
  predicate Quiet(s: State) {
    s.inFlight == []
  }

  /** How often each callback has fired and waits is decided by what was registered and provided. */
  lemma FinalCounts(s: State, r: Resolution)
    requires Inv(s) && Quiet(s)
    ensures multiset(s.fired)[r] == if Ready(s.features, r) then multiset(s.registered)[r] else 0
    ensures multiset(s.pending)[r] == if !Ready(s.features, r) && !r.optional then multiset(s.registered)[r] else 0
    ensures multiset(s.pendingOptional)[r] == if !Ready(s.features, r) && r.optional then multiset(s.registered)[r] else 0
  {
    assert multiset(s.fired)[r] > 0 ==> r in s.fired;
    assert multiset(s.pending)[r] > 0 ==> r in s.pending;
    assert multiset(s.pendingOptional)[r] > 0 ==> r in s.pendingOptional;
  }

  function Registrations(steps: seq<Step>): seq<Resolution> {
    if steps == [] then [] else (if steps[0].Require? then [steps[0].r] else []) + Registrations(steps[1..])
  }

  function Additions(steps: seq<Step>): seq<Feature> {
    if steps == [] then [] else (if steps[0].Add? then [steps[0].f] else []) + Additions(steps[1..])
  }

  lemma {:induction false} RunRegisters(s: State, steps: seq<Step>)
    requires IsRun(s, steps)
    ensures Run(s, steps).registered == s.registered + Registrations(steps)
    decreases |steps|
  {
    if steps != [] {
      RunRegisters(Next(s, steps[0]), steps[1..]);
    }
  }

  lemma {:induction false} RunAdds(s: State, steps: seq<Step>)
    requires IsRun(s, steps)
    ensures Run(s, steps).features == s.features + Additions(steps)
    decreases |steps|
  {
    if steps != [] {
      RunAdds(Next(s, steps[0]), steps[1..]);
    }
  }

  lemma Recorded(steps: seq<Step>)
    requires IsRun(EMPTY, steps)
    ensures Inv(Run(EMPTY, steps))
    ensures Run(EMPTY, steps).registered == Registrations(steps)
    ensures Run(EMPTY, steps).features == Additions(steps)
  {
    RunKeepsInv(EMPTY, steps);
    RunRegisters(EMPTY, steps);
    RunAdds(EMPTY, steps);
  }

  lemma SameFeatures(a: seq<Feature>, b: seq<Feature>, r: Resolution)
    requires multiset(a) == multiset(b)
    ensures Ready(a, r) == Ready(b, r)
  {
    assert forall f :: f in a <==> f in multiset(a);
    assert forall f :: f in b <==> f in multiset(b);
    assert forall d :: Has(a, d) <==> Has(b, d);
  }

  lemma SameEnd(s: State, t: State)
    requires Inv(s) && Quiet(s) && Inv(t) && Quiet(t)
    requires multiset(s.registered) == multiset(t.registered) && multiset(s.features) == multiset(t.features)
    ensures multiset(s.fired) == multiset(t.fired)
    ensures multiset(s.pending) == multiset(t.pending)
    ensures multiset(s.pendingOptional) == multiset(t.pendingOptional)
  {
    forall r: Resolution
      ensures multiset(s.fired)[r] == multiset(t.fired)[r]
      ensures multiset(s.pending)[r] == multiset(t.pending)[r]
      ensures multiset(s.pendingOptional)[r] == multiset(t.pendingOptional)[r]
    {
      FinalCounts(s, r);
      FinalCounts(t, r);
      SameFeatures(s.features, t.features, r);
    }
  }

  /**
   Two runs of the same registrations and additions, in any order and with callbacks called at any time,
   end with the same callbacks fired and the same ones waiting.
   */
  lemma OrderIndependence(a: seq<Step>, b: seq<Step>)
    requires IsRun(EMPTY, a) && Quiet(Run(EMPTY, a))
    requires IsRun(EMPTY, b) && Quiet(Run(EMPTY, b))
    requires multiset(Registrations(a)) == multiset(Registrations(b))
    requires multiset(Additions(a)) == multiset(Additions(b))
    ensures multiset(Run(EMPTY, a).fired) == multiset(Run(EMPTY, b).fired)
    ensures multiset(Run(EMPTY, a).pending) == multiset(Run(EMPTY, b).pending)
    ensures multiset(Run(EMPTY, a).pendingOptional) == multiset(Run(EMPTY, b).pendingOptional)
  {
    Recorded(a);
    Recorded(b);
    SameEnd(Run(EMPTY, a), Run(EMPTY, b));
  }

  /** Initialisation passes its check exactly when no required callback lacks a dependency. */
  lemma CheckExact(s: State)
    requires Inv(s)
    ensures s.pending == [] <==> forall r | r in s.registered && !r.optional :: Ready(s.features, r)
  {
    if s.pending == [] {
      forall r | r in s.registered && !r.optional
        ensures Ready(s.features, r)
      {
        assert r in multiset(s.registered);
        assert r in s.pendingOptional || r in s.inFlight || r in s.fired;
      }
    } else {
      var r := s.pending[0];
      assert r in multiset(s.pending);
      assert r in multiset(s.registered);
      assert r in s.registered;
    }
  }

  // ---- What runs achieve, told from their calls ----

  /** A feature of this type has been added. */
  predicate Supplied(steps: seq<Step>, d: TypeId) {
    exists k | 0 <= k < |steps| :: steps[k].Add? && steps[k].f.type_ == d
  }

  /** A feature of every type that the callback asks for has been added. */
  predicate Provided(steps: seq<Step>, r: Resolution) {
    forall d | d in r.deps :: Supplied(steps, d)
  }

  /** How often the callback has been registered. */
  function TimesRegistered(steps: seq<Step>, r: Resolution): nat {
    if steps == [] then 0 else (if steps[0] == Require(r) then 1 else 0) + TimesRegistered(steps[1..], r)
  }

  lemma {:induction false} AddedIn(steps: seq<Step>, f: Feature)
    ensures f in Additions(steps) <==> exists k | 0 <= k < |steps| :: steps[k] == Add(f)
  {
    if steps != [] {
      AddedIn(steps[1..], f);
      assert forall k | 1 <= k < |steps| :: steps[k] == steps[1..][k - 1];
    }
  }

  lemma {:induction false} RegisteredIn(steps: seq<Step>, r: Resolution)
    ensures multiset(Registrations(steps))[r] == TimesRegistered(steps, r)
  {
    if steps != [] {
      RegisteredIn(steps[1..], r);
    }
  }

  lemma SuppliedIsThere(steps: seq<Step>, d: TypeId)
    ensures Supplied(steps, d) <==> Has(Additions(steps), d)
  {
    if Supplied(steps, d) {
      var k :| 0 <= k < |steps| && steps[k].Add? && steps[k].f.type_ == d;
      AddedIn(steps, steps[k].f);
      assert steps[k] == Add(steps[k].f);
    }
    if Has(Additions(steps), d) {
      var f :| f in Additions(steps) && f.type_ == d;
      AddedIn(steps, f);
      var k :| 0 <= k < |steps| && steps[k] == Add(f);
      assert steps[k].Add? && steps[k].f.type_ == d;
    }
  }

  lemma ProvidedIsReady(steps: seq<Step>, r: Resolution)
    ensures Provided(steps, r) <==> Ready(Additions(steps), r)
  {
    hide Supplied, Has;
    forall d | d in r.deps
      ensures Supplied(steps, d) <==> Has(Additions(steps), d)
    {
      SuppliedIsThere(steps, d);
    }
  }

  /**
   When every released callback has been called: a callback has fired, as often as it was registered, if all
   that it asks for was added, and otherwise waits as often, in the list for required or optional ones.
   */
  lemma FiredExact(steps: seq<Step>, r: Resolution)
    requires IsRun(EMPTY, steps) && Quiet(Run(EMPTY, steps))
    ensures var s, n := Run(EMPTY, steps), TimesRegistered(steps, r);
            && multiset(s.fired)[r] == (if Provided(steps, r) then n else 0)
            && multiset(s.pending)[r] == (if !Provided(steps, r) && !r.optional then n else 0)
            && multiset(s.pendingOptional)[r] == (if !Provided(steps, r) && r.optional then n else 0)
  {
    Recorded(steps);
    FinalCounts(Run(EMPTY, steps), r);
    RegisteredIn(steps, r);
    ProvidedIsReady(steps, r);
  }

  lemma {:induction false} RequiredIn(steps: seq<Step>, r: Resolution)
    ensures r in Registrations(steps) <==> exists k | 0 <= k < |steps| :: steps[k] == Require(r)
  {
    if steps != [] {
      RequiredIn(steps[1..], r);
      assert forall k | 1 <= k < |steps| :: steps[k] == steps[1..][k - 1];
    }
  }

  /** Whatever still runs: the check passes iff everything was added that a required callback asks for. */
  lemma CheckMeans(steps: seq<Step>)
    requires IsRun(EMPTY, steps)
    ensures Run(EMPTY, steps).pending == [] <==>
            forall k | 0 <= k < |steps| && steps[k].Require? && !steps[k].r.optional :: Provided(steps, steps[k].r)
  {
    Recorded(steps);
    var s := Run(EMPTY, steps);
    CheckExact(s);
    forall r
      ensures r in s.registered <==> exists k | 0 <= k < |steps| :: steps[k] == Require(r)
      ensures Provided(steps, r) <==> Ready(s.features, r)
    {
      RequiredIn(steps, r);
      ProvidedIsReady(steps, r);
    }
    if s.pending == [] {
      forall k | 0 <= k < |steps| && steps[k].Require? && !steps[k].r.optional
        ensures Provided(steps, steps[k].r)
      {
        assert steps[k] == Require(steps[k].r);
      }
    }
  }
}
