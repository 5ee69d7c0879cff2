/**
 core.Instance: the loops behind RequireFeatures and AddFeature, proved against the steps of Resolver.
 A critical section and the callbacks after it are separate methods, because other calls may run between.
 */
module Instance {
  import opened Resolver

  /** A Go slice, which may be nil. */
  datatype Slice<T> = Nil | Of(items: seq<T>) {
    function Items(): seq<T> {
      if Nil? then [] else items
    }

    function Append(x: T): (s: Slice<T>)
      ensures s.Of? && s.Items() == Items() + [x]
    {
      Of(Items() + [x])
    }

    /** Nil exactly when empty. */
    predicate Proper() {
      Nil? <==> Items() == []
    }
  }

  /** The first feature of a type. */
  method GetFeature(allFeatures: seq<Feature>, t: TypeId) returns (found: bool, f: Feature)
    ensures found <==> Has(allFeatures, t)
    ensures found ==> exists i | 0 <= i < |allFeatures| ::
      f == allFeatures[i] && f.type_ == t && forall j | 0 <= j < i :: allFeatures[j].type_ != t
  {
    for i := 0 to |allFeatures|
      invariant forall j | 0 <= j < i :: allFeatures[j].type_ != t
    {
      if allFeatures[i].type_ == t {
        return true, allFeatures[i];
      }
    }
    return false, Feature(0, t, {});
  }

  /** Are all dependencies there? */
  method FoundAll(features: seq<Feature>, r: Resolution) returns (all: bool)
    ensures all == Ready(features, r)
  {
    for i := 0 to |r.deps|
      invariant forall j | 0 <= j < i :: Has(features, r.deps[j])
    {
      var found, _ := GetFeature(features, r.deps[i]);
      if !found {
        return false;
      }
    }
    return true;
  }

  /** The first feature that can be passed for a parameter. */
  predicate IsFirstFor(allFeatures: seq<Feature>, t: TypeId, f: Feature) {
    exists k | 0 <= k < |allFeatures| ::
      allFeatures[k] == f && t in f.assignable && forall j | 0 <= j < k :: t !in allFeatures[j].assignable
  }

  /** The arguments for a callback: for each parameter the first feature that can be passed for it. */
  method CallbackResolution(allFeatures: seq<Feature>, r: Resolution) returns (input: seq<Feature>)
    requires WellTyped(allFeatures) && Ready(allFeatures, r)
    ensures |input| == |r.deps|
    ensures forall i | 0 <= i < |input| :: IsFirstFor(allFeatures, r.deps[i], input[i])
  {
    input := [];
    for i := 0 to |r.deps|
      invariant |input| == i
      invariant forall j | 0 <= j < i :: IsFirstFor(allFeatures, r.deps[j], input[j])
    {
      var k := 0;
      while k < |allFeatures|
        invariant 0 <= k <= |allFeatures|
        invariant |input| == i
        invariant forall j | 0 <= j < i :: IsFirstFor(allFeatures, r.deps[j], input[j])
        invariant forall j | 0 <= j < k :: r.deps[i] !in allFeatures[j].assignable
      {
        if r.deps[i] in allFeatures[k].assignable {
          assert IsFirstFor(allFeatures, r.deps[i], allFeatures[k]);
          input := input + [allFeatures[k]];
          break;
        }
        k := k + 1;
      }
      assert Has(allFeatures, r.deps[i]);
    }
  }

  lemma {:induction false} KeepAppend(fs: seq<Feature>, a: seq<Resolution>, b: seq<Resolution>, ready: bool)
    ensures Keep(fs, a + b, ready) == Keep(fs, a, ready) + Keep(fs, b, ready)
  {
    if a == [] {
      assert a + b == b;
    } else {
      assert (a + b)[1..] == a[1..] + b;
      KeepAppend(fs, a[1..], b, ready);
    }
  }

  lemma KeepSnoc(fs: seq<Feature>, rs: seq<Resolution>, i: nat, ready: bool)
    requires i < |rs|
    ensures Keep(fs, rs[..i + 1], ready)
         == Keep(fs, rs[..i], ready) + if Ready(fs, rs[i]) == ready then [rs[i]] else []
  {
    assert rs[..i + 1] == rs[..i] + [rs[i]];
    KeepAppend(fs, rs[..i], [rs[i]], ready);
    assert Keep(fs, [rs[i]], ready) == (if Ready(fs, rs[i]) == ready then [rs[i]] else []) + Keep(fs, [rs[i]][1..], ready);
  }

  /** A loop of AddFeature: those that can be called now, and those that wait on. */
  method Partition(features: seq<Feature>, waiting: seq<Resolution>) returns (available: seq<Resolution>, pending: Slice<Resolution>)
    ensures available == Keep(features, waiting, true)
    ensures pending.Proper() && pending.Items() == Keep(features, waiting, false)
  {
    available, pending := [], Nil;
    for i := 0 to |waiting|
      invariant available == Keep(features, waiting[..i], true)
      invariant pending.Proper() && pending.Items() == Keep(features, waiting[..i], false)
    {
      KeepSnoc(features, waiting, i, true);
      KeepSnoc(features, waiting, i, false);
      var foundAll := FoundAll(features, waiting[i]);
      if foundAll {
        available := available + [waiting[i]];
      } else {
        pending := pending.Append(waiting[i]);
      }
    }
    assert waiting[..|waiting|] == waiting;
  }

  class Instance {
    var features: seq<Feature>
    var pendingResolutions: Slice<Resolution>
    var pendingOptionalResolutions: Slice<Resolution>
    var running: bool
    ghost var registered: seq<Resolution>
    ghost var inFlight: seq<Resolution>
    ghost var fired: seq<Resolution>
    ghost var steps: seq<Step>  // what has happened to this instance so far

    constructor ()
      ensures Valid() && steps == [] && !running
    {
      features, pendingResolutions, pendingOptionalResolutions, running := [], Nil, Nil, false;
      registered, inFlight, fired, steps := [], [], [], [];
    }

    ghost function State(): State
      reads this
    {
      Resolver.State.State(features, pendingResolutions.Items(), pendingOptionalResolutions.Items(), registered, inFlight, fired)
    }

    /** The instance is in the state that its steps lead to. */
    ghost predicate Valid()
      reads this
    {
      && IsRun(EMPTY, steps) && State() == Run(EMPTY, steps)
      && WellTyped(features)
      && pendingResolutions.Proper() && pendingOptionalResolutions.Proper()
    }

    /** RequireFeatures under the lock: call the callback now, or keep it. */
    method Register(r: Resolution) returns (foundAll: bool)
      requires Valid()
      modifies this
      ensures Valid() && steps == old(steps) + [Require(r)] && running == old(running)
      ensures foundAll == Ready(features, r) && inFlight == old(inFlight) + if foundAll then [r] else []
      ensures features == old(features) && fired == old(fired)
      ensures pendingResolutions.Items() == old(pendingResolutions.Items()) + if !foundAll && !r.optional then [r] else []
      ensures pendingOptionalResolutions.Items()
           == old(pendingOptionalResolutions.Items()) + if !foundAll && r.optional then [r] else []
    {
      RunSnoc(EMPTY, steps, Require(r));
      foundAll := FoundAll(features, r);
      registered := registered + [r];
      if foundAll {
        inFlight := inFlight + [r];
      } else if r.optional {
        pendingOptionalResolutions := pendingOptionalResolutions.Append(r);
      } else {
        pendingResolutions := pendingResolutions.Append(r);
      }
      steps := steps + [Require(r)];
    }

    /** AddFeature under the lock: add the feature, and take out what can be called now. */
    method Provide(f: Feature) returns (available: seq<Resolution>)
      requires Valid() && f.type_ in f.assignable
      modifies this
      ensures Valid() && steps == old(steps) + [Add(f)] && running == old(running)
      ensures inFlight == old(inFlight) + available && features == old(features) + [f] && fired == old(fired)
      ensures available == Keep(features, old(pendingResolutions.Items()), true)
                         + Keep(features, old(pendingOptionalResolutions.Items()), true)
      ensures pendingResolutions.Items() == Keep(features, old(pendingResolutions.Items()), false)
      ensures pendingOptionalResolutions.Items() == Keep(features, old(pendingOptionalResolutions.Items()), false)
    {
      RunSnoc(EMPTY, steps, Add(f));
      features := features + [f];
      var now, nowOptional, pending, pendingOptional;
      now, pending := Partition(features, pendingResolutions.Items());
      nowOptional, pendingOptional := Partition(features, pendingOptionalResolutions.Items());
      available := now + nowOptional;
      assert inFlight + (now + nowOptional) == inFlight + now + nowOptional;
      pendingResolutions, pendingOptionalResolutions := pending, pendingOptional;
      inFlight := inFlight + available;
      steps := steps + [Add(f)];
    }

    /** Calls one callback that has been released; every parameter gets an argument. */
    method Call(r: Resolution, ghost i: nat) returns (input: seq<Feature>)
      requires Valid() && i < |inFlight| && inFlight[i] == r
      modifies this`inFlight, this`fired, this`steps
      ensures Valid() && steps == old(steps) + [Fire(i)]
      ensures inFlight == old(inFlight)[..i] + old(inFlight)[i + 1..] && fired == old(fired) + [r]
      ensures |input| == |r.deps| && forall k | 0 <= k < |input| :: IsFirstFor(features, r.deps[k], input[k])
    {
      RunSnoc(EMPTY, steps, Fire(i));
      assert Ready(features, r) by {
        RunKeepsInv(EMPTY, steps);
      }
      input := CallbackResolution(features, r);
      inFlight, fired := inFlight[..i] + inFlight[i + 1..], fired + [r];
      steps := steps + [Fire(i)];
    }

    /** RequireFeatures, when nothing else runs between the critical section and the callback. */
    method RequireFeatures(r: Resolution)
      requires Valid() && inFlight == []
      modifies this
      ensures Valid() && inFlight == [] && running == old(running)
      ensures steps == old(steps) + [Require(r)] + if Ready(features, r) then [Fire(0)] else []
      ensures features == old(features) && fired == old(fired) + if Ready(features, r) then [r] else []
      ensures pendingResolutions.Items()
           == old(pendingResolutions.Items()) + if !Ready(features, r) && !r.optional then [r] else []
      ensures pendingOptionalResolutions.Items()
           == old(pendingOptionalResolutions.Items()) + if !Ready(features, r) && r.optional then [r] else []
    {
      var foundAll := Register(r);
      if foundAll {
        var _ := Call(r, 0);
      }
    }

    /** The last loop of AddFeature. */
    method CallAll(available: seq<Resolution>)
      requires Valid() && inFlight == available
      modifies this`inFlight, this`fired, this`steps
      ensures Valid() && inFlight == []
      ensures steps == old(steps) + seq(|available|, _ => Fire(0)) && fired == old(fired) + available
    {
      for i := 0 to |available|
        invariant Valid() && inFlight == available[i..]
        invariant steps == old(steps) + seq(i, _ => Fire(0)) && fired == old(fired) + available[..i]
      {
        var _ := Call(available[i], 0);
        assert steps == old(steps) + seq(i + 1, _ => Fire(0));
      }
      assert available[..|available|] == available;
    }

    /**
     AddFeature, when nothing else runs between the critical section and the callbacks: those that have become
     ready are called in order, the required ones first.
     */
    method AddFeature(f: Feature) returns (ghost called: nat)
      requires Valid() && inFlight == [] && f.type_ in f.assignable
      modifies this
      ensures Valid() && inFlight == [] && running == old(running)
      ensures running ==> steps == old(steps) && State() == old(State())
      ensures !running ==>
        && steps == old(steps) + [Add(f)] + seq(called, _ => Fire(0)) && features == old(features) + [f]
        && fired == old(fired) + (Keep(features, old(pendingResolutions.Items()), true)
                                  + Keep(features, old(pendingOptionalResolutions.Items()), true))
        && pendingResolutions.Items() == Keep(features, old(pendingResolutions.Items()), false)
        && pendingOptionalResolutions.Items() == Keep(features, old(pendingOptionalResolutions.Items()), false)
    {
      called := 0;
      if running {
        return;
      }
      var available := Provide(f);
      assert inFlight == available;
      called := |available|;
      CallAll(available);
    }

    /** The check of initInstanceWithConfig. */
    method AllResolved() returns (ok: bool)
      requires Valid()
      ensures ok <==> forall r | r in registered && !r.optional :: Ready(features, r)
    {
      assert pendingResolutions.Items() == [] <==> forall r | r in registered && !r.optional :: Ready(features, r) by {
        RunKeepsInv(EMPTY, steps);
        CheckExact(State());
      }
      ok := pendingResolutions.Nil?;
    }
  }
}
