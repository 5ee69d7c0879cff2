/**
 HashedSet: a set of strings that keeps the XOR of its elements' hashes, so that sets can be compared
 without looking at their elements.
 */
module HashedSet {

  /** A JavaScript string: UTF-16 code units. */
  type CodeUnit = c: nat | c < 0x1_0000

  type Str = seq<CodeUnit>

  const MODULUS: nat := 0x1_0000_0000

  type Word = w: nat | w < MODULUS

  /** One round of _djb2Dual; `<<` multiplies by a power of two, and `| 0` keeps 32 bits. */
  function HighRound(high: Word, c: CodeUnit): Word {
    (high * 32 + high + c) % MODULUS
  }

  function LowRound(low: Word, c: CodeUnit): Word {
    (low * 64 + low + c * 37) % MODULUS
  }

  function High(s: Str): Word {
    if s == [] then 5381 else HighRound(High(s[..|s| - 1]), s[|s| - 1])
  }

  function Low(s: Str): Word {
    if s == [] then 5387 else LowRound(Low(s[..|s| - 1]), s[|s| - 1])
  }

  /** Both words of a hash, bit by bit. */
  datatype Hash = Hash(high: bv32, low: bv32)

  const NO_HASH := Hash(0, 0)

  function Bits(w: Word): bv32 {
    w as bv32
  }

  function HashOf(s: Str): Hash {
    Hash(Bits(High(s)), Bits(Low(s)))
  }

  method Djb2Dual(s: Str) returns (hash: Hash)
    ensures hash == HashOf(s)
  {
    var high: Word, low: Word := 5381, 5387;
    for i := 0 to |s|
      invariant high == High(s[..i]) && low == Low(s[..i])
    {
      assert s[..i + 1][..i] == s[..i];
      high := HighRound(high, s[i]);
      low := LowRound(low, s[i]);
    }
    assert s[..|s|] == s;
    hash := Hash(Bits(high), Bits(low));
  }

  // ---- The hash of a string, as two sums ----

  function Pow(base: nat, n: nat): nat {
    if n == 0 then 1 else base * Pow(base, n - 1)
  }

  /** The code units, each times the power of the base for the units behind it. */
  function Sum(s: Str, base: nat): nat {
    if s == [] then 0 else s[0] * Pow(base, |s| - 1) + Sum(s[1..], base)
  }

  lemma Distribute(base: nat, c: nat, p: nat, rest: nat)
    ensures c * (base * p) + base * rest == base * (c * p + rest)
  {
  }

  lemma {:induction false} SumSnoc(s: Str, c: CodeUnit, base: nat)
    ensures Sum(s + [c], base) == base * Sum(s, base) + c
  {
    if s == [] {
      assert Sum([], base) == 0;
    } else {
      assert (s + [c])[1..] == s[1..] + [c];
      SumSnoc(s[1..], c, base);
      assert Pow(base, |s|) == base * Pow(base, |s| - 1);
      Distribute(base, s[0], Pow(base, |s| - 1), Sum(s[1..], base));
    }
  }

  lemma {:induction false} SameRemainder(x: nat, n: nat)
    ensures (x + n * MODULUS) % MODULUS == x % MODULUS
  {
    if n != 0 {
      SameRemainder(x, n - 1);
      assert x + n * MODULUS == x + (n - 1) * MODULUS + MODULUS;
    }
  }

  /** Taking the remainder early changes nothing. */
  lemma Reduced(x: nat, factor: nat, y: nat)
    ensures (factor * (x % MODULUS) + y) % MODULUS == (factor * x + y) % MODULUS
  {
    var q, r := x / MODULUS, x % MODULUS;
    assert factor * x == factor * r + factor * q * MODULUS by {
      assert x == q * MODULUS + r;
    }
    SameRemainder(factor * r + y, factor * q);
  }

  lemma HighStep(high: Word, x: nat, c: CodeUnit)
    requires high == x % MODULUS
    ensures HighRound(high, c) == (33 * x + c) % MODULUS
  {
    Reduced(x, 33, c);
  }

  lemma LowStep(low: Word, x: nat, c: CodeUnit)
    requires low == x % MODULUS
    ensures LowRound(low, c) == (65 * x + 37 * (c as nat)) % MODULUS
  {
    Reduced(x, 65, 37 * (c as nat));
  }

  lemma {:induction false} HighExact(s: Str)
    ensures High(s) == (5381 * Pow(33, |s|) + Sum(s, 33)) % MODULUS
  {
    hide HighRound;
    if s != [] {
      var init, c := s[..|s| - 1], s[|s| - 1];
      var x := 5381 * Pow(33, |init|) + Sum(init, 33);
      HighExact(init);
      SumSnoc(init, c, 33);
      assert s == init + [c];
      HighStep(High(init), x, c);
      assert 33 * x + c == 5381 * Pow(33, |s|) + Sum(s, 33);
    }
  }

  lemma {:induction false} LowExact(s: Str)
    ensures Low(s) == (5387 * Pow(65, |s|) + 37 * Sum(s, 65)) % MODULUS
  {
    hide LowRound;
    if s != [] {
      var init, c := s[..|s| - 1], s[|s| - 1];
      var x := 5387 * Pow(65, |init|) + 37 * Sum(init, 65);
      LowExact(init);
      SumSnoc(init, c, 65);
      assert s == init + [c];
      LowStep(Low(init), x, c);
      assert 65 * x + 37 * (c as nat) == 5387 * Pow(65, |s|) + 37 * Sum(s, 65);
    }
  }

  /** The words of a hash are these sums modulo 2 to the power 32. */
  lemma HashExact(s: Str)
    ensures HashOf(s) == Hash(Bits((5381 * Pow(33, |s|) + Sum(s, 33)) % 0x1_0000_0000),
                              Bits((5387 * Pow(65, |s|) + 37 * Sum(s, 65)) % 0x1_0000_0000))
  {
    hide High, Low, Pow, Sum, Bits;
    HighExact(s);
    LowExact(s);
  }

  /** `^` on both words. */
  function Mix(a: Hash, b: Hash): Hash {
    Hash(a.high ^ b.high, a.low ^ b.low)
  }

  lemma MixSwap(a: Hash, b: Hash, c: Hash)
    ensures Mix(a, Mix(b, c)) == Mix(b, Mix(a, c))
  {
  }

  lemma MixCommutes(a: Hash, b: Hash)
    ensures Mix(a, b) == Mix(b, a)
  {
  }

  lemma MixCancels(a: Hash, b: Hash)
    ensures Mix(Mix(b, a), a) == b
  {
  }

  lemma MixNothing(a: Hash)
    ensures Mix(a, NO_HASH) == a
  {
  }

  /** Mixing the same hash in decides nothing. */
  lemma MixSame(a: Hash, b: Hash, c: Hash)
    ensures Mix(a, c) == Mix(b, c) <==> a == b
  {
    MixCancels(c, a);
    MixCancels(c, b);
  }

  // ---- The XOR over a set, taken in any order ----

  ghost function Xor(s: set<Str>): Hash {
    if s == {} then NO_HASH else var x :| x in s; Mix(HashOf(x), Xor(s - {x}))
  }

  /** Whichever element comes first, the XOR is the same. */
  lemma {:induction false} XorTake(s: set<Str>, y: Str)
    requires y in s
    ensures Xor(s) == Mix(HashOf(y), Xor(s - {y}))
    decreases |s|
  {
    hide HashOf, Mix;
    var x :| x in s && Xor(s) == Mix(HashOf(x), Xor(s - {x}));
    if x != y {
      XorTake(s - {x}, y);
      XorTake(s - {y}, x);
      assert s - {x} - {y} == s - {y} - {x};
      MixSwap(HashOf(x), HashOf(y), Xor(s - {x} - {y}));
    }
  }

  /** Mixing with an element's hash puts it in and takes it out. */
  lemma XorToggle(s: set<Str>, x: Str)
    requires x !in s
    ensures Xor(s + {x}) == Mix(Xor(s), HashOf(x))
    ensures Mix(Xor(s + {x}), HashOf(x)) == Xor(s)
  {
    XorTake(s + {x}, x);
    assert s + {x} - {x} == s;
    MixCommutes(HashOf(x), Xor(s));
    MixCancels(HashOf(x), Xor(s));
  }

  class HashedSet {
    var elements: set<Str>
    var hash: Hash

    /** Both words are the XOR over the elements, so they do not depend on how the set came about. */
    ghost predicate Valid()
      reads this
    {
      hash == Xor(elements)
    }

    constructor (iterable: seq<Str>)
      ensures Valid() && elements == set s | s in iterable
    {
      hide HashOf;
      elements := set s | s in iterable;
      hash := NO_HASH;
      new;
      var rest := elements;
      assert elements - rest == {};
      while rest != {}
        invariant rest <= elements && elements == set s | s in iterable
        invariant hash == Xor(elements - rest)
        decreases |rest|
      {
        var str :| str in rest;
        var h := Djb2Dual(str);
        XorToggle(elements - rest, str);
        assert elements - (rest - {str}) == elements - rest + {str};
        hash := Mix(hash, h);
        rest := rest - {str};
      }
      assert elements - rest == elements;
    }

    method Add(str: Str)
      requires Valid()
      modifies this
      ensures Valid() && elements == old(elements) + {str}
    {
      if str !in elements {
        var h := Djb2Dual(str);
        XorToggle(elements, str);
        hash := Mix(hash, h);
      } else {
        assert elements + {str} == elements;
      }
      elements := elements + {str};
    }

    method Delete(str: Str) returns (deleted: bool)
      requires Valid()
      modifies this
      ensures Valid() && elements == old(elements) - {str} && deleted == (str in old(elements))
    {
      hide HashOf;
      deleted := str in elements;
      if str in elements {
        var h := Djb2Dual(str);
        XorToggle(elements - {str}, str);
        assert elements - {str} + {str} == elements;
        hash := Mix(hash, h);
      } else {
        assert elements - {str} == elements;
      }
      elements := elements - {str};
    }

    method Clear()
      modifies this
      ensures Valid() && elements == {}
    {
      elements, hash := {}, NO_HASH;
    }

    predicate HasSameHash(other: HashedSet)
      reads this, other
    {
      hash.high == other.hash.high && hash.low == other.hash.low
    }

    predicate FastEquals(other: HashedSet)
      reads this, other
    {
      |elements| == |other.elements| && HasSameHash(other)
    }
  }

  /** Equal sets always compare equal. */
  lemma EqualSetsAreFastEqual(a: HashedSet, b: HashedSet)
    requires a.Valid() && b.Valid() && a.elements == b.elements
    ensures a.FastEquals(b)
  {
  }

  // ---- For which sets the comparison holds ----

  lemma {:induction false} XorUnion(a: set<Str>, b: set<Str>)
    requires a !! b
    ensures Xor(a + b) == Mix(Xor(a), Xor(b))
    decreases |b|
  {
    hide HashOf, Mix;
    if b == {} {
      assert a + b == a;
      MixNothing(Xor(a));
    } else {
      var x :| x in b;
      XorUnion(a, b - {x});
      XorTake(a + b, x);
      XorTake(b, x);
      assert a + b - {x} == a + (b - {x});
      MixSwap(HashOf(x), Xor(a), Xor(b - {x}));
    }
  }

  /** What two sets have in common does not matter: only what each has alone. */
  lemma XorExact(a: set<Str>, b: set<Str>)
    ensures Xor(a) == Xor(b) <==> Xor(a - b) == Xor(b - a)
  {
    XorUnion(a - b, a * b);
    XorUnion(b - a, a * b);
    assert (a - b) + (a * b) == a && (b - a) + (a * b) == b;
    MixSame(Xor(a - b), Xor(b - a), Xor(a * b));
  }

  /** fastEquals holds iff the sizes agree and so do the XORs over what each set has alone. */
  lemma FastEqualsExact(a: HashedSet, b: HashedSet)
    requires a.Valid() && b.Valid()
    ensures a.FastEquals(b) <==> |a.elements| == |b.elements| && Xor(a.elements - b.elements) == Xor(b.elements - a.elements)
  {
    hide HashOf, Mix;
    XorExact(a.elements, b.elements);
  }

  /** Sets that differ by one exchanged string: fastEquals misses it iff the two hashes agree. */
  lemma ExchangeExact(a: HashedSet, b: HashedSet, common: set<Str>, x: Str, y: Str)
    requires a.Valid() && b.Valid()
    requires a.elements == common + {x} && b.elements == common + {y} && x !in common && y !in common
    ensures a.FastEquals(b) <==> HashOf(x) == HashOf(y)
  {
    hide HashOf, Mix;
    XorToggle(common, x);
    XorToggle(common, y);
    MixCommutes(Xor(common), HashOf(x));
    MixCommutes(Xor(common), HashOf(y));
    MixSame(HashOf(x), HashOf(y), Xor(common));
  }

  // ---- Two sets that differ and compare equal ----

  /** Two strings of three code units; (x - 33)(x - 65) has the coefficients 1, -98 and 2145. */
  const ONE: Str := [1, 98, 0]
  const OTHER: Str := [2, 0, 2145]

  lemma Three(a: CodeUnit, b: CodeUnit, c: CodeUnit)
    ensures High([a, b, c]) == HighRound(HighRound(HighRound(5381, a), b), c)
    ensures Low([a, b, c]) == LowRound(LowRound(LowRound(5387, a), b), c)
  {
    hide HighRound, LowRound;
    var s0: Str, s1: Str, s2: Str, s3: Str := [], [a], [a, b], [a, b, c];
    assert s3[..2] == s2 && s2[..1] == s1 && s1[..0] == s0;
    assert High(s1) == HighRound(5381, a) && Low(s1) == LowRound(5387, a);
    assert High(s2) == HighRound(High(s1), b) && Low(s2) == LowRound(Low(s1), b);
  }

  lemma SameHigh()
    ensures High(ONE) == High(OTHER)
  {
    hide High, Low;
    Three(1, 98, 0);
    Three(2, 0, 2145);
    assert HighRound(5381, 1) == 177574 && HighRound(177574, 98) == 5860040 && HighRound(5860040, 0) == 193381320;
    assert HighRound(5381, 2) == 177575 && HighRound(177575, 0) == 5859975 && HighRound(5859975, 2145) == 193381320;
  }

  lemma SameLow()
    ensures Low(ONE) == Low(OTHER)
  {
    hide High, Low;
    Three(1, 98, 0);
    Three(2, 0, 2145);
    assert LowRound(5387, 1) == 350192 && LowRound(350192, 98) == 22766106 && LowRound(22766106, 0) == 1479796890;
    assert LowRound(5387, 2) == 350229 && LowRound(350229, 0) == 22764885 && LowRound(22764885, 2145) == 1479796890;
  }

  /** Different strings that agree in both words. */
  lemma Collision()
    ensures ONE != OTHER && HashOf(ONE) == HashOf(OTHER)
  {
    hide High, Low;
    SameHigh();
    SameLow();
    assert ONE[0] != OTHER[0];
  }

  /** Two sets of the same size that differ and still compare equal. */
  lemma FastEqualIsNotEqual(a: HashedSet, b: HashedSet)
    requires a.Valid() && b.Valid() && a.elements == {ONE} && b.elements == {OTHER}
    ensures a.elements != b.elements && a.FastEquals(b)
  {
    hide HashOf, Mix;
    Collision();
    assert ONE in a.elements && ONE !in b.elements;
    ExchangeExact(a, b, {}, ONE, OTHER);
  }
}
