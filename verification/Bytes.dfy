/**
 Byte strings, and the few facts about joining pieces of a stream that the rest of the project needs.
 */
module Bytes {

  type Byte = x: int | 0 <= x < 256
  type Bytes = seq<Byte>

  function Zeros(n: nat): (r: Bytes)
    ensures |r| == n
  {
    seq(n, _ => 0)
  }

  function Min(a: int, b: int): int {
    if a <= b then a else b
  }

  /** Two bytes, big endian. */
  function Word(high: int, low: int): int {
    high * 256 + low
  }

  /** `high | low`, where the eight low bits of `high` are clear. */
  function Or(high: int, low: Byte): int
    requires high % 256 == 0
  {
    high + low
  }

  /** The byte stream that a list of pieces stands for. */
  function Join(pieces: seq<Bytes>): Bytes {
    if pieces == [] then [] else pieces[0] + Join(pieces[1..])
  }

  lemma {:induction false} JoinAppend(a: seq<Bytes>, b: seq<Bytes>)
    ensures Join(a + b) == Join(a) + Join(b)
  {
    if a == [] {
      assert a + b == b;
    } else {
      assert (a + b)[1..] == a[1..] + b;
      JoinAppend(a[1..], b);
    }
  }

  lemma JoinOne(x: Bytes)
    ensures Join([x]) == x
  {
    assert Join([x]) == x + Join([x][1..]);
  }

  lemma JoinSnoc(a: seq<Bytes>, x: Bytes)
    ensures Join(a + [x]) == Join(a) + x
  {
    JoinAppend(a, [x]);
    JoinOne(x);
  }

  lemma JoinTake(a: seq<Bytes>, i: nat)
    requires i < |a|
    ensures Join(a[..i + 1]) == Join(a[..i]) + a[i]
  {
    assert a[..i + 1] == a[..i] + [a[i]];
    JoinSnoc(a[..i], a[i]);
  }

  lemma Reassociate(a: Bytes, b: Bytes, c: Bytes)
    ensures a + (b + c) == (a + b) + c
  {
  }

  lemma Unit(a: Bytes)
    ensures a + [] == a && [] + a == a
  {
  }

  /** A prefix of `a + b + c` that reaches past `a`. */
  lemma PrefixPast(a: Bytes, b: Bytes, c: Bytes, k: nat)
    requires |a| <= k <= |a| + |b| + |c|
    ensures (a + b + c)[..k] == a + (b + c)[..k - |a|]
  {
  }

  /** The part of `a + b + c` between two positions past `a`. */
  lemma SlicePast(a: Bytes, b: Bytes, c: Bytes, j: nat, k: nat)
    requires |a| <= j <= k <= |a| + |b| + |c|
    ensures (b + c)[..k - |a|] == (b + c)[..j - |a|] + (a + b + c)[j..k]
  {
  }

  /** Does `pattern` occur in `data` at position `at`? */
  predicate OccursAt(data: Bytes, pattern: Bytes, at: int) {
    0 <= at <= |data| - |pattern| && data[at..at + |pattern|] == pattern
  }

  /** bytes.Contains */
  predicate Contains(data: Bytes, pattern: Bytes) {
    exists at | 0 <= at <= |data| :: OccursAt(data, pattern, at)
  }

  function LastIndexTo(data: Bytes, pattern: Bytes, high: nat): (r: int)
    requires forall at :: high < at ==> !OccursAt(data, pattern, at)
    ensures -1 <= r <= |data| - |pattern| || r == -1
    ensures r >= 0 ==> OccursAt(data, pattern, r)
    ensures forall at :: r < at ==> !OccursAt(data, pattern, at)
  {
    if OccursAt(data, pattern, high) then high
    else if high == 0 then -1
    else LastIndexTo(data, pattern, high - 1)
  }

  /** bytes.LastIndex: the greatest position of `pattern`, or -1. */
  function LastIndex(data: Bytes, pattern: Bytes): (r: int)
    ensures -1 <= r <= |data| - |pattern| || r == -1
    ensures r >= 0 ==> OccursAt(data, pattern, r)
    ensures forall at :: r < at ==> !OccursAt(data, pattern, at)
  {
    LastIndexTo(data, pattern, |data|)
  }
}
