/**
 buf.Buffer: bytes `start` to `end` of a byte array. The bytes outside that range are whatever an
 earlier use left there.
 */
module Buffers {
  import opened Bytes
  import F = Filter

  /** buf.Size, the capacity of a pooled buffer. */
  const SIZE := 8192

  class Buffer {
    const v: array<Byte>
    var start: nat
    var end: nat

    ghost predicate Valid()
      reads this
    {
      start <= end <= v.Length
    }

    ghost function Content(): (r: Bytes)
      requires Valid()
      reads this, v
      ensures |r| == end - start
    {
      v[start..end]
    }

    function Len(): (n: nat)
      requires Valid()
      reads this
    {
      end - start
    }

    constructor ()
      ensures Valid() && fresh(v) && v.Length == SIZE
      ensures start == 0 && Content() == []
    {
      v := new Byte[SIZE](_ => 0);
      start, end := 0, 0;
    }

    /** Writes as much as there is room for. */
    method Write(data: Bytes) returns (n: nat)
      requires Valid()
      modifies this`end, v
      ensures Valid() && start == old(start)
      ensures n == Min(|data|, v.Length - old(end)) && end == old(end) + n
      ensures Content() == old(Content()) + data[..n]
    {
      n := Min(|data|, v.Length - end);
      forall i | 0 <= i < n {
        v[end + i] := data[i];
      }
      end := end + n;
      assert v[old(end)..end] == data[..n];
      assert v[start..old(end)] == old(Content());
      assert v[start..end] == v[start..old(end)] + v[old(end)..end];
    }

    /** Lengthens the content by zero bytes. */
    method Extend(n: nat)
      requires Valid() && end + n <= v.Length
      modifies this`end, v
      ensures Valid() && start == old(start)
      ensures Content() == old(Content()) + Zeros(n)
    {
      forall i | 0 <= i < n {
        v[end + i] := 0;
      }
      end := end + n;
      assert v[old(end)..end] == Zeros(n);
      assert v[start..old(end)] == old(Content());
      assert v[start..end] == v[start..old(end)] + v[old(end)..end];
    }

    /** Drops bytes from the front. */
    method Advance(n: nat)
      requires Valid() && n <= Len()
      modifies this`start
      ensures Valid() && Content() == old(Content())[n..]
    {
      start := start + n;
    }

    method ReadByte() returns (b: Byte)
      requires Valid() && Len() > 0
      modifies this`start
      ensures Valid() && b == old(Content())[0] && Content() == old(Content())[1..]
    {
      b := v[start];
      start := start + 1;
    }

    method ReadBytes(n: nat) returns (data: Bytes)
      requires Valid() && n <= Len()
      modifies this`start
      ensures Valid() && data == old(Content())[..n] && Content() == old(Content())[n..]
    {
      data := v[start..start + n];
      start := start + n;
    }

    /** Keeps the first `to` bytes. */
    method Truncate(to: nat)
      requires Valid() && to <= Len()
      modifies this`end
      ensures Valid() && Content() == old(Content())[..to]
    {
      end := start + to;
    }

    // ---- What XtlsFilterTls reads ----

    /** The slice that holds the cipher suite stays within the array; Go stops the program otherwise. */
    ghost predicate SuiteInRange()
      requires Valid()
      reads this, v
    {
      F.ReadsSuite(Content()) ==> start + 46 + v[start + 43] <= v.Length
    }

    /** The two bytes after a session id that would start at 43, even where they lie past the content. */
    ghost function Suite(): int
      requires Valid()
      reads this, v
    {
      if Len() >= 79 && start + 46 + v[start + 43] <= v.Length then
        var at := start + 44 + v[start + 43];
        Word(v[at], v[at + 1])
      else 0
    }

    ghost function Packet(): F.Packet
      requires Valid()
      reads this, v
    {
      F.Packet(Content(), Suite())
    }
  }

  // ---- buf.MultiBuffer ----

  ghost function Objects(mb: seq<Buffer?>): set<object?> {
    set b: Buffer? | b in mb :: b
  }

  ghost function Arrays(mb: seq<Buffer?>): set<object?> {
    set b: Buffer? | b in mb && b != null :: b.v
  }

  ghost predicate AllValid(mb: seq<Buffer?>)
    reads Objects(mb)
  {
    forall b | b in mb && b != null :: b.Valid()
  }

  /** No buffer occurs twice. */
  ghost predicate Separate(mb: seq<Buffer?>) {
    forall i, j | 0 <= i < j < |mb| && mb[i] != null :: mb[i] != mb[j]
  }

  /** The pieces that a multi-buffer holds; nil holds nothing. */
  ghost predicate Holds(mb: seq<Buffer?>, pieces: seq<Bytes>)
    reads Objects(mb), Arrays(mb)
  {
    && |mb| == |pieces|
    && forall i | 0 <= i < |mb| ::
      assert mb[i] in mb;
      if mb[i] == null then pieces[i] == [] else mb[i].Valid() && pieces[i] == mb[i].Content()
  }

  lemma HoldsValid(mb: seq<Buffer?>, pieces: seq<Bytes>)
    requires Holds(mb, pieces)
    ensures AllValid(mb)
  {
    forall b | b in mb && b != null
      ensures b.Valid()
    {
      var i :| 0 <= i < |mb| && mb[i] == b;
    }
  }

  lemma HoldsSnoc(mb: seq<Buffer?>, pieces: seq<Bytes>, b: Buffer)
    requires Holds(mb, pieces) && b.Valid()
    ensures Holds(mb + [b], pieces + [b.Content()])
  {
  }

  lemma HoldsAppend(a: seq<Buffer?>, pa: seq<Bytes>, b: seq<Buffer?>, pb: seq<Bytes>)
    requires Holds(a, pa) && Holds(b, pb)
    ensures Holds(a + b, pa + pb)
  {
  }

  lemma HoldsFrom(a: seq<Buffer?>, pieces: seq<Bytes>, i: nat)
    requires Holds(a, pieces) && i <= |a|
    ensures Holds(a[i..], pieces[i..])
  {
  }

  /** The packets that the filter sees; nil is skipped. */
  ghost function Packets(mb: seq<Buffer?>): seq<F.Packet>
    requires AllValid(mb)
    reads Objects(mb), Arrays(mb)
    decreases |mb|
  {
    if mb == [] then []
    else
      assert mb[0] in mb && forall b | b in mb[1..] :: b in mb;
      (if mb[0] == null then [] else [mb[0].Packet()]) + Packets(mb[1..])
  }

  lemma PacketFits(b: Buffer)
    requires b.Valid()
    ensures F.SuiteFits(b.Packet())
  {
  }

  /** Without nil the filter sees exactly the pieces. */
  lemma {:induction false} PacketsData(mb: seq<Buffer?>, pieces: seq<Bytes>)
    requires null !in mb && AllValid(mb) && Holds(mb, pieces)
    ensures F.Datas(Packets(mb)) == pieces && forall p | p in Packets(mb) :: F.SuiteFits(p)
    decreases |mb|
  {
    if mb != [] {
      assert mb[0] in mb && forall b | b in mb[1..] :: b in mb;
      HoldsFrom(mb, pieces, 1);
      PacketsData(mb[1..], pieces[1..]);
      PacketFits(mb[0]);
      assert Packets(mb) == [mb[0].Packet()] + Packets(mb[1..]);
    }
  }

  twostate lemma {:induction false} SamePackets(mb: seq<Buffer?>)
    requires old(AllValid(mb))
    requires forall b | b in mb && b != null :: unchanged(b) && unchanged(b.v)
    ensures AllValid(mb) && Packets(mb) == old(Packets(mb))
    decreases |mb|
  {
    if mb != [] {
      assert mb[0] in mb && forall b | b in mb[1..] :: b in mb;
      SamePackets(mb[1..]);
    }
  }
}
