/**
 The connections below Vision, reduced to the bytes they carry, and the marks that allow splicing.
 */
module Connections {
  import opened Bytes
  import opened Buffers

  /** A connection's bytes, as far as the objects here read or write them. */
  class Sink {
    var sent: Bytes
    var broken: bool

    constructor (broken: bool)
      ensures sent == [] && this.broken == broken
    {
      this.sent, this.broken := [], broken;
    }

    /** Sends everything, or fails over a broken connection after sending some of it. */
    method Write(data: Bytes) returns (ok: bool)
      modifies this`sent
      ensures ok == !broken
      ensures old(sent) <= sent <= old(sent) + data
      ensures ok ==> sent == old(sent) + data
    {
      ok := !broken;
      var n :| 0 <= n <= |data| && (ok ==> n == |data|);
      assert data[..|data|] == data;
      sent := sent + data[..n];
    }

    method WriteMultiBuffer(mb: seq<Buffer?>, ghost pieces: seq<Bytes>) returns (ok: bool)
      requires Holds(mb, pieces)
      modifies this`sent
      ensures ok == !broken
      ensures old(sent) <= sent <= old(sent) + Join(pieces)
      ensures ok ==> sent == old(sent) + Join(pieces)
    {
      var data := [];
      for i := 0 to |mb|
        invariant data == Join(pieces[..i]) && sent == old(sent)
      {
        JoinTake(pieces, i);
        assert data + [] == data;
        if mb[i] != null {
          data := data + mb[i].v[mb[i].start..mb[i].end];
        }
      }
      assert pieces[..|mb|] == pieces;
      ok := Write(data);
    }
  }

  /** session.Inbound and session.Outbound, as far as splicing is concerned. */
  class Session {
    var canSpliceCopy: int

    constructor (n: int)
      ensures canSpliceCopy == n
    {
      canSpliceCopy := n;
    }

    /** Unchanged since it was `n`, or moved on from 2 to 1. */
    predicate MovedFrom(n: int)
      reads this
    {
      canSpliceCopy == n || (n == 2 && canSpliceCopy == 1)
    }

    /** Somebody may allow splicing, or not. */
    method MayAllow()
      modifies this
      ensures MovedFrom(old(canSpliceCopy))
    {
      var now :| now || !now;
      if now && canSpliceCopy == 2 {
        canSpliceCopy := 1;
      }
    }
  }

  /** One result of reading: buffers, and perhaps an error beside them. */
  datatype Arrival = Arrival(pieces: seq<Bytes>, err: bool)

  /** Pooled buffers that have not been read from. */
  ghost predicate Pool(mb: seq<Buffer?>)
    reads Objects(mb)
  {
    forall i | 0 <= i < |mb| :: assert mb[i] in mb; mb[i] != null && mb[i].start == 0 && mb[i].v.Length == SIZE
  }

  method NewBuffer(data: Bytes) returns (b: Buffer)
    requires |data| <= SIZE
    ensures fresh(b) && fresh(b.v) && b.Valid() && b.Content() == data && b.start == 0 && b.v.Length == SIZE
  {
    b := new Buffer();
    var _ := b.Write(data);
    assert [] + data[..|data|] == data;
  }

  /** A connection to read from; `pending` is what is still to arrive. At its end there is only EOF. */
  class Source {
    var pending: seq<Arrival>

    constructor (pending: seq<Arrival>)
      ensures this.pending == pending
    {
      this.pending := pending;
    }

    /** Each buffer that is read fits a pooled buffer. */
    predicate Pooled()
      reads this
    {
      forall i, j | 0 <= i < |pending| && 0 <= j < |pending[i].pieces| :: |pending[i].pieces[j]| <= SIZE
    }

    function Next(): Arrival
      reads this
    {
      if pending == [] then Arrival([], true) else pending[0]
    }

    method ReadMultiBuffer() returns (mb: seq<Buffer?>, ghost pieces: seq<Bytes>, err: bool)
      requires Pooled()
      modifies this
      ensures Pooled() && pending == (if old(pending) == [] then [] else old(pending)[1..])
      ensures pieces == old(Next()).pieces && err == old(Next()).err
      ensures Pool(mb) && Holds(mb, pieces) && Separate(mb)
      ensures forall i | 0 <= i < |mb| :: fresh(mb[i]) && fresh(mb[i].v)
    {
      if pending == [] {
        return [], [], true;
      }
      var a := pending[0];
      pending := pending[1..];
      mb, pieces, err := [], a.pieces, a.err;
      for i := 0 to |a.pieces|
        invariant pending == old(pending)[1..]
        invariant Pool(mb) && Holds(mb, a.pieces[..i]) && Separate(mb)
        invariant forall i | 0 <= i < |mb| :: fresh(mb[i]) && fresh(mb[i].v)
      {
        var b := NewBuffer(a.pieces[i]);
        assert a.pieces[..i + 1] == a.pieces[..i] + [a.pieces[i]];
        mb := mb + [b];
      }
      assert a.pieces[..|a.pieces|] == a.pieces;
    }
  }

  /** bytes.Reader and bytes.Buffer: bytes that have been received and not yet read. */
  class ByteReader {
    var data: Bytes

    constructor (data: Bytes)
      ensures this.data == data
    {
      this.data := data;
    }
  }

  /** buf.ReadFrom: reads everything, a full buffer at a time. */
  method ReadFrom(r: ByteReader) returns (mb: seq<Buffer?>, ghost pieces: seq<Bytes>)
    modifies r
    ensures r.data == [] && Join(pieces) == old(r.data)
    ensures Pool(mb) && Holds(mb, pieces)
    ensures forall i | 0 <= i < |mb| :: fresh(mb[i]) && fresh(mb[i].v)
  {
    mb, pieces := [], [];
    assert [] + r.data == r.data;
    while r.data != []
      invariant Join(pieces) + r.data == old(r.data)
      invariant Pool(mb) && Holds(mb, pieces)
      invariant forall i | 0 <= i < |mb| :: fresh(mb[i]) && fresh(mb[i].v)
      decreases |r.data|
    {
      var n := Min(|r.data|, SIZE);
      var b := NewBuffer(r.data[..n]);
      JoinSnoc(pieces, r.data[..n]);
      Reassociate(Join(pieces), r.data[..n], r.data[n..]);
      assert r.data[..n] + r.data[n..] == r.data;
      mb, pieces := mb + [b], pieces + [r.data[..n]];
      r.data := r.data[n..];
    }
    Unit(Join(pieces));
  }
}
