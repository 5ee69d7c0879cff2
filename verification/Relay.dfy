/**
 Reading a Vision connection again and again, as the copy loops above a VisionReader do: what comes out of
 the object is what the state machine of Reading says for the buffers that have arrived.
 */
module Relay {
  import opened Bytes
  import opened Connections
  import opened VisionReading
  import E = EndToEnd
  import F = Filter
  import P = FrameParser
  import R = Reading
  import W = Writing

  /** What the `i`-th read of a connection finds; behind its end there is nothing. */
  function Arrived(pending: seq<Arrival>, i: nat): seq<Bytes> {
    if i < |pending| then pending[i].pieces else []
  }

  function Rest(pending: seq<Arrival>, i: nat): seq<Arrival> {
    if i <= |pending| then pending[i..] else []
  }

  lemma RestNext(pending: seq<Arrival>, i: nat)
    ensures (if Rest(pending, i) == [] then [] else Rest(pending, i)[0].pieces) == Arrived(pending, i)
    ensures (if Rest(pending, i) == [] then [] else Rest(pending, i)[1..]) == Rest(pending, i + 1)
    ensures Rest(pending, 0) == pending
  {
  }

  /** The first `framed` calls read the framed connection, arrival by arrival, and the others the raw one. */
  predicate FromArrivals(calls: seq<R.Call>, framed: nat, pending: seq<Arrival>, rawPending: seq<Arrival>) {
    && framed <= |calls|
    && (forall i | 0 <= i < framed :: calls[i].pieces == Arrived(pending, i))
    && (forall i | framed <= i < |calls| :: calls[i].pieces == Arrived(rawPending, i - framed))
  }

  lemma Bounded(calls: seq<R.Call>, framed: nat, pending: seq<Arrival>, rawPending: seq<Arrival>)
    requires FromArrivals(calls, framed, pending, rawPending)
    ensures framed <= |calls|
  {
  }

  lemma FramedNext(calls: seq<R.Call>, c: R.Call, pending: seq<Arrival>, rawPending: seq<Arrival>)
    requires FromArrivals(calls, |calls|, pending, rawPending) && c.pieces == Arrived(pending, |calls|)
    ensures FromArrivals(calls + [c], |calls| + 1, pending, rawPending)
  {
  }

  lemma RawNext(calls: seq<R.Call>, framed: nat, c: R.Call, pending: seq<Arrival>, rawPending: seq<Arrival>)
    requires FromArrivals(calls, framed, pending, rawPending) && c.pieces == Arrived(rawPending, |calls| - framed)
    ensures FromArrivals(calls + [c], framed, pending, rawPending)
  {
  }

  lemma ReadAllNext(uuid: Bytes, r: R.Reader, calls: seq<R.Call>, c: R.Call, leftover: Bytes)
    requires P.Valid(r.parser)
    ensures var (q, out) := R.ReadAll(uuid, r, calls, leftover);
            var (z, more) := R.Read(uuid, q, c, leftover);
            R.ReadAll(uuid, r, calls + [c], leftover) == (z, out + more)
  {
    var (q, out) := R.ReadAll(uuid, r, calls, leftover);
    E.ReadAllAppend(uuid, r, calls, [c], leftover);
    assert [c][1..] == [];
    Unit(R.Read(uuid, q, c, leftover).1);
  }

  /** How far a number of reads has come. */
  ghost predicate Progress(r: VisionReader, r0: R.Reader, calls: seq<R.Call>, framed: nat, out: Bytes, leftover: Bytes,
                           source: Source, pending: seq<Arrival>, rawPending: seq<Arrival>)
    requires P.Valid(r0.parser)
    reads r, r.Link(), r.reader, r.rawConn, r.input, r.rawInput
  {
    && r.Valid() && r.reader.Pooled() && r.rawConn.Pooled()
    && FromArrivals(calls, framed, pending, rawPending)
    && (r.Link().Reader(), out) == R.ReadAll(r.trafficState.userUUID, r0, calls, leftover)
    && (if r.Link().readerDirectCopy then
          r.rawConn.pending == Rest(rawPending, |calls| - framed)
        else
          && framed == |calls| && r.reader == source && r.Leftover() == leftover
          && source.pending == Rest(pending, framed) && r.rawConn.pending == rawPending)
  }

  /** One more read, handed on to a sink. */
  method CopyOnce(r: VisionReader, sink: Sink, ghost r0: R.Reader, ghost calls: seq<R.Call>, ghost framed: nat, ghost out: Bytes,
                  ghost leftover: Bytes, ghost source: Source, ghost pending: seq<Arrival>, ghost rawPending: seq<Arrival>)
    returns (ghost calls': seq<R.Call>, ghost framed': nat, ghost out': Bytes)
    requires P.Valid(r0.parser) && Progress(r, r0, calls, framed, out, leftover, source, pending, rawPending)
    requires F.Inv(r.trafficState.Filter()) && !sink.broken
    modifies r, r.reader, r.input, r.rawInput, r.ob, r.Link(), r.trafficState, sink`sent
    ensures Progress(r, r0, calls', framed', out', leftover, source, pending, rawPending)
    ensures |calls'| == |calls| + 1 && calls <= calls'
    ensures framed' == if old(r.Link().readerDirectCopy) then framed else |calls'|
    ensures F.Inv(r.trafficState.Filter()) && out <= out' && sink.sent == old(sink.sent) + out'[|out|..]
    ensures r.reader == (if r.Link().readerDirectCopy then r.rawConn else old(r.reader))
    ensures !r.Link().readerDirectCopy ==> r.input == old(r.input) && r.rawInput == old(r.rawInput)
    ensures old(r.Link().readerDirectCopy) ==> r.Link().readerDirectCopy
  {
    hide R.Read, R.ReadAll, F.FilterCall, F.Inv, FromArrivals, Rest, Arrived, P.Valid, P.Unpadded;
    ghost var direct := r.Link().readerDirectCopy;
    assert framed <= |calls| by { Bounded(calls, framed, pending, rawPending); }
    RestNext(pending, framed);
    RestNext(rawPending, |calls| - framed);
    R.DirectIgnores(r.trafficState.userUUID, r.Link().Reader(), leftover);
    var mb, err;
    ghost var pieces, call, packets;
    mb, pieces, err, call, packets := r.ReadMultiBuffer();
    ReadAllNext(r.trafficState.userUUID, r0, calls, call, leftover);
    if direct {
      RawNext(calls, framed, call, pending, rawPending);
    } else {
      FramedNext(calls, call, pending, rawPending);
    }
    calls', framed', out' := calls + [call], if direct then framed else framed + 1, out + Join(pieces);
    var _ := sink.WriteMultiBuffer(mb, pieces);
  }

  /** Any number of reads of a new connection, each handed on to a sink that takes everything. */
  method CopyTimes(r: VisionReader, sink: Sink, n: nat) returns (ghost calls: seq<R.Call>, ghost framed: nat)
    requires r.Valid() && r.reader.Pooled() && r.rawConn.Pooled() && F.Inv(r.trafficState.Filter())
    requires !r.Link().readerDirectCopy && !sink.broken
    modifies r, r.reader, r.rawConn, r.input, r.rawInput, r.ob, r.Link(), r.trafficState, sink`sent
    ensures |calls| == n && FromArrivals(calls, framed, old(r.reader.pending), old(r.rawConn.pending))
    ensures var (q, out) := R.ReadAll(r.trafficState.userUUID, old(r.Link().Reader()), calls, old(r.Leftover()));
            r.Link().Reader() == q && sink.sent == old(sink.sent) + out
    ensures framed < n ==> R.ReadAll(r.trafficState.userUUID, old(r.Link().Reader()), calls[..framed], old(r.Leftover())).0.direct
  {
    hide R.ReadAll, F.Inv, P.Valid;
    ghost var r0, leftover, source, out := r.Link().Reader(), r.Leftover(), r.reader, [];
    ghost var pending, rawPending := r.reader.pending, r.rawConn.pending;
    calls, framed := [], 0;
    R.NothingYet(r.trafficState.userUUID, r0, leftover);
    Unit(sink.sent);
    for i := 0 to n
      invariant |calls| == i && Progress(r, r0, calls, framed, out, leftover, source, pending, rawPending)
      invariant F.Inv(r.trafficState.Filter()) && !sink.broken && sink.sent == old(sink.sent) + out
      invariant r.reader == if r.Link().readerDirectCopy then r.rawConn else source
      invariant r.Link().readerDirectCopy || (r.input == old(r.input) && r.rawInput == old(r.rawInput))
      invariant r.Link().readerDirectCopy ==> R.ReadAll(r.trafficState.userUUID, r0, calls[..framed], leftover).0.direct
    {
      ghost var before, direct := out, r.Link().readerDirectCopy;
      ghost var calls0, framed0 := calls, framed;
      calls, framed, out := CopyOnce(r, sink, r0, calls, framed, out, leftover, source, pending, rawPending);
      assert before + out[|before|..] == out;
      Reassociate(old(sink.sent), before, out[|before|..]);
      if direct {
        assert calls[..framed] == calls0[..framed];
      } else {
        assert calls[..framed] == calls;
      }
    }
  }

  /**
   A new reader at one end of a connection and a writer at the other: if the arrivals are what the writer
   sent, and the reads may be made, then the sink gets a prefix of what the writer was given, and all of it
   once everything has been read.
   */
  method CopyDelivers(r: VisionReader, sink: Sink, n: nat, ghost copyEnabled: bool, ghost given: seq<W.Call>) returns (ghost rd: E.Reads)
    requires r.Valid() && r.reader.Pooled() && r.rawConn.Pooled() && F.Inv(r.trafficState.Filter())
    requires r.Link().Reader() == R.NEW_READER && !sink.broken
    requires |r.trafficState.userUUID| == 16 && forall c | c in given :: W.IsCall(c, copyEnabled)
    modifies r, r.reader, r.rawConn, r.input, r.rawInput, r.ob, r.Link(), r.trafficState, sink`sent
    ensures FromArrivals(rd.framed + rd.raw, |rd.framed|, old(r.reader.pending), old(r.rawConn.pending))
    ensures |rd.framed| + |rd.raw| == n && rd.rawInput == old(r.Leftover())
    ensures sink.sent == old(sink.sent) + rd.Out(r.trafficState.userUUID)
    ensures var uuid, w := r.trafficState.userUUID, W.WriteAll(W.NEW_WRITER, copyEnabled, given);
            W.Inv(w) && w.frames != [] && E.Stream(uuid, w).Valid() && rd.From(uuid, w) ==>
              && rd.Out(uuid) <= W.Given(given)
              && (rd.Everything(uuid, w) ==> rd.Out(uuid) == W.Given(given))
  {
    hide R.ReadAll, F.Inv, W.Inv, W.WriteAll, W.IsCall, E.Reads.From, E.Reads.Everything, FromArrivals;
    ghost var leftover := r.Leftover();
    ghost var calls, framed := CopyTimes(r, sink, n);
    assert framed <= |calls| by { Bounded(calls, framed, old(r.reader.pending), old(r.rawConn.pending)); }
    rd := E.Reads(calls[..framed], leftover, calls[framed..]);
    assert calls[..framed] + calls[framed..] == calls;
    ghost var uuid, w := r.trafficState.userUUID, W.WriteAll(W.NEW_WRITER, copyEnabled, given);
    if W.Inv(w) && w.frames != [] && E.Stream(uuid, w).Valid() && rd.From(uuid, w) {
      E.Delivery(uuid, copyEnabled, given, rd);
    }
  }
}
