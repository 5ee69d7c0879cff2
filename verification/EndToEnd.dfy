/**
 One direction of a Vision connection from end to end: any run of a writer, any well-cut reads of what
 it sent, and the bytes that come out.
 */
module EndToEnd {
  import opened Bytes
  import opened Frames
  import FrameParser
  import S = FramedStream
  import R = Reading
  import W = Writing

  /** What a writer has put on the framed connection, as a stream. */
  function Stream(uuid: Bytes, w: W.Writer): S.Stream {
    S.Stream(uuid, w.frames, w.tail)
  }

  /** It is a framed stream, and the framed connection has carried exactly its bytes. */
  lemma StreamOf(uuid: Bytes, w: W.Writer)
    requires |uuid| == UUID_LENGTH && W.Inv(w)
    ensures Stream(uuid, w).Valid()
    ensures w.frames != [] ==> Stream(uuid, w).Wire() == W.OuterWire(uuid, w)
  {
  }

  lemma {:induction false} ReadAllAppend(uuid: Bytes, r: R.Reader, a: seq<R.Call>, b: seq<R.Call>, leftover: Bytes)
    requires FrameParser.Valid(r.parser)
    ensures var (q, out) := R.ReadAll(uuid, r, a, leftover);
            var (z, rest) := R.ReadAll(uuid, q, b, leftover);
            R.ReadAll(uuid, r, a + b, leftover) == (z, out + rest)
    decreases |a|
  {
    if a == [] {
      assert a + b == b;
      Unit(R.ReadAll(uuid, r, b, leftover).1);
    } else {
      assert (a + b)[1..] == a[1..] + b;
      var (q, out) := R.Read(uuid, r, a[0], leftover);
      ReadAllAppend(uuid, q, a[1..], b, leftover);
      var (y, mid) := R.ReadAll(uuid, q, a[1..], leftover);
      Reassociate(out, mid, R.ReadAll(uuid, y, b, leftover).1);
    }
  }

  /** After the switch every read is handed on as it is. */
  lemma {:induction false} RawReads(uuid: Bytes, r: R.Reader, calls: seq<R.Call>, leftover: Bytes)
    requires FrameParser.Valid(r.parser) && r.direct
    ensures R.ReadAll(uuid, r, calls, leftover) == (r, R.Received(calls))
    decreases |calls|
  {
    if calls != [] {
      RawReads(uuid, r, calls[1..], leftover);
    }
  }

  /** At the end of the framed connection: all contents and raw bytes, and Direct iff the writer moves on. */
  lemma AtEnd(uuid: Bytes, w: W.Writer)
    requires |uuid| == UUID_LENGTH && W.Inv(w) && w.frames != []
    ensures var s := Stream(uuid, w);
            && s.Valid() && s.Payload(|s.Wire()|) == Contents(w.frames) + w.tail
            && R.DirectDone(s, |s.Wire()|) == (w.direct || w.onRaw)
  {
    CarriedAll(w.frames, w.tail);
  }

  /** Reads before the end have handed on a part of what the whole stream carries. */
  lemma PayloadPrefix(s: S.Stream, n: nat)
    requires s.Valid() && n <= |s.Wire()| && s.frames != []
    ensures s.Payload(n) <= s.Payload(|s.Wire()|)
  {
    if n >= UUID_LENGTH {
      CarriedGrows(s.frames, s.tail, n - UUID_LENGTH, |s.Wire()| - UUID_LENGTH);
    }
  }

  /**
   The reads of one direction: `framed` from the framed connection until Direct, then `rawInput` and `raw`
   from the raw connection.
   */
  datatype Reads = Reads(framed: seq<R.Call>, rawInput: Bytes, raw: seq<R.Call>) {
    function Out(uuid: Bytes): Bytes {
      R.ReadAll(uuid, R.NEW_READER, framed + raw, rawInput).1
    }

    function RawBytes(): Bytes {
      rawInput + R.Received(raw)
    }

    /** The reads may be made, and take what the writer sent, in order, from where it was sent. */
    predicate From(uuid: Bytes, w: W.Writer)
      requires Stream(uuid, w).Valid()
    {
      var s := Stream(uuid, w);
      && R.ReadsFrom(s, 0, framed)
      && R.CallsRight(s, 0, framed, rawInput)
      && (if R.DirectDone(s, |R.Received(framed)|) then RawBytes() <= w.raw else raw == [])
    }

    /** Nothing that was sent is still to be read. */
    predicate Everything(uuid: Bytes, w: W.Writer)
      requires W.Inv(w)
    {
      R.Received(framed) == W.OuterWire(uuid, w) && (w.raw != [] ==> RawBytes() == w.raw)
    }
  }

  lemma ReadsSoFar(uuid: Bytes, w: W.Writer, rd: Reads)
    requires |uuid| == UUID_LENGTH && W.Inv(w) && w.frames != []
    requires Stream(uuid, w).Valid() && rd.From(uuid, w)
    ensures var s := Stream(uuid, w);
            var n := |R.Received(rd.framed)|;
            && n <= |s.Wire()|
            && rd.Out(uuid) == s.Payload(n) + if R.DirectDone(s, n) then rd.RawBytes() else []
  {
    var s := Stream(uuid, w);
    var n := |R.Received(rd.framed)|;
    R.ReadingPayload(s, R.NEW_READER, 0, rd.framed, rd.rawInput);
    ReadAllAppend(uuid, R.NEW_READER, rd.framed, rd.raw, rd.rawInput);
    var (q, out) := R.ReadAll(uuid, R.NEW_READER, rd.framed, rd.rawInput);
    Unit(out);
    if R.DirectDone(s, n) {
      RawReads(uuid, q, rd.raw, rd.rawInput);
      Reassociate(s.Payload(n), rd.rawInput, R.Received(rd.raw));
    }
  }

  lemma Deliver(uuid: Bytes, w: W.Writer, rd: Reads)
    requires |uuid| == UUID_LENGTH && W.Inv(w) && w.frames != []
    requires Stream(uuid, w).Valid() && rd.From(uuid, w)
    ensures rd.Out(uuid) <= W.Sent(w)
    ensures rd.Everything(uuid, w) ==> rd.Out(uuid) == W.Sent(w)
  {
    var s := Stream(uuid, w);
    var n := |R.Received(rd.framed)|;
    ReadsSoFar(uuid, w, rd);
    StreamOf(uuid, w);
    AtEnd(uuid, w);
    PayloadPrefix(s, n);
    if R.DirectDone(s, n) {
      S.CarriedAtEnd(s, n);
      S.CarriedAtEnd(s, |s.Wire()|);
      assert s.Payload(n) == s.Payload(|s.Wire()|);
    } else {
      Unit(s.Payload(n));
    }
    if rd.Everything(uuid, w) {
      Unit(W.Sent(w));
      Unit(Contents(w.frames) + w.tail);
    }
  }

  /**
   Whatever a writer is given, by any calls and with any state of the filter at each of them: any reads
   that may be made hand on a prefix of it, and all of it once everything has been read.
   */
  lemma Delivery(uuid: Bytes, copyEnabled: bool, calls: seq<W.Call>, rd: Reads)
    requires |uuid| == UUID_LENGTH && forall c | c in calls :: W.IsCall(c, copyEnabled)
    requires var w := W.WriteAll(W.NEW_WRITER, copyEnabled, calls);
             W.Inv(w) && Stream(uuid, w).Valid() && rd.From(uuid, w) && w.frames != []
    ensures rd.Out(uuid) <= W.Given(calls)
    ensures rd.Everything(uuid, W.WriteAll(W.NEW_WRITER, copyEnabled, calls)) ==> rd.Out(uuid) == W.Given(calls)
  {
    var w := W.WriteAll(W.NEW_WRITER, copyEnabled, calls);
    W.WriterRun(W.NEW_WRITER, copyEnabled, calls);
    Unit(W.Given(calls));
    assert W.Sent(w) == W.Given(calls);
    Deliver(uuid, w, rd);
  }

  /** Before the first frame nothing has been given that could be read. */
  lemma NothingYet(copyEnabled: bool, calls: seq<W.Call>)
    requires forall c | c in calls :: W.IsCall(c, copyEnabled)
    requires W.WriteAll(W.NEW_WRITER, copyEnabled, calls).frames == []
    ensures W.Given(calls) == []
  {
    W.WriterRun(W.NEW_WRITER, copyEnabled, calls);
    Unit(W.Given(calls));
  }
}
