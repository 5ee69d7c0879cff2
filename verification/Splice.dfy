/**
 The copy loop of CopyRawConnIfExist: bytes are copied through the program until both ends of the
 connection allow splicing, and the kernel copies the rest.
 */
module Splice {
  import opened Bytes
  import opened Connections

  datatype ReadError = Eof | Failed
  datatype Result = Nil | Error | ReadV

  /** One read from the raw connection; an error may come together with data. */
  datatype Chunk = More(data: Bytes) | Last(data: Bytes, error: ReadError)

  /** Everything that can be read before the first error. */
  function Stream(chunks: seq<Chunk>): Bytes {
    if chunks == [] then []
    else if chunks[0].Last? then chunks[0].data
    else chunks[0].data + Stream(chunks[1..])
  }

  /** How reading ends; a connection that has nothing more to say ends with EOF. */
  function Ending(chunks: seq<Chunk>): ReadError {
    if chunks == [] then Eof else if chunks[0].Last? then chunks[0].error else Ending(chunks[1..])
  }

  class Counter {
    var total: int

    constructor ()
      ensures total == 0
    {
      total := 0;
    }

    method Add(n: int)
      modifies this
      ensures total == old(total) + n
    {
      total := total + n;
    }
  }

  class RawConn {
    var chunks: seq<Chunk>

    constructor (chunks: seq<Chunk>)
      ensures this.chunks == chunks
    {
      this.chunks := chunks;
    }

    method Read() returns (c: Chunk)
      modifies this
      ensures c == if old(chunks) == [] then Last([], Eof) else old(chunks)[0]
      ensures chunks == if old(chunks) == [] then [] else old(chunks)[1..]
    {
      if chunks == [] {
        return Last([], Eof);
      }
      c := chunks[0];
      chunks := chunks[1..];
    }
  }

  /** Reading one chunk off the stream. */
  lemma StreamStep(chunks: seq<Chunk>, c: Chunk, done: Bytes)
    requires c == if chunks == [] then Last([], Eof) else chunks[0]
    ensures done + c.data <= done + Stream(chunks)
    ensures c.Last? ==> done + Stream(chunks) == done + c.data && Ending(chunks) == c.error
    ensures c.More? ==> chunks != [] && done + Stream(chunks) == (done + c.data) + Stream(chunks[1..]) && Ending(chunks) == Ending(chunks[1..])
  {
    if c.More? {
      Reassociate(done, c.data, Stream(chunks[1..]));
    }
  }

  /** TCPConn.ReadFrom: copies until EOF or an error; EOF itself is not reported. */
  method ReadFrom(tc: Sink, conn: RawConn) returns (w: nat, ok: bool)
    modifies tc`sent, conn
    ensures ok <==> Ending(old(conn.chunks)) == Eof && (tc.broken ==> Stream(old(conn.chunks)) == [])
    ensures old(tc.sent) <= tc.sent <= old(tc.sent) + Stream(old(conn.chunks))
    ensures w == |tc.sent| - |old(tc.sent)|
    ensures ok ==> tc.sent == old(tc.sent) + Stream(old(conn.chunks)) && Ending(old(conn.chunks)) == Eof
  {
    ghost var before, all, end := tc.sent, Stream(conn.chunks), Ending(conn.chunks);
    ghost var done: Bytes := [];
    Unit(before);
    Unit(all);
    w, ok := 0, true;
    while true
      invariant tc.sent == before + done && w == |done|
      invariant all == done + Stream(conn.chunks) && end == Ending(conn.chunks)
      invariant tc.broken ==> done == []
      decreases |conn.chunks|
    {
      ghost var rest := conn.chunks;
      var c := conn.Read();
      StreamStep(rest, c, done);
      Unit(done);
      Unit(tc.sent);
      if c.data != [] {
        var n := |tc.sent|;
        ok := tc.Write(c.data);
        w := w + (|tc.sent| - n);
        Reassociate(before, done, c.data);
        if !ok {
          return;
        }
      }
      done := done + c.data;
      if c.Last? {
        return w, c.error == Eof;
      }
    }
  }

  // ---- Splicing ----

  /** Every end of the connection allows splicing. */
  predicate AllReady(inbound: Session, outbounds: seq<Session>)
    reads inbound, outbounds
  {
    inbound.canSpliceCopy == 1 && forall i | 0 <= i < |outbounds| :: outbounds[i].canSpliceCopy == 1
  }

  /** What the rest of the program may do meanwhile: move any CanSpliceCopy from 2 to 1. */
  method Meanwhile(inbound: Session, outbounds: seq<Session>)
    modifies inbound, outbounds
    ensures inbound.canSpliceCopy == old(inbound.canSpliceCopy) || (old(inbound.canSpliceCopy) == 2 && inbound.canSpliceCopy == 1)
    ensures forall i | 0 <= i < |outbounds| ::
      outbounds[i].canSpliceCopy == old(outbounds[i].canSpliceCopy)
      || (old(outbounds[i].canSpliceCopy) == 2 && outbounds[i].canSpliceCopy == 1)
    ensures old(AllReady(inbound, outbounds)) ==> AllReady(inbound, outbounds)
  {
    inbound.MayAllow();
    for i := 0 to |outbounds|
      invariant inbound.MovedFrom(old(inbound.canSpliceCopy))
      invariant forall j | 0 <= j < |outbounds| :: outbounds[j].MovedFrom(old(outbounds[j].canSpliceCopy))
    {
      outbounds[i].MayAllow();
    }
  }

  /** Are inbound and all outbounds at 1? */
  method SpliceNow(inbound: Session, outbounds: seq<Session>) returns (splice: bool)
    ensures splice == AllReady(inbound, outbounds)
  {
    splice := inbound.canSpliceCopy == 1;
    for i := 0 to |outbounds|
      invariant splice == (inbound.canSpliceCopy == 1 && forall j | 0 <= j < i :: outbounds[j].canSpliceCopy == 1)
    {
      if outbounds[i].canSpliceCopy != 1 {
        splice := false;
      }
    }
  }

  function Total(c: Counter?): int
    reads c
  {
    if c == null then 0 else c.total
  }

  method Count(c: Counter?, n: int)
    modifies c
    ensures c != null ==> c.total == old(c.total) + n
  {
    if c != null {
      c.Add(n);
    }
  }

  /** The writer of the link; a SizeStatWriter counts what passes through it. */
  class LinkWriter {
    const sink: Sink
    const counter: Counter?

    constructor (sink: Sink, counter: Counter?)
      ensures this.sink == sink && this.counter == counter
    {
      this.sink, this.counter := sink, counter;
    }

    method Write(data: Bytes) returns (ok: bool)
      modifies sink`sent, counter
      ensures ok == !sink.broken
      ensures old(sink.sent) <= sink.sent <= old(sink.sent) + data
      ensures ok ==> sink.sent == old(sink.sent) + data
      ensures counter != null ==> counter.total == old(counter.total) + |data|
    {
      Count(counter, |data|);
      ok := sink.Write(data);
    }
  }

  /** No two of the counters are the same one. */
  predicate Apart(a: Counter?, b: Counter?, c: Counter?) {
    (a != null ==> a != b && a != c) && (b != null ==> b != c)
  }

  /** The kernel copies the rest. */
  method SpliceRest(tc: Sink, conn: RawConn, readCounter: Counter?, writeCounter: Counter?, userCounter: Counter?)
    returns (result: Result, ghost spliced: Bytes)
    requires Apart(readCounter, writeCounter, userCounter)
    modifies tc`sent, conn, readCounter, writeCounter, userCounter
    ensures result == Nil <==> Ending(old(conn.chunks)) == Eof && (tc.broken ==> Stream(old(conn.chunks)) == [])
    ensures result != ReadV && tc.sent == old(tc.sent) + spliced && spliced <= Stream(old(conn.chunks))
    ensures result == Nil ==> spliced == Stream(old(conn.chunks)) && Ending(old(conn.chunks)) == Eof
    ensures readCounter != null ==> readCounter.total == old(readCounter.total) + |spliced|
    ensures writeCounter != null ==> writeCounter.total == old(writeCounter.total) + |spliced|
    ensures userCounter != null ==> userCounter.total == old(userCounter.total) + |spliced|
  {
    ghost var t0 := tc.sent;
    var w, ok := ReadFrom(tc, conn);
    spliced := tc.sent[|t0|..];
    Count(readCounter, w);
    Count(writeCounter, w);
    Count(userCounter, w);
    result := if ok then Nil else Error;
  }

  /** What one read can have done to the chunks that were still to come. */
  predicate OneCopied(before: seq<Chunk>, after: seq<Chunk>, broken: bool, more: Bytes, done: bool, result: Result) {
    var c := if before == [] then Last([], Eof) else before[0];
    && result != ReadV && more <= c.data
    && (!done ==> c.More? && more == c.data && after == before[1..])
    && (done <==> c.Last? || (broken && c.data != []))
    && (done ==> (result == Nil <==> c.Last? && c.error == Eof && (broken ==> c.data == [])))
    && (done && result == Nil ==> more == c.data)
  }

  /** One read, passed on to the writer. */
  method CopyOne(conn: RawConn, writer: LinkWriter, readCounter: Counter?) returns (done: bool, result: Result, ghost more: Bytes)
    requires readCounter != null ==> readCounter != writer.counter
    modifies conn, writer.sink`sent, writer.counter, readCounter
    ensures writer.sink.sent == old(writer.sink.sent) + more
    ensures OneCopied(old(conn.chunks), conn.chunks, writer.sink.broken, more, done, result)
    ensures readCounter != null && (!done || result == Nil) ==> readCounter.total == old(readCounter.total) + |more|
    ensures writer.counter != null && (!done || result == Nil) ==> writer.counter.total == old(writer.counter.total) + |more|
  {
    ghost var w0 := writer.sink.sent;
    var c := conn.Read();
    more := [];
    Unit(w0);
    if c.data != [] {
      Count(readCounter, |c.data|);
      var ok := writer.Write(c.data);
      more := writer.sink.sent[|w0|..];
      if !ok {
        return true, Error, more;
      }
    }
    return c.Last?, if c.Last? && c.error == Eof then Nil else Error, more;
  }

  lemma CopyStep(before: seq<Chunk>, broken: bool, copied: Bytes, more: Bytes, after: seq<Chunk>, done: bool, result: Result)
    requires OneCopied(before, after, broken, more, done, result) && (broken ==> copied == [])
    ensures copied + more <= copied + Stream(before)
    ensures !done ==>
      && before != [] && after == before[1..] && (broken ==> copied + more == [])
      && copied + Stream(before) == (copied + more) + Stream(after) && Ending(before) == Ending(after)
    ensures done && result == Nil ==> copied + more == copied + Stream(before)
    ensures done ==> (result == Nil <==> Ending(before) == Eof && (broken ==> copied + Stream(before) == []))
  {
    StreamStep(before, if before == [] then Last([], Eof) else before[0], copied);
    StreamStep(before, if before == [] then Last([], Eof) else before[0], []);
  }

  /**
   The loop: splice at the first turn that finds both ends ready, otherwise copy one read. The result is
   nil iff the connection ends by EOF and nothing was to be written over a broken connection.
   */
  method CopyLoop(tc: Sink, conn: RawConn, writer: LinkWriter, inbound: Session, outbounds: seq<Session>,
                  readCounter: Counter?, writeCounter: Counter?)
    returns (result: Result, ghost copied: Bytes, ghost spliced: Bytes, ghost splice: bool, ghost left: Bytes, ghost ready: seq<bool>)
    requires tc != writer.sink && Apart(readCounter, writeCounter, writer.counter)
    modifies tc`sent, conn, writer.sink`sent, writer.counter, inbound, outbounds, readCounter, writeCounter
    ensures result != ReadV
    ensures result == Nil <==>
      && Ending(old(conn.chunks)) == Eof
      && (writer.sink.broken ==> left == Stream(old(conn.chunks))) && (tc.broken ==> left == [])
    ensures if splice then copied + left == Stream(old(conn.chunks)) && spliced <= left else left == []
    ensures splice <==> AllReady(inbound, outbounds)
    ensures ready != [] && ready[|ready| - 1] == splice && forall i | 0 <= i < |ready| - 1 :: !ready[i]
    ensures old(AllReady(inbound, outbounds)) ==> splice && copied == []
    ensures writer.sink.sent == old(writer.sink.sent) + copied && tc.sent == old(tc.sent) + spliced
    ensures spliced != [] ==> splice
    ensures copied + spliced <= Stream(old(conn.chunks))
    ensures result == Nil ==> copied + spliced == Stream(old(conn.chunks)) && Ending(old(conn.chunks)) == Eof
    ensures result == Nil && readCounter != null ==> readCounter.total == old(readCounter.total) + |Stream(old(conn.chunks))|
    ensures result == Nil && writer.counter != null ==>
      writer.counter.total == old(writer.counter.total) + |Stream(old(conn.chunks))|
    ensures result == Nil && writeCounter != null ==> writeCounter.total == old(writeCounter.total) + |spliced|
  {
    hide Stream, Ending, AllReady, OneCopied;
    ghost var w0, t0, all := writer.sink.sent, tc.sent, Stream(conn.chunks);
    ghost var r0, u0 := Total(readCounter), Total(writer.counter);
    copied, spliced, splice, left, ready := [], [], false, [], [];
    Unit(w0);
    Unit(t0);
    Unit(all);
    result := Nil;
    var done := false;
    while !done
      invariant writer.sink.sent == w0 + copied && tc.sent == t0 && spliced == [] && !splice
      invariant left == [] && (forall i | 0 <= i < |ready| :: !ready[i]) && (done ==> ready != [])
      invariant !done ==> all == copied + Stream(conn.chunks) && Ending(conn.chunks) == Ending(old(conn.chunks))
      invariant !done && writer.sink.broken ==> copied == []
      invariant ready == [] ==> copied == [] && old(AllReady(inbound, outbounds)) == AllReady(inbound, outbounds)
      invariant ready != [] ==> !AllReady(inbound, outbounds) && !old(AllReady(inbound, outbounds))
      invariant done ==> result != ReadV && copied <= all
      invariant done && result == Nil ==> copied == all
      invariant done ==> (result == Nil <==> Ending(old(conn.chunks)) == Eof && (writer.sink.broken ==> all == []))
      invariant readCounter != null && (!done || result == Nil) ==> readCounter.total == r0 + |copied|
      invariant writer.counter != null && (!done || result == Nil) ==> writer.counter.total == u0 + |copied|
      invariant writeCounter != null ==> writeCounter.total == old(writeCounter.total)
      decreases !done, |conn.chunks|
    {
      Meanwhile(inbound, outbounds);
      var now := SpliceNow(inbound, outbounds);
      ready := ready + [now];
      if now {
        splice, left := true, Stream(conn.chunks);
        result, spliced := SpliceRest(tc, conn, readCounter, writeCounter, writer.counter);
        return;
      }
      ghost var rest, more := conn.chunks, copied;
      done, result, more := CopyOne(conn, writer, readCounter);
      Reassociate(w0, copied, more);
      CopyStep(rest, writer.sink.broken, copied, more, conn.chunks, done, result);
      copied := copied + more;
    }
    Unit(copied);
  }

  /**
   Copies from `conn` to `writer`, and once both ends are ready from `conn` to `tc` directly. `splice`
   says whether that happened, `left` what was left to copy then, and `ready` whether both ends were ready
   at each turn of the loop. The counters may be absent.
   */
  method CopyRawConnIfExist(
    spliceSystem: bool, tc: Sink?, conn: RawConn, writer: LinkWriter, inbound: Session?, outbounds: seq<Session>,
    readCounter: Counter?, writeCounter: Counter?)
    returns (result: Result, ghost copied: Bytes, ghost spliced: Bytes, ghost splice: bool, ghost left: Bytes, ghost ready: seq<bool>)
    requires tc != writer.sink && Apart(readCounter, writeCounter, writer.counter)
    modifies tc, conn, writer.sink`sent, writer.counter, inbound, outbounds, readCounter, writeCounter
    ensures result == ReadV <==>
      !spliceSystem || tc == null || inbound == null || old(inbound.canSpliceCopy) == 3
      || outbounds == [] || exists i | 0 <= i < |outbounds| :: old(outbounds[i].canSpliceCopy) == 3
    ensures tc != null && result != ReadV ==>
      (result == Nil <==>
        && Ending(old(conn.chunks)) == Eof
        && (writer.sink.broken ==> left == Stream(old(conn.chunks))) && (old(tc.broken) ==> left == []))
    ensures if splice then copied + left == Stream(old(conn.chunks)) && spliced <= left else left == []
    ensures inbound != null && result != ReadV ==>
      && (splice <==> inbound.canSpliceCopy == 1 && forall i | 0 <= i < |outbounds| :: outbounds[i].canSpliceCopy == 1)
      && (ready != [] && ready[|ready| - 1] == splice && forall i | 0 <= i < |ready| - 1 :: !ready[i])
      && (old(inbound.canSpliceCopy == 1 && forall i | 0 <= i < |outbounds| :: outbounds[i].canSpliceCopy == 1) ==> splice && copied == [])
    ensures writer.sink.sent == old(writer.sink.sent) + copied
    ensures tc != null ==> tc.sent == old(tc.sent) + spliced
    ensures spliced != [] ==> splice
    ensures copied + spliced <= Stream(old(conn.chunks))
    ensures result == Nil ==> copied + spliced == Stream(old(conn.chunks)) && Ending(old(conn.chunks)) == Eof
    ensures result == Nil && readCounter != null ==> readCounter.total == old(readCounter.total) + |Stream(old(conn.chunks))|
    ensures result == Nil && writer.counter != null ==>
      writer.counter.total == old(writer.counter.total) + |Stream(old(conn.chunks))|
    ensures result == Nil && writeCounter != null ==> writeCounter.total == old(writeCounter.total) + |spliced|
  {
    copied, spliced, splice, left, ready := [], [], false, [], [];
    Unit(writer.sink.sent);
    if tc != null {
      Unit(tc.sent);
    }
    if !spliceSystem || tc == null || inbound == null || inbound.canSpliceCopy == 3 || outbounds == [] {
      return ReadV, [], [], false, [], [];
    }
    for i := 0 to |outbounds|
      invariant forall j | 0 <= j < i :: outbounds[j].canSpliceCopy != 3
    {
      if outbounds[i].canSpliceCopy == 3 {
        return ReadV, [], [], false, [], [];
      }
    }
    result, copied, spliced, splice, left, ready := CopyLoop(tc, conn, writer, inbound, outbounds, readCounter, writeCounter);
  }
}
