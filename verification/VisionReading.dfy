/**
 VisionReader: an object that strips the framing from what it reads, and changes its connection's
 TrafficState and its own fields in place, proved against the state machine of Reading.
 */
module VisionReading {
  import opened Bytes
  import opened Buffers
  import opened Connections
  import opened TrafficState
  import F = Filter
  import P = FrameParser
  import R = Reading

  class VisionReader {
    const trafficState: TrafficState
    const isUplink: bool
    const ob: Session?
    const hasInbound: bool  // the context knows an inbound that has a connection
    const rawConn: Source
    var reader: Source
    var input: ByteReader?
    var rawInput: ByteReader?

    constructor (reader: Source, rawConn: Source, trafficState: TrafficState, isUplink: bool,
                 input: ByteReader, rawInput: ByteReader, ob: Session?, hasInbound: bool)
      requires reader != rawConn && input != rawInput
      requires trafficState.ReaderLink(isUplink).Reader() == R.NEW_READER
      ensures Valid() && this.trafficState == trafficState && this.isUplink == isUplink
      ensures this.ob == ob && this.hasInbound == hasInbound
      ensures this.reader == reader && this.rawConn == rawConn && this.input == input && this.rawInput == rawInput
      ensures Link() == if isUplink then trafficState.inbound else trafficState.outbound
    {
      this.reader, this.rawConn, this.trafficState, this.isUplink := reader, rawConn, trafficState, isUplink;
      this.input, this.rawInput, this.ob, this.hasInbound := input, rawInput, ob, hasInbound;
    }

    function Link(): LinkState {
      trafficState.ReaderLink(isUplink)
    }

    ghost predicate Valid()
      reads this, Link()
    {
      && P.Valid(Link().Parser())
      && (reader == rawConn) == Link().readerDirectCopy
      && (!Link().readerDirectCopy ==> input != null && rawInput != null && input != rawInput)
      && (Link().readerDirectCopy ==> input == null && rawInput == null)
    }

    /** What a switch to raw copy would hand on after the frames. */
    ghost function Leftover(): Bytes
      reads this, input, rawInput
    {
      if input == null || rawInput == null then [] else input.data + rawInput.data
    }

    /** The leftovers still lie where they were. */
    ghost predicate Untouched(input0: ByteReader?, rawInput0: ByteReader?, leftover: Bytes)
      reads this, input, rawInput
    {
      input == input0 && rawInput == rawInput0 && Leftover() == leftover
    }

    /** The buffers from `i` on have not been read from. */
    ghost predicate Waiting(mb: seq<Buffer?>, pieces: seq<Bytes>, i: nat)
      reads Objects(mb), Arrays(mb)
    {
      && |mb| == |pieces|
      && forall j | i <= j < |mb| ::
        assert mb[j] in mb;
        mb[j] != null && mb[j].Valid() && mb[j].Content() == pieces[j] && mb[j].start == 0 && mb[j].v.Length == SIZE
    }

    method UnpadNext(b: Buffer, mb2: seq<Buffer?>, ghost out: seq<Bytes>) returns (mb3: seq<Buffer?>, ghost out3: seq<Bytes>)
      requires P.Valid(Link().Parser()) && b.Valid() && b.Len() <= SIZE && b.start == 0 && b.v.Length == SIZE
      requires Pool(mb2) && Holds(mb2, out) && b !in mb2
      modifies b`start, Link()`remainingCommand, Link()`remainingContent, Link()`remainingPadding, Link()`currentCommand
      ensures Pool(mb3) && Holds(mb3, out3)
      ensures forall x | x in mb3 :: x in mb2 || x == b || fresh(x)
      ensures var (q, data) := P.Unpad(trafficState.userUUID, old(Link().Parser()), old(b.Content()));
              Link().Parser() == q && out3 == out + P.NonEmpty(data)
    {
      var nb := XtlsUnpadding(b, trafficState, isUplink);
      if nb.Len() > 0 {
        mb3, out3 := mb2 + [nb], out + [nb.Content()];
      } else {
        mb3, out3 := mb2, out;
        assert out == out + [];
      }
    }

    /** UnpadNext on one of the buffers, while the later ones wait. */
    method UnpadAt(mb: seq<Buffer?>, ghost pieces: seq<Bytes>, i: nat, mb2: seq<Buffer?>, ghost out: seq<Bytes>)
      returns (mb3: seq<Buffer?>, ghost out3: seq<Bytes>)
      requires P.Valid(Link().Parser()) && i < |mb| && Waiting(mb, pieces, i) && Separate(mb)
      requires |pieces[i]| <= SIZE && Pool(mb2) && Holds(mb2, out)
      requires forall j | i <= j < |mb| :: mb[j] !in mb2
      modifies mb[i], Link()`remainingCommand, Link()`remainingContent, Link()`remainingPadding, Link()`currentCommand
      ensures Waiting(mb, pieces, i + 1) && Pool(mb3) && Holds(mb3, out3)
      ensures forall j | i < j < |mb| :: mb[j] !in mb3
      ensures var (q, data) := P.Unpad(trafficState.userUUID, old(Link().Parser()), pieces[i]);
              Link().Parser() == q && out3 == out + P.NonEmpty(data)
    {
      assert mb[i] in mb;
      mb3, out3 := UnpadNext(mb[i], mb2, out);
    }

    /** XtlsUnpadding on every buffer; those that come out empty are dropped. */
    method UnpadBuffers(mb: seq<Buffer?>, ghost pieces: seq<Bytes>) returns (mb2: seq<Buffer?>, ghost out: seq<Bytes>)
      requires P.Valid(Link().Parser()) && Pool(mb) && Holds(mb, pieces) && Separate(mb)
      requires forall i | 0 <= i < |pieces| :: |pieces[i]| <= SIZE
      modifies Objects(mb), Link()`remainingCommand, Link()`remainingContent, Link()`remainingPadding, Link()`currentCommand
      ensures Pool(mb2) && Holds(mb2, out)
      ensures out == P.Unpadded(trafficState.userUUID, old(Link().Parser()), pieces)
      ensures (Link().Parser(), Join(out)) == P.UnpadAll(trafficState.userUUID, old(Link().Parser()), pieces)
    {
      ghost var uuid, p := trafficState.userUUID, Link().Parser();
      ghost var goal, all := P.UnpadAll(uuid, p, pieces).0, P.Unpadded(uuid, p, pieces);
      P.JoinUnpadded(uuid, p, pieces);
      mb2, out := [], [];
      assert pieces[0..] == pieces && [] + all == all;
      for i := 0 to |mb|
        invariant P.Valid(Link().Parser()) && Link().Parser() == p
        invariant Waiting(mb, pieces, i)
        invariant Pool(mb2) && Holds(mb2, out)
        invariant forall j | i <= j < |mb| :: mb[j] !in mb2
        invariant goal == P.UnpadAll(uuid, p, pieces[i..]).0 && all == out + P.Unpadded(uuid, p, pieces[i..])
      {
        ghost var q := P.Unpad(uuid, p, pieces[i]).0;
        P.UnpadAllStep(uuid, p, pieces, i, out);
        assert mb[i] in mb;
        mb2, out := UnpadAt(mb, pieces, i, mb2, out);
        p := q;
      }
      assert out + [] == out;
    }

    /** How the read ends: with more frames to come, or with End, or with Direct. */
    method DecideMode()
      modifies Link()`withinPaddingBuffers, Link()`readerDirectCopy
      ensures Link().Reader() == R.Decide(old(Link().Reader()))
    {
      var link := Link();
      if link.remainingContent > 0 || link.remainingPadding > 0 || link.currentCommand == 0 {
        link.withinPaddingBuffers := true;
      } else if link.currentCommand == 1 {
        link.withinPaddingBuffers := false;
      } else if link.currentCommand == 2 {
        link.withinPaddingBuffers := false;
        link.readerDirectCopy := true;
      }
    }

    /** Appends what `input` and `rawInput` hold. */
    method Drain(mb: seq<Buffer?>, ghost pieces: seq<Bytes>) returns (mb3: seq<Buffer?>, ghost out: seq<Bytes>)
      requires input != null && rawInput != null && input != rawInput && Holds(mb, pieces)
      modifies input, rawInput
      ensures Holds(mb3, out) && Join(out) == Join(pieces) + old(Leftover())
    {
      ghost var left, right := input.data, rawInput.data;
      var a, b;
      ghost var pa, pb;
      a, pa := ReadFrom(input);
      b, pb := ReadFrom(rawInput);
      HoldsAppend(mb, pieces, a, pa);
      HoldsAppend(mb + a, pieces + pa, b, pb);
      JoinAppend(pieces, pa);
      JoinAppend(pieces + pa, pb);
      Reassociate(Join(pieces), left, right);
      mb3, out := mb + a + b, pieces + pa + pb;
    }

    /** Hands on what has been received, releases it, and reads from the raw connection from now on. */
    method Switch(mb: seq<Buffer?>, ghost pieces: seq<Bytes>) returns (mb3: seq<Buffer?>, ghost out: seq<Bytes>)
      requires input != null && rawInput != null && input != rawInput && Holds(mb, pieces)
      modifies this`reader, this`input, this`rawInput, input, rawInput, ob
      ensures input == null && rawInput == null && reader == rawConn
      ensures Holds(mb3, out) && Join(out) == Join(pieces) + old(Leftover())
      ensures ob != null ==>
        ob.canSpliceCopy == if hasInbound && !isUplink && old(ob.canSpliceCopy) == 2 then 1 else old(ob.canSpliceCopy)
    {
      mb3, out := Drain(mb, pieces);
      input, rawInput := null, null;
      if hasInbound {
        if !isUplink && ob != null && ob.canSpliceCopy == 2 {
          ob.canSpliceCopy := 1;
        }
      }
      reader := rawConn;
    }

    /** XtlsFilterTls on pooled buffers, in which every suite is in range. */
    method Sniff(mb: seq<Buffer?>, ghost pieces: seq<Bytes>) returns (ghost packets: seq<F.Packet>)
      requires Pool(mb) && Holds(mb, pieces)
      requires F.Inv(trafficState.Filter()) && trafficState.numberOfPacketToFilter > 0
      modifies trafficState
      ensures trafficState.Filter() == F.Scan(old(trafficState.Filter()), packets) && F.Inv(trafficState.Filter())
      ensures F.Datas(packets) == pieces && forall p | p in packets :: F.SuiteFits(p)
      ensures Holds(mb, pieces)
    {
      HoldsValid(mb, pieces);
      forall b | b in mb
        ensures b != null && b.SuiteInRange()
      {
        var i :| 0 <= i < |mb| && mb[i] == b;
      }
      packets := Packets(mb);
      PacketsData(mb, pieces);
      F.ScanKeepsInv(trafficState.Filter(), packets);
      var _ := XtlsFilterTls(mb, trafficState);
    }

    /** The packets shown to the filter are what came out of the framing, buffer by buffer. */
    ghost predicate Shown(packets: seq<F.Packet>, parser: P.Parser, call: R.Call)
      requires P.Valid(parser)
    {
      call.filtering ==>
        F.Datas(packets) == P.Unpadded(trafficState.userUUID, parser, call.pieces) && forall p | p in packets :: F.SuiteFits(p)
    }

    /** The bytes of one read go through the framing and the filter. */
    method Interpret(mb: seq<Buffer?>, ghost pieces: seq<Bytes>)
      returns (mb2: seq<Buffer?>, ghost out: seq<Bytes>, ghost packets: seq<F.Packet>)
      requires P.Valid(Link().Parser()) && Pool(mb) && Holds(mb, pieces) && Separate(mb)
      requires forall i | 0 <= i < |pieces| :: |pieces[i]| <= SIZE
      requires F.Inv(trafficState.Filter())
      requires Join(pieces) != [] && !Link().readerDirectCopy
      modifies Objects(mb), Link(), trafficState
      ensures P.Valid(Link().Parser())
      ensures Holds(mb2, out)
      ensures var call := R.Call(old(trafficState.numberOfPacketToFilter > 0), pieces);
              && (Link().Reader(), Join(out)) == R.Read(trafficState.userUUID, old(Link().Reader()), call, [])
              && Shown(packets, old(Link().Parser()), call)
      ensures trafficState.Filter() == F.FilterCall(old(trafficState.Filter()), packets) && F.Inv(trafficState.Filter())
    {
      hide P.UnpadAll, P.Unpadded, F.Scan;
      mb2, out := mb, pieces;
      if Link().withinPaddingBuffers || trafficState.numberOfPacketToFilter > 0 {
        mb2, out := UnpadBuffers(mb, pieces);
        DecideMode();
        Unit(Join(out));
      }
      packets := [];
      if trafficState.numberOfPacketToFilter > 0 {
        packets := Sniff(mb2, out);
      }
    }

    method IsEmpty(mb: seq<Buffer?>, ghost pieces: seq<Bytes>) returns (empty: bool)
      requires null !in mb && Holds(mb, pieces)
      ensures empty == (Join(pieces) == [])
    {
      for i := 0 to |mb|
        invariant Join(pieces[..i]) == []
      {
        JoinTake(pieces, i);
        assert mb[i] in mb;
        if mb[i].Len() != 0 {
          JoinAppend(pieces[..i + 1], pieces[i + 1..]);
          assert pieces[..i + 1] + pieces[i + 1..] == pieces;
          return false;
        }
      }
      assert pieces[..|mb|] == pieces;
      return true;
    }

    /** The rest of a read that is not empty and not yet in raw copy. */
    method InterpretAndSwitch(mb: seq<Buffer?>, ghost pieces: seq<Bytes>)
      returns (mb2: seq<Buffer?>, ghost out: seq<Bytes>, ghost packets: seq<F.Packet>)
      requires Valid() && Pool(mb) && Holds(mb, pieces) && Separate(mb)
      requires forall i | 0 <= i < |pieces| :: |pieces[i]| <= SIZE
      requires F.Inv(trafficState.Filter())
      requires Join(pieces) != [] && !Link().readerDirectCopy
      modifies this`reader, this`input, this`rawInput, input, rawInput, ob, Objects(mb), Link(), trafficState
      ensures Valid() && Holds(mb2, out)
      ensures (Link().Reader(), Join(out)) == R.Read(trafficState.userUUID, old(Link().Reader()),
                R.Call(old(trafficState.numberOfPacketToFilter > 0), pieces), old(Leftover()))
      ensures Shown(packets, old(Link().Parser()), R.Call(old(trafficState.numberOfPacketToFilter > 0), pieces))
      ensures trafficState.Filter() == F.FilterCall(old(trafficState.Filter()), packets) && F.Inv(trafficState.Filter())
      ensures reader == (if Link().readerDirectCopy then rawConn else old(reader))
      ensures !Link().readerDirectCopy ==> Untouched(old(input), old(rawInput), old(Leftover()))
      ensures ob != null ==>
        ob.canSpliceCopy == if hasInbound && !isUplink && Link().readerDirectCopy && old(ob.canSpliceCopy) == 2 then 1
                            else old(ob.canSpliceCopy)
    {
      ghost var r, c, left := Link().Reader(), R.Call(trafficState.numberOfPacketToFilter > 0, pieces), Leftover();
      R.ReadLeftover(trafficState.userUUID, r, c, left);
      mb2, out, packets := Interpret(mb, pieces);
      if Link().readerDirectCopy {
        mb2, out := Switch(mb2, out);
      }
    }

    /**
     One read. `pieces` are the buffers handed on; they and the new mode are what the state machine of
     Reading says for the buffers that arrived. The filter has seen what came out of the framing.
     */
    method ReadMultiBuffer() returns (mb: seq<Buffer?>, ghost pieces: seq<Bytes>, err: bool, ghost call: R.Call, ghost packets: seq<F.Packet>)
      requires Valid() && reader.Pooled() && F.Inv(trafficState.Filter())
      modifies this, reader, input, rawInput, ob, Link(), trafficState
      ensures Valid() && Holds(mb, pieces)
      ensures call == R.Call(old(trafficState.numberOfPacketToFilter > 0), old(reader.Next()).pieces) && err == old(reader.Next()).err
      ensures (Link().Reader(), Join(pieces)) == R.Read(trafficState.userUUID, old(Link().Reader()), call, old(Leftover()))
      ensures old(input) != null && old(rawInput) != null ==> old(Leftover()) == old(input.data) + old(rawInput.data)
      ensures F.Inv(trafficState.Filter())
      ensures trafficState.Filter() == if Join(call.pieces) == [] || old(Link().readerDirectCopy) then old(trafficState.Filter())
                                       else F.FilterCall(old(trafficState.Filter()), packets)
      ensures Join(call.pieces) == [] || old(Link().readerDirectCopy) || Shown(packets, old(Link().Parser()), call)
      ensures ob != null ==>
        ob.canSpliceCopy == if hasInbound && !isUplink && Link().readerDirectCopy && !old(Link().readerDirectCopy)
                               && old(ob.canSpliceCopy) == 2 then 1 else old(ob.canSpliceCopy)
      // exactly one arrival has been taken, from the connection that was read
      ensures old(reader).pending == if old(reader.pending) == [] then [] else old(reader.pending)[1..]
      ensures old(reader) != rawConn ==> rawConn.pending == old(rawConn.pending)
      ensures reader == if Link().readerDirectCopy then rawConn else old(reader)
      ensures !Link().readerDirectCopy ==> Untouched(old(input), old(rawInput), old(Leftover()))
    {
      packets := [];
      mb, pieces, err := reader.ReadMultiBuffer();
      call := R.Call(trafficState.numberOfPacketToFilter > 0, pieces);
      var empty := IsEmpty(mb, pieces);
      if empty || Link().readerDirectCopy {
        return;
      }
      mb, pieces, packets := InterpretAndSwitch(mb, pieces);
    }
  }
}
