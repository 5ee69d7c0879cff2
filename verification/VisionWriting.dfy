/**
 VisionWriter: an object that frames what it is given, and changes its connection's TrafficState and
 its own fields in place, proved against the state machine of Writing.
 */
module VisionWriting {
  import opened Bytes
  import opened Buffers
  import opened Frames
  import opened Padding
  import opened TrafficState
  import opened Connections
  import F = Filter
  import W = Writing
  import Records

  ghost function Data(mb: seq<Buffer?>, pieces: seq<Bytes>): W.Data {
    if mb == [null] then W.Nil else W.Pieces(pieces)
  }

  /** How a call ends: with everything sent, with an error of the connection, or with the program stopped. */
  datatype Outcome = Sent | Failed | Stopped

  class VisionWriter {
    const trafficState: TrafficState
    const isUplink: bool
    const inbound: Session?
    const outer: Sink
    const rawConn: Sink
    const testseed: seq<int>
    const copyEnabled: bool
    var writer: Sink
    var writeOnceUserUUID: Bytes
    ghost var frames: seq<Frame>
    ghost var tail: Bytes

    constructor (outer: Sink, rawConn: Sink, trafficState: TrafficState, isUplink: bool, inbound: Session?,
                 testseed: seq<int>, copyEnabled: bool)
      requires outer != rawConn && outer.sent == rawConn.sent == []
      requires |trafficState.userUUID| == UUID_LENGTH
      requires |testseed| >= 4 ==> IsSeed(testseed)
      requires trafficState.WriterLink(isUplink).isPadding && !trafficState.WriterLink(isUplink).writerDirectCopy
      ensures Valid() && State() == W.NEW_WRITER
      ensures this.trafficState == trafficState && this.isUplink == isUplink && this.inbound == inbound
      ensures this.outer == outer && this.rawConn == rawConn && this.copyEnabled == copyEnabled
      ensures Link() == if isUplink then trafficState.outbound else trafficState.inbound
      ensures this.testseed == if |testseed| < 4 then [900, 500, 900, 256] else testseed
    {
      DefaultSeedIsSafe();
      this.outer, this.rawConn, this.trafficState, this.isUplink := outer, rawConn, trafficState, isUplink;
      this.inbound, this.copyEnabled, this.writer := inbound, copyEnabled, outer;
      this.writeOnceUserUUID := trafficState.userUUID;
      this.testseed := if |testseed| < 4 then DEFAULT_SEED else testseed;
      this.frames, this.tail := [], [];
    }

    function Link(): LinkState {
      trafficState.WriterLink(isUplink)
    }

    /** What this writer has decided and sent so far. */
    ghost function State(): W.Writer
      reads this, Link(), rawConn
    {
      W.Writer(Link().isPadding, Link().writerDirectCopy, writer == rawConn, frames, tail, rawConn.sent)
    }

    predicate Wired()
      reads this
    {
      && outer != rawConn && (writer == outer || writer == rawConn)
      && |trafficState.userUUID| == UUID_LENGTH
      && IsSeed(testseed)
    }

    ghost predicate Valid()
      reads this, Link(), rawConn, outer
    {
      && Wired()
      && W.Inv(State())
      && writeOnceUserUUID == (if frames == [] then trafficState.userUUID else [])
      && outer.sent == W.OuterWire(trafficState.userUUID, State())
    }

    function Control(longPadding: bool): W.Control
      reads Link()
    {
      W.Control(Link().isPadding, Link().writerDirectCopy, longPadding)
    }

    /** The frame, the flags and the end of the loop are those of W.Turn. */
    ghost predicate Turned(f: Frame, before: W.Control, piece: Bytes, last: bool, isComplete: bool, long: bool, stop: bool)
      requires IsSeed(testseed)
      reads trafficState, Link()
    {
      var (choice, d, s) := W.Turn(trafficState.Filter(), copyEnabled, isComplete, piece, last, before);
      && f.command == choice.command && W.PaddingDrawn(f.padding, |piece|, choice.longPadding, testseed)
      && d == Control(long) && s == stop
    }

    /** XtlsPadding with this writer's UUID and seed; null: the program has stopped. */
    method Pad(b: Buffer?, ghost content: Bytes, command: Byte, longPadding: bool) returns (nb: Buffer?, ghost f: Frame)
      requires b != null ==> b.Valid() && b.Content() == content
      requires b == null ==> content == []
      requires |content| <= SIZE - OVERHEAD && |writeOnceUserUUID| <= UUID_LENGTH && IsSeed(testseed)
      modifies this`writeOnceUserUUID
      ensures writeOnceUserUUID == []
      ensures nb == null ==> !SafeSeed(testseed)
      ensures nb != null ==>
        && Fits(f) && f.command == command && f.content == content
        && fresh(nb) && fresh(nb.v) && nb.Valid() && nb.Content() == old(writeOnceUserUUID) + Encode(f)
        && W.PaddingDrawn(f.padding, |content|, longPadding, testseed)
    {
      var left;
      ghost var n;
      nb, left, f, n := XtlsPadding(b, command, writeOnceUserUUID, longPadding, testseed);
      writeOnceUserUUID := left;
    }

    /** The command of one frame, and the flags that change with it. */
    method Choose(b: Buffer, ghost piece: Bytes, last: bool, isComplete: bool, longPadding: bool)
      returns (command: Byte, padLong: bool, long: bool, stop: bool)
      requires b.Valid() && b.Content() == piece
      modifies Link()`isPadding, Link()`writerDirectCopy
      ensures (W.Choice(command, padLong), Control(long), stop)
           == W.Turn(trafficState.Filter(), copyEnabled, isComplete, piece, last, old(Control(longPadding)))
    {
      command, padLong, long, stop := CONTINUE, longPadding, longPadding, false;
      assert b.Len() >= 6 ==> piece[..3] == b.v[b.start..b.start + 3];
      if trafficState.isTLS && b.Len() >= 6 && b.v[b.start..b.start + 3] == F.TLS_APPLICATION_DATA_START && isComplete {
        var useDirectCopy := trafficState.enableXtls && copyEnabled;
        var keepVisionPadding := trafficState.enableXtls && !useDirectCopy;
        if useDirectCopy {
          Link().writerDirectCopy := true;
        }
        if last {
          if useDirectCopy {
            command := DIRECT;
          } else if !keepVisionPadding {
            command := END;
          }
        }
        padLong := true;
        if !keepVisionPadding {
          Link().isPadding := false;
          long := false;
        }
      } else if !trafficState.isTLS12orAbove && trafficState.numberOfPacketToFilter <= 1 {
        Link().isPadding := false;
        command := END;
        stop := true;
      } else if last && !Link().isPadding {
        command := END;
        if trafficState.enableXtls && copyEnabled {
          command := DIRECT;
        }
      }
    }

    /** One turn of the loop over the reshaped buffers. */
    method PadTurn(b: Buffer, ghost piece: Bytes, last: bool, isComplete: bool, longPadding: bool)
      returns (nb: Buffer?, long: bool, stop: bool, ghost f: Frame)
      requires b.Valid() && b.Content() == piece && |piece| <= SIZE - OVERHEAD
      requires |writeOnceUserUUID| <= UUID_LENGTH && IsSeed(testseed)
      modifies this`writeOnceUserUUID, Link()`isPadding, Link()`writerDirectCopy
      ensures writeOnceUserUUID == [] && (nb == null ==> !SafeSeed(testseed))
      ensures nb != null ==>
        && Fits(f) && f.content == piece
        && fresh(nb) && fresh(nb.v) && nb.Valid() && nb.Content() == old(writeOnceUserUUID) + Encode(f)
        && Turned(f, old(Control(longPadding)), piece, last, isComplete, long, stop)
    {
      var command, padLong;
      command, padLong, long, stop := Choose(b, piece, last, isComplete, longPadding);
      nb, f := Pad(b, piece, command, padLong);
    }

    ghost function Job(isComplete: bool, shaped: seq<Bytes>): W.Job
      reads this, trafficState
    {
      W.Job(trafficState.Filter(), copyEnabled, isComplete, shaped, testseed, writeOnceUserUUID)
    }

    /** PadTurn on one of the buffers, while the others keep what they hold. */
    method PadNext(mb0: seq<Buffer?>, ghost shaped: seq<Bytes>, done: seq<Buffer?>, ghost wire: seq<Bytes>, i: nat,
                   isComplete: bool, longPadding: bool)
      returns (alive: bool, done': seq<Buffer?>, long: bool, stop: bool, ghost f: Frame, ghost data: Bytes)
      requires null !in mb0 && Holds(mb0, shaped) && Holds(done, wire) && i < |mb0|
      requires |shaped[i]| <= SIZE - OVERHEAD
      requires |writeOnceUserUUID| <= UUID_LENGTH && IsSeed(testseed)
      modifies this`writeOnceUserUUID, Link()`isPadding, Link()`writerDirectCopy
      ensures !alive ==> !SafeSeed(testseed)
      ensures Holds(mb0, shaped) && (alive ==> Holds(done', wire + [data]))
      ensures writeOnceUserUUID == []
      ensures alive ==>
        && Fits(f) && f.content == shaped[i] && data == old(writeOnceUserUUID) + Encode(f)
        && Turned(f, old(Control(longPadding)), shaped[i], i == |mb0| - 1, isComplete, long, stop)
    {
      var nb;
      nb, long, stop, f := PadTurn(mb0[i], shaped[i], i == |mb0| - 1, isComplete, longPadding);
      alive, done', data := nb != null, done, [];
      if nb != null {
        data := nb.Content();
        done' := done + [nb];
        assert Holds(done, wire);
        HoldsSnoc(done, wire, nb);
      }
    }

    /** The loop over the reshaped buffers: each is overwritten by its frame, until the loop breaks. */
    method PadAll(mb0: seq<Buffer?>, ghost shaped: seq<Bytes>, isComplete: bool)
      returns (alive: bool, mb: seq<Buffer?>, ghost wire: seq<Bytes>, ghost cs: seq<W.Choice>, ghost fs: seq<Frame>, longPadding: bool)
      requires null !in mb0 && Holds(mb0, shaped)
      requires forall i | 0 <= i < |shaped| :: |shaped[i]| <= SIZE - OVERHEAD
      requires |writeOnceUserUUID| <= UUID_LENGTH && IsSeed(testseed)
      modifies this`writeOnceUserUUID, Link()`isPadding, Link()`writerDirectCopy
      ensures !alive ==> !SafeSeed(testseed)
      ensures alive ==>
        && (cs, Control(longPadding)) == old(Job(isComplete, shaped).PlanAt(0, Control(trafficState.isTLS)))
        && W.FramesMatch(fs, cs, shaped, testseed)
        && Holds(mb, wire) && Join(wire) == W.FrameBytes(old(writeOnceUserUUID), fs) + Join(shaped[|cs|..])
        && writeOnceUserUUID == if fs == [] then old(writeOnceUserUUID) else []
    {
      alive, longPadding := true, trafficState.isTLS;
      ghost var j, c0 := Job(isComplete, shaped), Control(longPadding);
      ghost var p := W.Progress([], [], [], c0, false);
      W.StartOnPlan(j, c0);
      var done: seq<Buffer?> := [];
      var i := 0;
      var stop := false;
      mb, wire, cs, fs := [], [], [], [];
      while i < |mb0| && !stop
        invariant 0 <= i <= |mb0| && i == |p.fs|
        invariant Holds(mb0, shaped) && Holds(done, p.wire)
        invariant writeOnceUserUUID == if p.fs == [] then j.uuid else []
        invariant W.OnPlan(j, c0, p) && p.c == Control(longPadding) && p.stop == stop
        decreases |mb0| - i
      {
        ghost var frame, data;
        alive, done, longPadding, stop, frame, data := PadNext(mb0, shaped, done, p.wire, i, isComplete, longPadding);
        if !alive {
          return;
        }
        W.StayOnPlan(j, c0, p, frame, data);
        ghost var (choice, d, _) := j.TurnAt(i, p.c);
        p := W.Progress(p.cs + [choice], p.fs + [frame], p.wire + [data], d, stop);
        i := i + 1;
      }
      HoldsFrom(mb0, shaped, i);
      HoldsAppend(done, p.wire, mb0[i..], shaped[i..]);
      W.EndOfPlan(j, c0, p);
      alive, mb, wire, cs, fs := true, done + mb0[i..], p.wire + shaped[i..], p.cs, p.fs;
    }

    /** `call` is this call, and takes the writer from state `w` to state `z`. */
    ghost predicate Planned(w: W.Writer, call: W.Call, data: W.Data, z: W.Writer)
      reads trafficState
    {
      && IsSeed(testseed) && call.filter == trafficState.Filter() && call.data == data && W.IsCall(call, copyEnabled)
      && z == W.Write(w, copyEnabled, call)
    }

    /** Frames have been prepared, and this object's fields are those of `z`. */
    ghost predicate Matches(z: W.Writer)
      reads this, Link()
    {
      && W.Inv(z) && !z.onRaw && z.raw == []
      && Link().isPadding == z.isPadding && Link().writerDirectCopy == z.direct
      && writeOnceUserUUID == if z.frames == [] then trafficState.userUUID else []
    }

    /** The nil buffer becomes an empty frame with long padding. */
    method PadNil() returns (alive: bool, mb: seq<Buffer?>, ghost wire: seq<Bytes>, ghost call: W.Call, ghost z: W.Writer)
      requires Valid() && Link().isPadding && F.Inv(trafficState.Filter())
      modifies this`writeOnceUserUUID
      ensures !alive ==> !SafeSeed(testseed)
      ensures alive ==>
        && Planned(old(State()), call, W.Nil, z) && W.PaddingsDrawn(call, copyEnabled, testseed)
        && Matches(z) && Holds(mb, wire) && W.OuterWire(trafficState.userUUID, z) == old(outer.sent) + Join(wire)
    {
      ghost var w := State();
      var nb;
      ghost var f;
      nb, f := Pad(null, [], CONTINUE, true);
      alive, mb, wire, call, z := nb != null, [], [], W.Call(trafficState.Filter(), W.Nil, [f.padding]), w;
      if nb != null {
        mb, wire := [nb], [nb.Content()];
        z := W.Write(w, copyEnabled, call);
        W.WriteKeeps(w, copyEnabled, call);
        W.NilWire(trafficState.userUUID, w, f);
        JoinOne(nb.Content());
      }
    }

    /** IsCompleteRecord, ReshapeMultiBuffer, and the loop over the pieces. */
    method PadShaped(mb0: seq<Buffer?>, ghost pieces: seq<Bytes>)
      returns (alive: bool, mb: seq<Buffer?>, ghost wire: seq<Bytes>, ghost cs: seq<W.Choice>, ghost fs: seq<Frame>, long: bool)
      requires Holds(mb0, pieces) && Separate(mb0) && null !in mb0
      requires forall i | 0 <= i < |pieces| :: |pieces[i]| <= SIZE
      requires |writeOnceUserUUID| <= UUID_LENGTH && IsSeed(testseed)
      requires Link().isPadding && !Link().writerDirectCopy
      modifies this`writeOnceUserUUID, Link()`isPadding, Link()`writerDirectCopy, Objects(mb0)
      ensures !alive ==> !SafeSeed(testseed)
      ensures alive ==>
        && (cs, Control(long)) == W.Plan(trafficState.Filter(), copyEnabled, Records.WholeRecords(Join(pieces)), Reshape(pieces),
                                         W.Control(true, false, trafficState.isTLS))
        && W.FramesMatch(fs, cs, Reshape(pieces), testseed)
        && Holds(mb, wire) && Join(wire) == W.FrameBytes(old(writeOnceUserUUID), fs) + Join(Reshape(pieces)[|cs|..])
        && writeOnceUserUUID == if fs == [] then old(writeOnceUserUUID) else []
    {
      var complete := Records.IsCompleteRecord(mb0, pieces);
      Records.RecordsExact(Join(pieces));
      ReshapeFits(pieces);
      var shaped := ReshapeMultiBuffer(mb0, pieces);
      alive, mb, wire, cs, fs, long := PadAll(shaped, Reshape(pieces), complete);
      assert Reshape(pieces)[0..] == Reshape(pieces);
    }

    /** Data is reshaped, and its buffers become frames until padding ends. */
    method PadData(mb0: seq<Buffer?>, ghost pieces: seq<Bytes>)
      returns (alive: bool, mb: seq<Buffer?>, ghost wire: seq<Bytes>, ghost call: W.Call, ghost z: W.Writer)
      requires Valid() && Link().isPadding && F.Inv(trafficState.Filter())
      requires Holds(mb0, pieces) && Separate(mb0) && null !in mb0
      requires forall i | 0 <= i < |pieces| :: |pieces[i]| <= SIZE
      modifies this`writeOnceUserUUID, Link()`isPadding, Link()`writerDirectCopy, Objects(mb0)
      ensures !alive ==> !SafeSeed(testseed)
      ensures alive ==>
        && Planned(old(State()), call, W.Pieces(pieces), z) && W.PaddingsDrawn(call, copyEnabled, testseed)
        && Matches(z) && Holds(mb, wire) && W.OuterWire(trafficState.userUUID, z) == old(outer.sent) + Join(wire)
    {
      ghost var w := State();
      ghost var cs, fs;
      var long;
      alive, mb, wire, cs, fs, long := PadShaped(mb0, pieces);
      call, z := W.Call(trafficState.Filter(), W.Pieces(pieces), W.Paddings(fs)), w;
      if alive {
        W.DataWire(trafficState.userUUID, w, copyEnabled, call, cs, fs, testseed);
        z := W.Write(w, copyEnabled, call);
      }
    }

    /** The inbound connection waits for this writer's first raw write. */
    predicate SpliceReady()
      reads Link(), inbound
    {
      inbound != null && Link().writerDirectCopy && !isUplink && inbound.canSpliceCopy == 2
    }

    /** Once Direct has been sent, the next call moves on to the raw connection. */
    method MoveOn() returns (spliceReady: bool)
      requires Valid()
      modifies this`writer, Link()`writerDirectCopy
      ensures Valid() && State() == W.MoveOn(old(State()))
      ensures spliceReady == old(SpliceReady())
      ensures writer == if old(Link().writerDirectCopy) then rawConn else old(writer)
    {
      spliceReady := false;
      if Link().writerDirectCopy {
        if inbound != null {
          spliceReady := !isUplink && inbound.canSpliceCopy == 2;
        }
        writer := rawConn;
        Link().writerDirectCopy := false;
      }
    }

    /** Only `data` is missing on the connection for this writer to be in state `z`. */
    ghost predicate ReadyToSend(z: W.Writer, data: Bytes)
      reads this, Link(), outer, rawConn
    {
      && Wired() && W.Inv(z)
      && Link().isPadding == z.isPadding && Link().writerDirectCopy == z.direct && z.onRaw == (writer == rawConn)
      && writeOnceUserUUID == (if z.frames == [] then trafficState.userUUID else [])
      && W.OuterWire(trafficState.userUUID, z) == outer.sent + (if z.onRaw then [] else data)
      && z.raw == rawConn.sent + (if z.onRaw then data else [])
    }

    lemma Ready(z: W.Writer, data: Bytes)
      requires Wired() && Matches(z) && writer == outer && rawConn.sent == []
      requires W.OuterWire(trafficState.userUUID, z) == outer.sent + data
      ensures ReadyToSend(z, data)
    {
    }

    lemma PayloadOf(mb0: seq<Buffer?>, pieces: seq<Bytes>)
      requires Holds(mb0, pieces)
      ensures W.Payload(Data(mb0, pieces)) == Join(pieces)
    {
      if mb0 == [null] {
        assert pieces == [[]];
        JoinOne([]);
      }
    }

    /** After padding the buffers are sent as they are. */
    lemma PlainCall(mb0: seq<Buffer?>, pieces: seq<Bytes>) returns (call: W.Call, z: W.Writer)
      requires Valid() && !Link().writerDirectCopy && !Link().isPadding && F.Inv(trafficState.Filter())
      requires Holds(mb0, pieces)
      requires forall i | 0 <= i < |pieces| :: |pieces[i]| <= SIZE
      ensures Planned(State(), call, Data(mb0, pieces), z) && ReadyToSend(z, Join(pieces))
    {
      PayloadOf(mb0, pieces);
      call := W.Unpadded(trafficState.Filter(), Data(mb0, pieces), copyEnabled);
      W.PlainWire(trafficState.userUUID, State(), copyEnabled, trafficState.Filter(), Data(mb0, pieces));
      z := W.Write(State(), copyEnabled, call);
    }

    method PadBuffers(mb0: seq<Buffer?>, ghost pieces: seq<Bytes>)
      returns (alive: bool, mb: seq<Buffer?>, ghost wire: seq<Bytes>, ghost call: W.Call, ghost z: W.Writer)
      requires Valid() && Link().isPadding && F.Inv(trafficState.Filter())
      requires Holds(mb0, pieces) && Separate(mb0) && (mb0 == [null] || null !in mb0)
      requires forall i | 0 <= i < |pieces| :: |pieces[i]| <= SIZE
      modifies this`writeOnceUserUUID, Link()`isPadding, Link()`writerDirectCopy, Objects(mb0)
      ensures !alive ==> !SafeSeed(testseed)
      ensures alive ==>
        && Planned(old(State()), call, Data(mb0, pieces), z) && W.PaddingsDrawn(call, copyEnabled, testseed)
        && Holds(mb, wire) && ReadyToSend(z, Join(wire))
    {
      hide W.OuterWire, W.PaddingsDrawn, W.Inv;
      if |mb0| == 1 && mb0[0] == null {
        alive, mb, wire, call, z := PadNil();
      } else {
        alive, mb, wire, call, z := PadData(mb0, pieces);
      }
      if alive {
        Ready(z, Join(wire));
      }
    }

    /** What goes to the connection: frames while padding, the buffers themselves after that. */
    method Prepare(mb0: seq<Buffer?>, ghost pieces: seq<Bytes>)
      returns (alive: bool, mb: seq<Buffer?>, ghost wire: seq<Bytes>, ghost call: W.Call, ghost z: W.Writer)
      requires Valid() && !Link().writerDirectCopy && F.Inv(trafficState.Filter())
      requires Holds(mb0, pieces) && Separate(mb0) && (mb0 == [null] || null !in mb0)
      requires forall i | 0 <= i < |pieces| :: |pieces[i]| <= SIZE
      modifies this`writeOnceUserUUID, Link()`isPadding, Link()`writerDirectCopy, Objects(mb0)
      ensures !alive ==> !SafeSeed(testseed)
      ensures alive ==>
        && Planned(old(State()), call, Data(mb0, pieces), z)
        && (old(Link().isPadding) ==> W.PaddingsDrawn(call, copyEnabled, testseed))
        && Holds(mb, wire) && ReadyToSend(z, Join(wire))
    {
      if Link().isPadding {
        alive, mb, wire, call, z := PadBuffers(mb0, pieces);
      } else {
        alive, mb, wire := true, mb0, pieces;
        call, z := PlainCall(mb0, pieces);
      }
    }

    /** This object is in state `z`, but the connection may have carried only a part of what it was sent. */
    ghost predicate Broken(z: W.Writer)
      reads this, Link(), outer, rawConn
    {
      && W.Inv(z)
      && Link().isPadding == z.isPadding && Link().writerDirectCopy == z.direct && z.onRaw == (writer == rawConn)
      && outer.sent <= W.OuterWire(trafficState.userUUID, z) && rawConn.sent <= z.raw
    }

    /** The end of a call: send, and allow splicing only after that. */
    method Finish(mb: seq<Buffer?>, ghost wire: seq<Bytes>, ghost z: W.Writer, spliceReady: bool) returns (ok: bool)
      requires Holds(mb, wire) && ReadyToSend(z, Join(wire))
      requires spliceReady ==> inbound != null
      modifies this`frames, this`tail, outer`sent, rawConn`sent, inbound
      ensures ok == !writer.broken
      ensures ok ==> Valid() && State() == z
      ensures !ok ==> Broken(z)
      ensures inbound != null ==> inbound.canSpliceCopy == if ok && spliceReady && old(inbound.canSpliceCopy) == 2 then 1 else old(inbound.canSpliceCopy)
    {
      hide W.Inv, Frames.EncodeAll;
      Unit(outer.sent);
      Unit(rawConn.sent);
      ok := writer.WriteMultiBuffer(mb, wire);
      if !ok {
        return;
      }
      frames, tail := z.frames, z.tail;
      Unit(outer.sent);
      Unit(rawConn.sent);
      if spliceReady && inbound.canSpliceCopy == 2 {
        inbound.canSpliceCopy := 1;
      }
    }

    /** The rest of a call, with the writer on the right connection and the filter up to date. */
    method Send(mb0: seq<Buffer?>, ghost pieces: seq<Bytes>, spliceReady: bool) returns (outcome: Outcome, ghost call: W.Call)
      requires Valid() && !Link().writerDirectCopy && F.Inv(trafficState.Filter())
      requires Holds(mb0, pieces) && Separate(mb0) && (mb0 == [null] || null !in mb0)
      requires forall i | 0 <= i < |pieces| :: |pieces[i]| <= SIZE
      requires spliceReady ==> inbound != null
      modifies this, Link(), outer`sent, rawConn`sent, inbound, Objects(mb0)
      ensures outcome == Stopped ==> !SafeSeed(testseed) && outer.sent == old(outer.sent) && rawConn.sent == old(rawConn.sent)
      ensures outcome != Stopped ==> (outcome == Sent <==> !old(writer).broken)
      ensures outcome != Stopped ==>
        && call.filter == trafficState.Filter() && call.data == Data(mb0, pieces) && W.IsCall(call, copyEnabled)
        && (old(Link().isPadding) ==> W.PaddingsDrawn(call, copyEnabled, testseed))
        && (outcome == Sent ==> Valid() && State() == W.Write(old(State()), copyEnabled, call))
        && (outcome == Failed ==> Broken(W.Write(old(State()), copyEnabled, call)))
      ensures inbound != null ==> inbound.canSpliceCopy == if outcome == Sent && spliceReady && old(inbound.canSpliceCopy) == 2 then 1 else old(inbound.canSpliceCopy)
    {
      hide W.OuterWire, W.Inv, W.PaddingsDrawn;
      var alive, mb;
      ghost var wire, z;
      alive, mb, wire, call, z := Prepare(mb0, pieces);
      if !alive {
        return Stopped, call;
      }
      var ok := Finish(mb, wire, z, spliceReady);
      outcome := if ok then Sent else Failed;
    }

    /** XtlsFilterTls, while packets remain to be filtered. */
    method Sniff(mb0: seq<Buffer?>, ghost pieces: seq<Bytes>) returns (alive: bool)
      requires F.Inv(trafficState.Filter()) && Holds(mb0, pieces) && AllValid(mb0)
      modifies trafficState
      ensures !alive ==> exists b | b in mb0 && b != null :: !b.SuiteInRange()
      ensures Holds(mb0, pieces)
      ensures alive ==>
        trafficState.Filter() == F.FilterCall(old(trafficState.Filter()), old(Packets(mb0))) && F.Inv(trafficState.Filter())
    {
      alive := true;
      if trafficState.numberOfPacketToFilter > 0 {
        F.ScanKeepsInv(trafficState.Filter(), Packets(mb0));
        alive := XtlsFilterTls(mb0, trafficState);
      }
    }

    /** The start of a call: move on if Direct has been sent, and show the buffers to the filter. */
    method Begin(mb0: seq<Buffer?>, ghost pieces: seq<Bytes>) returns (alive: bool, spliceReady: bool)
      requires Valid() && F.Inv(trafficState.Filter())
      requires Holds(mb0, pieces) && AllValid(mb0)
      modifies this`writer, Link()`writerDirectCopy, trafficState
      ensures !alive ==> exists b | b in mb0 && b != null :: !b.SuiteInRange()
      ensures spliceReady == old(SpliceReady())
      ensures writer == if old(Link().writerDirectCopy) then rawConn else old(writer)
      ensures alive ==>
        && Valid() && State() == W.MoveOn(old(State())) && !Link().writerDirectCopy && Holds(mb0, pieces)
        && trafficState.Filter() == F.FilterCall(old(trafficState.Filter()), old(Packets(mb0))) && F.Inv(trafficState.Filter())
    {
      spliceReady := MoveOn();
      SamePackets(mb0);
      alive := Sniff(mb0, pieces);
    }

    /**
     Frames the buffers while padding lasts, and sends them. If sending succeeds, everything that this
     writer has sent is what the state machine of Writing says for this call; if it fails, which it does only
     over a broken connection, a part of that. Splicing is allowed by the first raw write, after it. The program stops only over an unsafe seed, or over a cipher suite outside its buffer.
     */
    method WriteMultiBuffer(mb0: seq<Buffer?>, ghost pieces: seq<Bytes>) returns (outcome: Outcome, ghost call: W.Call)
      requires Valid() && F.Inv(trafficState.Filter())
      requires Holds(mb0, pieces) && AllValid(mb0) && Separate(mb0) && (mb0 == [null] || null !in mb0)
      requires forall i | 0 <= i < |pieces| :: |pieces[i]| <= SIZE
      modifies this, trafficState, Link(), outer`sent, rawConn`sent, inbound, Objects(mb0)
      ensures outcome == Stopped ==>
        && (!SafeSeed(testseed) || exists b | b in mb0 && b != null :: old(!b.SuiteInRange()))
        && outer.sent == old(outer.sent) && rawConn.sent == old(rawConn.sent)
      ensures outcome != Stopped ==>
        (outcome == Failed <==> (if old(Link().writerDirectCopy) then rawConn else old(writer)).broken)
      ensures outcome != Stopped ==>
        && trafficState.Filter() == F.FilterCall(old(trafficState.Filter()), old(Packets(mb0))) && F.Inv(trafficState.Filter())
        && call.filter == trafficState.Filter() && call.data == Data(mb0, pieces) && W.IsCall(call, copyEnabled)
        && (old(Link().isPadding) ==> W.PaddingsDrawn(call, copyEnabled, testseed))
        && (outcome == Sent ==> Valid() && State() == W.Write(old(State()), copyEnabled, call))
        && (outcome == Failed ==> Broken(W.Write(old(State()), copyEnabled, call)))
      ensures inbound != null ==>
        inbound.canSpliceCopy == if outcome == Sent && old(Link().writerDirectCopy) && !isUplink && old(inbound.canSpliceCopy) == 2 then 1
                                 else old(inbound.canSpliceCopy)
    {
      hide W.OuterWire, W.MoveOn, Packets, F.FilterCall;
      ghost var w := State();
      var alive, spliceReady := Begin(mb0, pieces);
      if !alive {
        return Stopped, W.Unpadded(trafficState.Filter(), W.Nil, copyEnabled);
      }
      outcome, call := Send(mb0, pieces, spliceReady);
      if outcome != Stopped {
        W.WriteMoved(w, copyEnabled, call);
      }
    }
  }
}
