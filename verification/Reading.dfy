/**
 The reading half of Vision as a state machine: XtlsUnpadding, then the choice of mode, then the
 switch to raw copy; and exactly which read boundaries it gets right.
 */
module Reading {
  import opened Bytes
  import opened Frames
  import opened FrameParser
  import opened FramedStream

  /** The reader link state of one direction. */
  datatype Reader = Reader(parser: Parser, within: bool, direct: bool)

  const NEW_READER := Reader(FRESH, true, false)

  /** One read from the connection below, and whether packets were still being filtered then. */
  datatype Call = Call(filtering: bool, pieces: seq<Bytes>)

  /** How a read ends: carry on with frames, plain copy after End, raw copy after Direct. */
  function Decide(r: Reader): Reader {
    if r.parser.contentLeft > 0 || r.parser.paddingLeft > 0 || r.parser.command == 0 then r.(within := true)
    else if r.parser.command == 1 then r.(within := false)
    else if r.parser.command == 2 then r.(within := false, direct := true)
    else r
  }

  /** One ReadMultiBuffer: the new state, and what is handed on. `leftover` is `input` then `rawInput`. */
  function Read(uuid: Bytes, r: Reader, c: Call, leftover: Bytes): (result: (Reader, Bytes))
    requires FrameParser.Valid(r.parser)
    ensures FrameParser.Valid(result.0.parser)
  {
    var data := Join(c.pieces);
    if data == [] then (r, [])
    else if r.direct then (r, data)
    else if r.within || c.filtering then
      var (p, out) := UnpadAll(uuid, r.parser, c.pieces);
      var q := Decide(r.(parser := p));
      (q, if q.direct then out + leftover else out)
    else (r, data)
  }

  /** The leftovers are handed on behind everything else, by the read that switches. */
  lemma ReadLeftover(uuid: Bytes, r: Reader, c: Call, leftover: Bytes)
    requires FrameParser.Valid(r.parser)
    ensures var (q, out) := Read(uuid, r, c, []);
            Read(uuid, r, c, leftover) == (q, if q.direct && !r.direct then out + leftover else out)
  {
    if Join(c.pieces) != [] && !r.direct && (r.within || c.filtering) {
      Unit(UnpadAll(uuid, r.parser, c.pieces).1);
    }
  }

  /**
   A frame with a command above 2 changes no mode: its content and everything behind it are handed on, and
   the parser waits for a UUID again.
   */
  lemma UnknownCommand(uuid: Bytes, r: Reader, f: Frame, more: Bytes, filtering: bool, leftover: Bytes)
    requires AtHeader(r.parser) && Fits(f) && f.command > 2 && !r.direct && (r.within || filtering)
    ensures Read(uuid, r, Call(filtering, [Encode(f) + more]), leftover)
         == (Reader(Parser(-1, -1, -1, f.command), r.within, false), f.content + more)
  {
    var data := Encode(f) + more;
    var q := Parser(-1, -1, -1, f.command);
    JoinOne(data);
    RunPast(r.parser, f, more);
    assert Unpad(uuid, r.parser, data) == (q, f.content + more);
    var one: seq<Bytes> := [data];
    assert one[1..] == [];
    Unit(f.content + more);
    assert UnpadAll(uuid, r.parser, one) == (q, f.content + more);
  }

  /** Once in raw copy nothing is drained any more. */
  lemma DirectIgnores(uuid: Bytes, r: Reader, leftover: Bytes)
    requires FrameParser.Valid(r.parser)
    ensures r.direct ==> forall c, other :: Read(uuid, r, c, leftover) == Read(uuid, r, c, other)
    ensures forall c, other :: Read(uuid, r, c, leftover).0 == Read(uuid, r, c, other).0 && (r.direct ==> Read(uuid, r, c, leftover).0.direct)
  {
  }

  function ReadAll(uuid: Bytes, r: Reader, calls: seq<Call>, leftover: Bytes): (result: (Reader, Bytes))
    requires FrameParser.Valid(r.parser)
    ensures FrameParser.Valid(result.0.parser)
    decreases |calls|
  {
    if calls == [] then (r, [])
    else
      var (q, out) := Read(uuid, r, calls[0], leftover);
      var (z, rest) := ReadAll(uuid, q, calls[1..], leftover);
      (z, out + rest)
  }

  lemma NothingYet(uuid: Bytes, r: Reader, leftover: Bytes)
    requires FrameParser.Valid(r.parser)
    ensures ReadAll(uuid, r, [], leftover) == (r, [])
  {
  }

  function Received(calls: seq<Call>): Bytes {
    if calls == [] then [] else Join(calls[0].pieces) + Received(calls[1..])
  }

  /** How often the switch to raw copy, which drains `input` and `rawInput`, is carried out. */
  function Switches(uuid: Bytes, r: Reader, calls: seq<Call>): nat
    requires FrameParser.Valid(r.parser)
    decreases |calls|
  {
    if calls == [] then 0
    else
      var q := Read(uuid, r, calls[0], []).0;
      (if q.direct && !r.direct then 1 else 0) + Switches(uuid, q, calls[1..])
  }

  /** Whatever arrives, cut however, the leftovers are drained at most once. */
  lemma {:induction false} SwitchesOnce(uuid: Bytes, r: Reader, calls: seq<Call>)
    requires FrameParser.Valid(r.parser)
    ensures Switches(uuid, r, calls) <= if r.direct then 0 else 1
    ensures r.direct ==> ReadAll(uuid, r, calls, []).1 == Received(calls) && ReadAll(uuid, r, calls, []).0 == r
    decreases |calls|
  {
    if calls != [] {
      SwitchesOnce(uuid, Read(uuid, r, calls[0], []).0, calls[1..]);
    }
  }

  // ---- Which read boundaries the choice of mode gets right ----

  /** The stream ends in Direct, and the first `k` bytes include that frame. */
  predicate DirectDone(s: Stream, k: nat)
    requires s.Valid()
  {
    s.Finished(k) && s.frames[|s.frames| - 1].command == DIRECT
  }

  /** The reader is in the mode that the first `k` bytes call for. */
  predicate InMode(s: Stream, r: Reader, k: nat)
    requires s.Valid() && k <= |s.Wire()|
  {
    && s.Sync(r.parser, k)
    && r.within == !s.Finished(k)
    && r.direct == DirectDone(s, k)
  }

  /**
   Position `k` lies inside the header of an End or Direct frame, behind its command byte, and the
   length bytes before it are all zero.
   */
  predicate HeaderCut(fs: seq<Frame>, k: nat)
    requires Grammar(fs)
    decreases |fs|
  {
    fs != [] &&
    if k < |Encode(fs[0])| then
      && fs[0].command != CONTINUE
      && 1 <= k < HEADER_LENGTH
      && (forall i | 1 <= i < k :: Header(fs[0])[i] == 0)
    else HeaderCut(fs[1..], k - |Encode(fs[0])|)
  }

  /** The test at the end of a read mistakes a frame for finished exactly at a header cut. */
  predicate LooksFinished(p: Parser) {
    p.contentLeft <= 0 && p.paddingLeft <= 0 && p.command != 0
  }

  lemma LooksFinishedInHeader(p: Parser, f: Frame, k: nat)
    requires AtHeader(p) && Fits(f) && k < |Encode(f)|
    ensures LooksFinished(InFrame(p, f, k)) <==>
            f.command != CONTINUE && 1 <= k < HEADER_LENGTH && (forall i | 1 <= i < k :: Header(f)[i] == 0)
  {
    var h := Header(f);
    assert h[1] == |f.content| / 256 && h[2] == |f.content| % 256 && h[3] == |f.padding| / 256;
    if k == 1 {
    } else if k == 2 {
    } else if k == 3 {
    } else if k == 4 {
    }
  }

  lemma {:induction false} LooksFinishedAt(p: Parser, fs: seq<Frame>, k: nat)
    requires Grammar(fs) && AtHeader(p)
    requires k <= |EncodeAll(fs)| || Terminated(fs)
    ensures var q := StateAt(p, fs, k);
            LooksFinished(q) <==> HeaderCut(fs, k) || (Terminated(fs) && k >= |EncodeAll(fs)|)
    ensures HeaderCut(fs, k) ==> k < |EncodeAll(fs)| && Terminated(fs)
    ensures HeaderCut(fs, k) ==> StateAt(p, fs, k).command == fs[|fs| - 1].command
    decreases |fs|
  {
    if fs == [] {
    } else if k >= |Encode(fs[0])| {
      if fs[1..] == [] {
        assert EncodeAll(fs[1..]) == [];
        assert !HeaderCut(fs[1..], k - |Encode(fs[0])|);
      } else {
        assert fs[0].command == CONTINUE;
        assert fs[1..][|fs| - 2] == fs[|fs| - 1];
        LooksFinishedAt(Leaves(CONTINUE), fs[1..], k - |Encode(fs[0])|);
      }
    } else {
      assert fs[0].command != CONTINUE ==> |fs| == 1;
      LooksFinishedInHeader(p, fs[0], k);
    }
  }

  /** Position `k` of the stream is a header cut. */
  predicate Cut(s: Stream, k: nat)
    requires s.Valid()
  {
    k >= UUID_LENGTH && HeaderCut(s.frames, k - UUID_LENGTH)
  }

  predicate EndsWith(s: Stream, command: Byte) {
    s.frames != [] && s.frames[|s.frames| - 1].command == command
  }

  /** The mode that reading up to `k` leads to; at a header cut it is the one for a finished stream. */
  predicate ModeAt(s: Stream, r: Reader, k: nat)
    requires s.Valid() && k <= |s.Wire()|
  {
    && s.Sync(r.parser, k)
    && r.within == !(s.Finished(k) || Cut(s, k))
    && r.direct == ((s.Finished(k) || Cut(s, k)) && EndsWith(s, DIRECT))
  }

  lemma WireLength(s: Stream)
    requires s.Valid()
    ensures |s.Wire()| == UUID_LENGTH + |EncodeAll(s.frames)| + |s.tail|
  {
  }

  /** The byte after a header cut carries nothing. */
  lemma {:induction false} HeaderByteCarriesNothing(fs: seq<Frame>, tail: Bytes, k: nat)
    requires Grammar(fs) && HeaderCut(fs, k)
    ensures k < |EncodeAll(fs)|
    ensures Carried(fs, tail, k) == Carried(fs, tail, k + 1)
    decreases |fs|
  {
    if k >= |Encode(fs[0])| {
      HeaderByteCarriesNothing(fs[1..], tail, k - |Encode(fs[0])|);
    } else {
      assert |fs| == 1;
      assert EncodeAll(fs) == Encode(fs[0]) + EncodeAll(fs[1..]) && EncodeAll(fs[1..]) == [];
      assert k + 1 == |Encode(fs[0])| ==> Carried(fs[1..], tail, 0) == [] && fs[0].content == [];
    }
  }

  lemma PayloadBehindCut(s: Stream, k: nat, n: nat)
    requires s.Valid() && k < n <= |s.Wire()| && Cut(s, k)
    ensures |s.Payload(n)| < |s.Payload(k)| + n - k
  {
    HeaderByteCarriesNothing(s.frames, s.tail, k - UUID_LENGTH);
    CarriedGrows(s.frames, s.tail, k + 1 - UUID_LENGTH, n - UUID_LENGTH);
  }

  /** A header cut belongs to a terminator that has not been read yet. */
  lemma CutIsEarly(s: Stream, k: nat)
    requires s.Valid() && Cut(s, k)
    ensures k < |s.Wire()| && !s.Finished(k) && Terminated(s.frames)
  {
    HeaderByteCarriesNothing(s.frames, s.tail, k - UUID_LENGTH);
    LooksFinishedAt(START, s.frames, k - UUID_LENGTH);
    WireLength(s);
  }

  /** With the parser in step, the choice of mode goes wrong exactly at a header cut. */
  lemma DecideAt(s: Stream, r: Reader, n: nat)
    requires s.Valid() && FrameParser.Valid(r.parser) && UUID_LENGTH <= n <= |s.Wire()|
    requires r.parser == StateAt(START, s.frames, n - UUID_LENGTH) && !r.direct
    ensures ModeAt(s, Decide(r), n)
    ensures InMode(s, Decide(r), n) <==> !Cut(s, n)
  {
    WireLength(s);
    LooksFinishedAt(START, s.frames, n - UUID_LENGTH);
    InitialAt(START, s.frames, n - UUID_LENGTH);
  }

  // ---- The mode ----

  /** The reader stays in the right mode: what a caller can ask of a read at position `k` before making it. */
  predicate CallOk(s: Stream, k: nat, c: Call)
    requires s.Valid()
  {
    Join(c.pieces) != [] && !DirectDone(s, k) ==>
      && (!s.Finished(k) || c.filtering ==> AllOk(s, k, c.pieces))
      && !Cut(s, k + |Join(c.pieces)|)
  }

  /** The read leaves the reader in the right mode, and no buffer within it hands on anything wrong. */
  predicate Follows(s: Stream, r: Reader, k: nat, c: Call)
    requires s.Valid() && FrameParser.Valid(r.parser) && k + |Join(c.pieces)| <= |s.Wire()|
  {
    && (Join(c.pieces) != [] && (r.within || c.filtering) ==> InStep(s, r.parser, k, c.pieces))
    && InMode(s, Read(s.uuid, r, c, []).0, k + |Join(c.pieces)|)
  }

  /** A read that is interpreted, from a parser in step. */
  lemma Interpreted(s: Stream, r: Reader, k: nat, c: Call)
    requires s.Valid() && FrameParser.Valid(r.parser) && Cuts(s, k, c.pieces) && s.Sync(r.parser, k)
    requires !r.direct && (r.within || c.filtering) && Join(c.pieces) != [] && AllOk(s, k, c.pieces)
    ensures var n, q := k + |Join(c.pieces)|, Read(s.uuid, r, c, []).0;
            && ModeAt(s, q, n) && (InMode(s, q, n) <==> !Cut(s, n))
            && s.Payload(k) + UnpadAll(s.uuid, r.parser, c.pieces).1 == s.Payload(n)
  {
    UnpadAllPayload(s, r.parser, k, c.pieces);
    DecideAt(s, r.(parser := UnpadAll(s.uuid, r.parser, c.pieces).0), k + |Join(c.pieces)|);
  }

  /** Behind the terminator bytes are payload as they are. */
  lemma PlainPiece(s: Stream, p: Parser, k: nat, data: Bytes)
    requires s.Valid() && FrameParser.Valid(p) && k + |data| <= |s.Wire()| && s.Sync(p, k) && s.Finished(k)
    requires data == s.Wire()[k..k + |data|]
    ensures s.Sync(p, k + |data|) && s.Payload(k) + data == s.Payload(k + |data|)
    ensures !Cut(s, k + |data|)
  {
    InitialAt(START, s.frames, k - UUID_LENGTH);
    LaterPiece(s, p, k, data);
    if Cut(s, k + |data|) {
      CutIsEarly(s, k + |data|);
    }
  }

  /** One read from the framed stream leaves the reader in the right mode iff it is well cut. */
  lemma ReadExact(s: Stream, r: Reader, k: nat, c: Call)
    requires s.Valid() && FrameParser.Valid(r.parser)
    requires Cuts(s, k, c.pieces) && InMode(s, r, k) && !r.direct
    ensures Follows(s, r, k, c) <==> CallOk(s, k, c)
  {
    hide Stream.Payload, Carried, HeaderCut, AllOk;
    if Join(c.pieces) != [] {
      if r.within || c.filtering {
        UnpaddingExact(s, r.parser, k, c.pieces);
        if AllOk(s, k, c.pieces) {
          Interpreted(s, r, k, c);
        }
      } else {
        PlainPiece(s, r.parser, k, Join(c.pieces));
      }
    }
  }

  predicate CallsOk(s: Stream, k: nat, calls: seq<Call>)
    requires s.Valid()
    decreases |calls|
  {
    calls != [] ==> CallOk(s, k, calls[0]) && CallsOk(s, k + |Join(calls[0].pieces)|, calls[1..])
  }

  /** The calls read consecutive bytes of the wire, and stop once Direct has been read. */
  predicate ReadsFrom(s: Stream, k: nat, calls: seq<Call>)
    requires s.Valid()
    decreases |calls|
  {
    calls != [] ==>
      && !DirectDone(s, k)
      && Cuts(s, k, calls[0].pieces)
      && ReadsFrom(s, k + |Join(calls[0].pieces)|, calls[1..])
  }

  predicate FollowsAll(s: Stream, r: Reader, k: nat, calls: seq<Call>)
    requires s.Valid() && FrameParser.Valid(r.parser) && ReadsFrom(s, k, calls)
    decreases |calls|
  {
    calls != [] ==>
      && Follows(s, r, k, calls[0])
      && FollowsAll(s, Read(s.uuid, r, calls[0], []).0, k + |Join(calls[0].pieces)|, calls[1..])
  }

  /** The reader is in the right mode after every read iff every read is well cut. */
  lemma {:induction false} ReadingExact(s: Stream, r: Reader, k: nat, calls: seq<Call>)
    requires s.Valid() && FrameParser.Valid(r.parser)
    requires ReadsFrom(s, k, calls) && k <= |s.Wire()| && InMode(s, r, k)
    ensures FollowsAll(s, r, k, calls) <==> CallsOk(s, k, calls)
    decreases |calls|
  {
    if calls != [] {
      ReadExact(s, r, k, calls[0]);
      if CallOk(s, k, calls[0]) {
        ReadingExact(s, Read(s.uuid, r, calls[0], []).0, k + |Join(calls[0].pieces)|, calls[1..]);
      }
    }
  }

  // ---- The bytes that are handed on ----

  /** The buffers are handed on as they are, and that is what the wire carries. */
  predicate Passed(s: Stream, k: nat, pieces: seq<Bytes>)
    requires s.Valid() && k + |Join(pieces)| <= |s.Wire()|
    decreases |pieces|
  {
    pieces != [] ==> s.Payload(k) + pieces[0] == s.Payload(k + |pieces[0]|) && Passed(s, k + |pieces[0]|, pieces[1..])
  }

  /**
   After every buffer of the read what has been handed on is what the wire has carried; behind Direct the
   leftovers follow, and nowhere else.
   */
  predicate Right(s: Stream, r: Reader, k: nat, c: Call, leftover: Bytes)
    requires s.Valid() && FrameParser.Valid(r.parser) && k + |Join(c.pieces)| <= |s.Wire()|
  {
    var n := k + |Join(c.pieces)|;
    Join(c.pieces) != [] ==>
      && (if !r.direct && (r.within || c.filtering) then InStep(s, r.parser, k, c.pieces) else Passed(s, k, c.pieces))
      && s.Payload(k) + Read(s.uuid, r, c, leftover).1 == s.Payload(n) + if DirectDone(s, n) then leftover else []
  }

  /**
   What a caller can ask of a read at position `k` before making it. A header cut is no harm by itself:
   behind one in an End frame the next read must be filtered, and behind one in a Direct frame, which must
   find no leftovers, nothing more may be read.
   */
  predicate CallRight(s: Stream, k: nat, c: Call, leftover: Bytes)
    requires s.Valid()
  {
    var n := k + |Join(c.pieces)|;
    Join(c.pieces) != [] ==>
      && (Cut(s, k) ==> EndsWith(s, END) && c.filtering)
      && (!s.Finished(k) || c.filtering ==> AllOk(s, k, c.pieces))
      && (Cut(s, n) && EndsWith(s, DIRECT) ==> leftover == [])
  }

  lemma {:induction false} PassedAtCut(s: Stream, k: nat, pieces: seq<Bytes>)
    requires s.Valid() && Cuts(s, k, pieces) && Cut(s, k) && Join(pieces) != []
    ensures !Passed(s, k, pieces)
    decreases |pieces|
  {
    hide Stream.Payload, Cut, Stream.Wire, Grammar;
    CutsTail(s, k, pieces);
    if pieces[0] == [] {
      assert [] + Join(pieces[1..]) == Join(pieces[1..]);
      PassedAtCut(s, k, pieces[1..]);
    } else {
      PayloadBehindCut(s, k, k + |pieces[0]|);
    }
  }

  lemma {:induction false} PassedAtEnd(s: Stream, p: Parser, k: nat, pieces: seq<Bytes>)
    requires s.Valid() && FrameParser.Valid(p) && Cuts(s, k, pieces) && s.Sync(p, k) && s.Finished(k)
    ensures Passed(s, k, pieces)
    decreases |pieces|
  {
    if pieces != [] {
      CutsTail(s, k, pieces);
      PlainPiece(s, p, k, pieces[0]);
      PassedAtEnd(s, p, k + |pieces[0]|, pieces[1..]);
    }
  }

  /** The leftovers are in place behind Direct, and at a header cut only if there are none. */
  lemma LeftoverRight(s: Stream, r: Reader, k: nat, c: Call, leftover: Bytes)
    requires s.Valid() && FrameParser.Valid(r.parser) && k + |Join(c.pieces)| <= |s.Wire()|
    requires !r.direct && (r.within || c.filtering) && Join(c.pieces) != []
    requires s.Payload(k) + UnpadAll(s.uuid, r.parser, c.pieces).1 == s.Payload(k + |Join(c.pieces)|)
    requires ModeAt(s, Read(s.uuid, r, c, []).0, k + |Join(c.pieces)|)
    ensures var n := k + |Join(c.pieces)|;
            s.Payload(k) + Read(s.uuid, r, c, leftover).1 == s.Payload(n) + (if DirectDone(s, n) then leftover else [])
            <==> (Cut(s, n) && EndsWith(s, DIRECT) ==> leftover == [])
    ensures Read(s.uuid, r, c, leftover).0 == Read(s.uuid, r, c, []).0
  {
    var n, out := k + |Join(c.pieces)|, UnpadAll(s.uuid, r.parser, c.pieces).1;
    if Cut(s, n) {
      CutIsEarly(s, n);
    }
    Unit(s.Payload(n));
    Reassociate(s.Payload(k), out, leftover);
  }

  /** A read that is interpreted hands on the right bytes iff it may be made. */
  lemma InterpretedRight(s: Stream, r: Reader, k: nat, c: Call, leftover: Bytes)
    requires s.Valid() && FrameParser.Valid(r.parser) && Cuts(s, k, c.pieces) && ModeAt(s, r, k)
    requires !r.direct && (r.within || c.filtering) && Join(c.pieces) != []
    ensures Right(s, r, k, c, leftover) <==> CallRight(s, k, c, leftover)
    ensures CallRight(s, k, c, leftover) ==> ModeAt(s, Read(s.uuid, r, c, leftover).0, k + |Join(c.pieces)|)
  {
    hide Stream.Payload, Stream.Sync, HeaderCut, Carried, InStep, AllOk;
    UnpaddingExact(s, r.parser, k, c.pieces);
    if Cut(s, k) {
      CutIsEarly(s, k);
    }
    if AllOk(s, k, c.pieces) {
      Interpreted(s, r, k, c);
      LeftoverRight(s, r, k, c, leftover);
    }
  }

  /** A read that is not interpreted hands on the right bytes iff it may be made. */
  lemma PassedRight(s: Stream, r: Reader, k: nat, c: Call, leftover: Bytes)
    requires s.Valid() && FrameParser.Valid(r.parser) && Cuts(s, k, c.pieces) && ModeAt(s, r, k)
    requires !DirectDone(s, k) && (r.direct || (!r.within && !c.filtering)) && Join(c.pieces) != []
    ensures Right(s, r, k, c, leftover) <==> CallRight(s, k, c, leftover)
    ensures CallRight(s, k, c, leftover) ==> ModeAt(s, Read(s.uuid, r, c, leftover).0, k + |Join(c.pieces)|)
  {
    hide Stream.Payload, Stream.Sync, HeaderCut, Carried, Passed;
    var n := k + |Join(c.pieces)|;
    if Cut(s, k) {
      CutIsEarly(s, k);
      PassedAtCut(s, k, c.pieces);
    } else {
      PassedAtEnd(s, r.parser, k, c.pieces);
      PlainPiece(s, r.parser, k, Join(c.pieces));
      Unit(s.Payload(n));
    }
  }

  /** One read hands on the right bytes, buffer by buffer, iff it may be made. */
  lemma RightExact(s: Stream, r: Reader, k: nat, c: Call, leftover: Bytes)
    requires s.Valid() && FrameParser.Valid(r.parser)
    requires Cuts(s, k, c.pieces) && ModeAt(s, r, k) && !DirectDone(s, k)
    ensures Right(s, r, k, c, leftover) <==> CallRight(s, k, c, leftover)
    ensures CallRight(s, k, c, leftover) ==> ModeAt(s, Read(s.uuid, r, c, leftover).0, k + |Join(c.pieces)|)
  {
    hide Stream.Payload, Stream.Sync, HeaderCut, InStep, Passed, AllOk;
    if Join(c.pieces) != [] {
      if !r.direct && (r.within || c.filtering) {
        InterpretedRight(s, r, k, c, leftover);
      } else {
        PassedRight(s, r, k, c, leftover);
      }
    }
  }

  predicate CallsRight(s: Stream, k: nat, calls: seq<Call>, leftover: Bytes)
    requires s.Valid()
    decreases |calls|
  {
    calls != [] ==>
      CallRight(s, k, calls[0], leftover) && CallsRight(s, k + |Join(calls[0].pieces)|, calls[1..], leftover)
  }

  predicate AllRight(s: Stream, r: Reader, k: nat, calls: seq<Call>, leftover: Bytes)
    requires s.Valid() && FrameParser.Valid(r.parser)
    decreases |calls|
  {
    calls != [] ==>
      && k + |Join(calls[0].pieces)| <= |s.Wire()|
      && Right(s, r, k, calls[0], leftover)
      && AllRight(s, Read(s.uuid, r, calls[0], leftover).0, k + |Join(calls[0].pieces)|, calls[1..], leftover)
  }

  /** What the reader has handed on is right after every buffer of every read iff every read may be made. */
  lemma {:induction false} HandedOnExact(s: Stream, r: Reader, k: nat, calls: seq<Call>, leftover: Bytes)
    requires s.Valid() && FrameParser.Valid(r.parser)
    requires ReadsFrom(s, k, calls) && k <= |s.Wire()| && ModeAt(s, r, k)
    ensures AllRight(s, r, k, calls, leftover) <==> CallsRight(s, k, calls, leftover)
    decreases |calls|
  {
    if calls != [] {
      RightExact(s, r, k, calls[0], leftover);
      if CallRight(s, k, calls[0], leftover) {
        HandedOnExact(s, Read(s.uuid, r, calls[0], leftover).0, k + |Join(calls[0].pieces)|, calls[1..], leftover);
      }
    }
  }

  /** Reads that never end at a header cut may all be made. */
  lemma {:induction false} OkIsRight(s: Stream, k: nat, calls: seq<Call>, leftover: Bytes)
    requires s.Valid() && ReadsFrom(s, k, calls) && CallsOk(s, k, calls) && !Cut(s, k)
    ensures CallsRight(s, k, calls, leftover)
    decreases |calls|
  {
    if calls != [] {
      OkIsRight(s, k + |Join(calls[0].pieces)|, calls[1..], leftover);
    }
  }

  // ---- Whole runs of reads from the framed stream ----

  /** `out` is what was to be handed on between positions `k` and `n`. */
  predicate HandedOn(s: Stream, k: nat, n: nat, out: Bytes, leftover: Bytes)
    requires s.Valid()
  {
    k <= n <= |s.Wire()| && s.Payload(k) + out == s.Payload(n) + if DirectDone(s, n) then leftover else []
  }

  lemma HandedOnThen(s: Stream, k: nat, j: nat, n: nat, first: Bytes, second: Bytes, leftover: Bytes)
    requires s.Valid() && HandedOn(s, k, j, first, leftover) && !DirectDone(s, j) && HandedOn(s, j, n, second, leftover)
    ensures HandedOn(s, k, n, first + second, leftover)
  {
    Unit(s.Payload(j));
    Reassociate(s.Payload(k), first, second);
  }

  lemma NothingHandedOn(s: Stream, k: nat, leftover: Bytes)
    requires s.Valid() && k <= |s.Wire()| && !DirectDone(s, k)
    ensures HandedOn(s, k, k, [], leftover)
  {
    Unit(s.Payload(k));
  }

  lemma HandedOnWithin(s: Stream, k: nat, n: nat, out: Bytes, leftover: Bytes)
    requires s.Valid() && HandedOn(s, k, n, out, leftover) && !DirectDone(s, n)
    ensures HandedOn(s, n, n, [], leftover)
  {
    NothingHandedOn(s, n, leftover);
  }

  /** One right read. */
  lemma RightHandsOn(s: Stream, r: Reader, k: nat, c: Call, leftover: Bytes)
    requires s.Valid() && FrameParser.Valid(r.parser) && k + |Join(c.pieces)| <= |s.Wire()| && !DirectDone(s, k)
    requires Right(s, r, k, c, leftover)
    ensures HandedOn(s, k, k + |Join(c.pieces)|, Read(s.uuid, r, c, leftover).1, leftover)
  {
    if Join(c.pieces) == [] {
      NothingHandedOn(s, k, leftover);
    }
  }

  /** Every read hands on what it should. */
  predicate EachHandsOn(s: Stream, r: Reader, k: nat, calls: seq<Call>, leftover: Bytes)
    requires s.Valid() && FrameParser.Valid(r.parser)
    decreases |calls|
  {
    calls != [] ==>
      var j := k + |Join(calls[0].pieces)|;
      && HandedOn(s, k, j, Read(s.uuid, r, calls[0], leftover).1, leftover)
      && (calls[1..] != [] ==> !DirectDone(s, j))
      && EachHandsOn(s, Read(s.uuid, r, calls[0], leftover).0, j, calls[1..], leftover)
  }

  lemma {:induction false} RightHandsOnEach(s: Stream, r: Reader, k: nat, calls: seq<Call>, leftover: Bytes)
    requires s.Valid() && FrameParser.Valid(r.parser) && k <= |s.Wire()|
    requires ReadsFrom(s, k, calls) && AllRight(s, r, k, calls, leftover)
    ensures EachHandsOn(s, r, k, calls, leftover)
    decreases |calls|
  {
    hide HandedOn, DirectDone, Read, Right;
    if calls != [] {
      RightHandsOn(s, r, k, calls[0], leftover);
      RightHandsOnEach(s, Read(s.uuid, r, calls[0], leftover).0, k + |Join(calls[0].pieces)|, calls[1..], leftover);
    }
  }

  /** Together they hand on the payload of the bytes they read, and nothing else. */
  lemma {:induction false} EachHandsOnAll(s: Stream, r: Reader, k: nat, calls: seq<Call>, leftover: Bytes)
    requires s.Valid() && FrameParser.Valid(r.parser)
    requires HandedOn(s, k, k, [], leftover) && !DirectDone(s, k) && EachHandsOn(s, r, k, calls, leftover)
    ensures HandedOn(s, k, k + |Received(calls)|, ReadAll(s.uuid, r, calls, leftover).1, leftover)
    decreases |calls|
  {
    hide HandedOn, DirectDone, Read;
    if calls != [] {
      var (q, out) := Read(s.uuid, r, calls[0], leftover);
      var j := k + |Join(calls[0].pieces)|;
      if calls[1..] == [] {
        Unit(out);
      } else {
        HandedOnWithin(s, k, j, out, leftover);
        EachHandsOnAll(s, q, j, calls[1..], leftover);
        HandedOnThen(s, k, j, j + |Received(calls[1..])|, out, ReadAll(s.uuid, q, calls[1..], leftover).1, leftover);
      }
    }
  }

  lemma {:induction false} ReadingMode(s: Stream, r: Reader, k: nat, calls: seq<Call>, leftover: Bytes)
    requires s.Valid() && FrameParser.Valid(r.parser)
    requires ReadsFrom(s, k, calls) && k <= |s.Wire()| && ModeAt(s, r, k) && CallsRight(s, k, calls, leftover)
    requires k + |Received(calls)| <= |s.Wire()|
    ensures ModeAt(s, ReadAll(s.uuid, r, calls, leftover).0, k + |Received(calls)|)
    decreases |calls|
  {
    hide ModeAt, CallRight, DirectDone, Read, HeaderCut, Carried, Stream.Wire;
    if calls != [] {
      RightExact(s, r, k, calls[0], leftover);
      ReadingMode(s, Read(s.uuid, r, calls[0], leftover).0, k + |Join(calls[0].pieces)|, calls[1..], leftover);
    }
  }

  /** Any number of reads that may be made hand on the payload of the bytes they read, and nothing else. */
  lemma ReadingPayload(s: Stream, r: Reader, k: nat, calls: seq<Call>, leftover: Bytes)
    requires s.Valid() && FrameParser.Valid(r.parser)
    requires ReadsFrom(s, k, calls) && k <= |s.Wire()| && ModeAt(s, r, k) && CallsRight(s, k, calls, leftover)
    requires !DirectDone(s, k)
    ensures var (q, out) := ReadAll(s.uuid, r, calls, leftover);
            var n := k + |Received(calls)|;
            HandedOn(s, k, n, out, leftover) && ModeAt(s, q, n)
  {
    hide ReadAll, ModeAt, CallsRight, AllRight, EachHandsOn;
    HandedOnExact(s, r, k, calls, leftover);
    RightHandsOnEach(s, r, k, calls, leftover);
    NothingHandedOn(s, k, leftover);
    EachHandsOnAll(s, r, k, calls, leftover);
    ReadingMode(s, r, k, calls, leftover);
  }
}
