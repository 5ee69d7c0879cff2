/**
 What a read that ends at a header cut costs: bytes that are not payload are handed on.
 */
module ReadBoundaries {
  import opened Bytes
  import opened Frames
  import opened FrameParser
  import opened FramedStream
  import opened Reading

  /** Position `k` lies strictly inside the header of some frame. */
  predicate InsideHeader(fs: seq<Frame>, k: nat)
    requires Grammar(fs)
    decreases |fs|
  {
    fs != [] && if k < |Encode(fs[0])| then 0 < k < HEADER_LENGTH else InsideHeader(fs[1..], k - |Encode(fs[0])|)
  }

  /** To keep out of all headers is enough, so no read has to know where the terminator is. */
  lemma {:induction false} HeaderCutIsInside(fs: seq<Frame>, k: nat)
    requires Grammar(fs) && !InsideHeader(fs, k)
    ensures !HeaderCut(fs, k)
    decreases |fs|
  {
    if fs != [] && k >= |Encode(fs[0])| {
      HeaderCutIsInside(fs[1..], k - |Encode(fs[0])|);
    }
  }

  /** The first call reads well-cut buffers from position `k`, and ends at a header cut. */
  predicate EndsInHeader(s: Stream, r: Reader, k: nat, c: Call)
    requires s.Valid() && FrameParser.Valid(r.parser)
  {
    && Cuts(s, k, c.pieces) && InMode(s, r, k) && !r.direct && (r.within || c.filtering)
    && AllOk(s, k, c.pieces)
    && Join(c.pieces) != [] && Cut(s, k + |Join(c.pieces)|)
  }

  lemma AtCut(s: Stream, r: Reader, k: nat, c: Call)
    requires s.Valid() && FrameParser.Valid(r.parser) && EndsInHeader(s, r, k, c)
    ensures var q := Read(s.uuid, r, c, []).0;
            Terminated(s.frames) && !q.within && q.direct == (s.frames[|s.frames| - 1].command == DIRECT)
    ensures var out := UnpadAll(s.uuid, r.parser, c.pieces).1;
            s.Payload(k) + out == s.Payload(k + |Join(c.pieces)|)
  {
    hide Carried, AllOk, Header;
    var n := k + |Join(c.pieces)|;
    UnpadAllPayload(s, r.parser, k, c.pieces);
    LooksFinishedAt(START, s.frames, n - UUID_LENGTH);
  }

  /** Inside an End header: unless packets are still filtered, the next read hands on too much. */
  lemma EndHeaderCutLoses(s: Stream, r: Reader, k: nat, c: Call, d: Call)
    requires s.Valid() && FrameParser.Valid(r.parser) && EndsInHeader(s, r, k, c)
    requires s.frames[|s.frames| - 1].command == END
    requires Cuts(s, k + |Join(c.pieces)|, d.pieces) && Join(d.pieces) != [] && !d.filtering
    ensures s.Payload(k) + ReadAll(s.uuid, r, [c, d], []).1 != s.Payload(k + |Join(c.pieces)| + |Join(d.pieces)|)
  {
    hide Carried, AllOk, HeaderCut, Stream.Sync;
    AtCut(s, r, k, c);
    var n := k + |Join(c.pieces)|;
    var (q, out) := Read(s.uuid, r, c, []);
    assert Read(s.uuid, q, d, []) == (q, Join(d.pieces));
    assert [c, d][1..] == [d] && [d][1..] == [];
    assert ReadAll(s.uuid, q, [d], []).1 == Join(d.pieces) + [];
    assert |ReadAll(s.uuid, r, [c, d], []).1| == |out| + |Join(d.pieces)|;
    PayloadBehindCut(s, n, n + |Join(d.pieces)|);
  }

  /** Inside a Direct header: draining the unread rest of the wire hands on too much at once. */
  lemma DirectHeaderCutLoses(s: Stream, r: Reader, k: nat, c: Call, rawInput: Bytes)
    requires s.Valid() && FrameParser.Valid(r.parser) && EndsInHeader(s, r, k, c)
    requires s.frames[|s.frames| - 1].command == DIRECT
    ensures var input := s.Wire()[k + |Join(c.pieces)|..];
            s.Payload(k) + Read(s.uuid, r, c, input + rawInput).1 != s.Payload(|s.Wire()|) + rawInput
  {
    hide Stream.Sync, Stream.Payload, HeaderCut, Cut, Carried, AllOk, UnpadAll;
    AtCut(s, r, k, c);
    var n := k + |Join(c.pieces)|;
    CutIsEarly(s, n);
    PayloadBehindCut(s, n, |s.Wire()|);
    ReadLeftover(s.uuid, r, c, s.Wire()[n..] + rawInput);
  }

  /** An empty Continue frame, then the single byte 65 in an End frame, without padding. */
  function Example(uuid: Bytes): Stream {
    Stream(uuid, [Frame(CONTINUE, [], []), Frame(END, [65], [])], [])
  }

  lemma ExampleWire(uuid: Bytes)
    requires |uuid| == UUID_LENGTH
    ensures Example(uuid).Valid() && |Example(uuid).Wire()| == 27
    ensures HeaderCut(Example(uuid).frames, 6)
    ensures Example(uuid).Payload(0) == [] && Example(uuid).Payload(27) == [65]
  {
    var s := Example(uuid);
    var g := s.frames[1];
    assert s.frames[1..] == [g] && [g][1..] == [];
    assert EncodeAll([g]) == Encode(g);
    assert HeaderCut([g], 1);
    assert Carried([g], [], 6) == [65] + Carried([], [], 0);
  }

  /** The smallest stream that goes wrong: the first of two reads ends behind the End command byte. */
  lemma HeaderCutExample(uuid: Bytes)
    requires |uuid| == UUID_LENGTH
    ensures var s := Example(uuid);
            && s.Valid() && |s.Wire()| == 27 && s.Payload(27) == [65]
            && ReadAll(uuid, NEW_READER, [Call(false, [s.Wire()[..22]]), Call(false, [s.Wire()[22..]])], []).1 != [65]
  {
    var s := Example(uuid);
    ExampleWire(uuid);
    var w := s.Wire();
    var c, d := Call(false, [w[..22]]), Call(false, [w[22..]]);
    JoinOne(w[..22]);
    JoinOne(w[22..]);
    assert w[0..22] == w[..22] && w[22..27] == w[22..];
    assert AllOk(s, 0, c.pieces);
    EndHeaderCutLoses(s, NEW_READER, 0, c, d);
    var out := ReadAll(uuid, NEW_READER, [c, d], []).1;
    assert [] + out == out;
  }

  /** Read alike while packets are still filtered, the same stream gives its payload: the reader recovers. */
  lemma HeaderCutRecovers(uuid: Bytes)
    requires |uuid| == UUID_LENGTH
    ensures var s := Example(uuid);
            && s.Valid() && |s.Wire()| == 27 && s.Payload(27) == [65]
            && var calls := [Call(true, [s.Wire()[..22]]), Call(true, [s.Wire()[22..]])];
               !CallsOk(s, 0, calls) && ReadAll(uuid, NEW_READER, calls, []).1 == [65]
  {
    var s := Example(uuid);
    ExampleWire(uuid);
    var w := s.Wire();
    var c, d := Call(true, [w[..22]]), Call(true, [w[22..]]);
    JoinOne(w[..22]);
    JoinOne(w[22..]);
    assert w[0..22] == w[..22] && w[22..27] == w[22..];
    assert [c, d][1..] == [d] && [d][1..] == [];
    assert Received([d]) == w[22..] + Received([]) && Received([c, d]) == w[..22] + Received([d]);
    if Cut(s, 27) {
      CutIsEarly(s, 27);
    }
    assert Join(c.pieces) == w[..22] && Join(d.pieces) == w[22..];
    assert ReadsFrom(s, 27, []) && CallsRight(s, 27, [], []);
    assert ReadsFrom(s, 22, [d]) && CallsRight(s, 22, [d], []);
    assert ReadsFrom(s, 0, [c, d]) && CallsRight(s, 0, [c, d], []);
    ReadingPayload(s, NEW_READER, 0, [c, d], []);
    var out := ReadAll(uuid, NEW_READER, [c, d], []).1;
    assert [] + out == out;
  }
}
