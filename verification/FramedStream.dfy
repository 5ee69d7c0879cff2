/**
 XtlsUnpadding over a whole stream: the UUID, frames, and raw bytes after the last frame, cut into
 buffers in any way.
 */
module FramedStream {
  import opened Bytes
  import opened Frames
  import opened FrameParser

  const START := FRESH.(commandLeft := 5)

  /** The parser state after `k` bytes of frames. */
  function StateAt(p: Parser, fs: seq<Frame>, k: nat): Parser
    requires Grammar(fs)
    decreases |fs|
  {
    if fs == [] then p
    else if k < |Encode(fs[0])| then InFrame(p, fs[0], k)
    else StateAt(Leaves(fs[0].command), fs[1..], k - |Encode(fs[0])|)
  }

  /** A framed stream. Raw bytes follow the frames only after End or Direct. */
  datatype Stream = Stream(uuid: Bytes, frames: seq<Frame>, tail: Bytes) {

    predicate Valid() {
      && |uuid| == UUID_LENGTH
      && Grammar(frames)
      && (tail != [] ==> Terminated(frames))
    }

    function Wire(): Bytes
      requires Valid()
    {
      uuid + EncodeAll(frames) + tail
    }

    /** What follows the UUID. */
    function Body(): Bytes
      requires Valid()
    {
      EncodeAll(frames) + tail
    }

    /** The payload carried by the first `k` bytes on the wire. */
    function Payload(k: nat): Bytes
      requires Valid() && k <= |Wire()|
    {
      if k < UUID_LENGTH then [] else Carried(frames, tail, k - UUID_LENGTH)
    }

    /** The first `k` bytes include the whole of an End or Direct frame. */
    predicate Finished(k: nat)
      requires Valid()
    {
      Terminated(frames) && k >= UUID_LENGTH + |EncodeAll(frames)|
    }

    /** The parser is where somebody who had read the first `k` bytes as frames would be. */
    predicate Sync(p: Parser, k: nat)
      requires Valid() && k <= |Wire()|
    {
      (k == 0 && p == FRESH) || (k >= UUID_LENGTH && p == StateAt(START, frames, k - UUID_LENGTH))
    }
  }

  /** Where a run over frames may start from. */
  predicate CanStart(p: Parser, fs: seq<Frame>, tail: Bytes)
    requires Grammar(fs)
  {
    if fs == [] then FrameParser.Valid(p) && (Initial(p) || (tail == [] && AtHeader(p)))
    else AtHeader(p) && (tail != [] ==> Terminated(fs))
  }

  lemma CanContinue(p: Parser, fs: seq<Frame>, tail: Bytes)
    requires Grammar(fs) && fs != [] && CanStart(p, fs, tail)
    ensures Grammar(fs[1..]) && CanStart(Leaves(fs[0].command), fs[1..], tail)
  {
    if fs[1..] != [] {
      assert fs[0].command == CONTINUE;
      assert fs[1..][|fs| - 2] == fs[|fs| - 1];
    }
  }

  lemma RunStreamPast(p: Parser, fs: seq<Frame>, tail: Bytes, k: nat)
    requires Grammar(fs) && fs != [] && |Encode(fs[0])| <= k <= |EncodeAll(fs)| + |tail|
    requires AtHeader(p)
    requires Run(Leaves(fs[0].command), (EncodeAll(fs[1..]) + tail)[..k - |Encode(fs[0])|])
          == (StateAt(Leaves(fs[0].command), fs[1..], k - |Encode(fs[0])|), Carried(fs[1..], tail, k - |Encode(fs[0])|))
    ensures Run(p, (EncodeAll(fs) + tail)[..k]) == (StateAt(p, fs, k), Carried(fs, tail, k))
  {
    var f, rest := fs[0], EncodeAll(fs[1..]);
    assert EncodeAll(fs) == Encode(f) + rest;
    PrefixPast(Encode(f), rest, tail, k);
    RunPast(p, f, (rest + tail)[..k - |Encode(f)|]);
  }

  /** Reading frames: the parser hands on exactly what they carry, wherever reading stops. */
  lemma {:induction false} RunStream(p: Parser, fs: seq<Frame>, tail: Bytes, k: nat)
    requires Grammar(fs) && k <= |EncodeAll(fs)| + |tail|
    requires CanStart(p, fs, tail)
    ensures FrameParser.Valid(p)
    ensures Run(p, (EncodeAll(fs) + tail)[..k]) == (StateAt(p, fs, k), Carried(fs, tail, k))
    decreases |fs|
  {
    if fs == [] {
      assert EncodeAll(fs) + tail == tail;
      if !Initial(p) {
        assert tail[..k] == [];
      }
    } else if k < |Encode(fs[0])| {
      assert (EncodeAll(fs) + tail)[..k] == Encode(fs[0])[..k];
      RunFramePrefix(p, fs[0], k);
      assert fs[0].content[..|fs[0].content|] == fs[0].content;
    } else {
      CanContinue(p, fs, tail);
      RunStream(Leaves(fs[0].command), fs[1..], tail, k - |Encode(fs[0])|);
      RunStreamPast(p, fs, tail, k);
    }
  }

  /** The parser is back in its initial state exactly once the terminator has been read. */
  lemma {:induction false} InitialAt(p: Parser, fs: seq<Frame>, k: nat)
    requires Grammar(fs) && AtHeader(p)
    ensures Initial(StateAt(p, fs, k)) <==> Terminated(fs) && k >= |EncodeAll(fs)|
    ensures Initial(StateAt(p, fs, k)) ==> StateAt(p, fs, k) == Leaves(fs[|fs| - 1].command)
    decreases |fs|
  {
    if fs != [] && k >= |Encode(fs[0])| {
      if fs[1..] == [] {
        assert EncodeAll(fs[1..]) == [];
      } else {
        assert fs[0].command == CONTINUE;
        InitialAt(Leaves(CONTINUE), fs[1..], k - |Encode(fs[0])|);
        assert fs[1..][|fs| - 2] == fs[|fs| - 1];
      }
    }
  }

  /** When a buffer is handled as the stream means it. */
  predicate PieceOk(s: Stream, k: nat, piece: Bytes)
    requires s.Valid()
  {
    piece != [] ==>
      && (k == 0 ==> |piece| >= 21)
      && (s.Finished(k) ==> |piece| < 21 || piece[..16] != s.uuid)
  }

  /** A first buffer under 21 bytes is handed on as it is, although it carries nothing. */
  lemma ShortPiece(s: Stream, piece: Bytes)
    requires s.Valid() && |piece| <= |s.Wire()| && |piece| < UUID_LENGTH + HEADER_LENGTH
    ensures Unpad(s.uuid, FRESH, piece) == (FRESH, piece)
    ensures s.Payload(|piece|) == []
  {
    if s.frames == [] {
      assert EncodeAll(s.frames) == [] && s.tail == [];
    }
  }

  /** A longer one starts with the UUID, and the frames behind it are read. */
  lemma LongPiece(s: Stream, piece: Bytes)
    requires s.Valid() && UUID_LENGTH + HEADER_LENGTH <= |piece| <= |s.Wire()| && piece == s.Wire()[..|piece|]
    ensures s.Sync(Unpad(s.uuid, FRESH, piece).0, |piece|) && Unpad(s.uuid, FRESH, piece).1 == s.Payload(|piece|)
  {
    hide Run, Carried, StateAt;
    assert piece[..UUID_LENGTH] == s.uuid;
    assert piece[UUID_LENGTH..] == (EncodeAll(s.frames) + s.tail)[..|piece| - UUID_LENGTH];
    RunStream(START, s.frames, s.tail, |piece| - UUID_LENGTH);
  }

  lemma FirstPiece(s: Stream, piece: Bytes)
    requires s.Valid() && 0 < |piece| <= |s.Wire()| && piece == s.Wire()[..|piece|]
    ensures var (q, out) := Unpad(s.uuid, FRESH, piece);
            && (s.Payload(0) + out == s.Payload(|piece|) <==> |piece| >= UUID_LENGTH + HEADER_LENGTH)
            && (|piece| >= UUID_LENGTH + HEADER_LENGTH ==> s.Sync(q, |piece|))
  {
    assert s.Payload(0) == [];
    hide Unpad, Stream.Payload, Stream.Sync;
    Unit(Unpad(s.uuid, FRESH, piece).1);
    if |piece| >= UUID_LENGTH + HEADER_LENGTH {
      LongPiece(s, piece);
    } else {
      ShortPiece(s, piece);
    }
  }

  /** What follows the UUID, up to position `k`. */
  function Before(s: Stream, k: nat): Bytes
    requires s.Valid() && UUID_LENGTH <= k <= |s.Wire()|
  {
    s.Body()[..k - UUID_LENGTH]
  }

  lemma BodySplit(s: Stream, k: nat, piece: Bytes)
    requires s.Valid() && UUID_LENGTH <= k && k + |piece| <= |s.Wire()|
    requires piece == s.Wire()[k..k + |piece|]
    ensures Before(s, k + |piece|) == Before(s, k) + piece
  {
    SlicePast(s.uuid, EncodeAll(s.frames), s.tail, k, k + |piece|);
  }

  lemma RunFrom(start: Parser, before: Bytes, piece: Bytes, p: Parser)
    requires FrameParser.Valid(start) && Run(start, before).0 == p
    ensures Run(start, before + piece) == (Run(p, piece).0, Run(start, before).1 + Run(p, piece).1)
  {
    RunSplit(start, before, piece);
  }

  /** A parser that has read up to `k` as frames. */
  lemma RunTo(s: Stream, k: nat)
    requires s.Valid() && UUID_LENGTH <= k <= |s.Wire()|
    ensures Run(START, Before(s, k)) == (StateAt(START, s.frames, k - UUID_LENGTH), s.Payload(k))
  {
    hide Run, Carried, StateAt;
    RunStream(START, s.frames, s.tail, k - UUID_LENGTH);
  }

  lemma LaterPiece(s: Stream, p: Parser, k: nat, piece: Bytes)
    requires s.Valid() && FrameParser.Valid(p)
    requires 0 < k && k + |piece| <= |s.Wire()| && piece == s.Wire()[k..k + |piece|]
    requires s.Sync(p, k)
    ensures var (q, out) := Run(p, piece);
            s.Sync(q, k + |piece|) && s.Payload(k) + out == s.Payload(k + |piece|)
  {
    hide Run, StateAt, Before, Stream.Wire, Stream.Payload;
    RunTo(s, k);
    RunTo(s, k + |piece|);
    BodySplit(s, k, piece);
    RunFrom(START, Before(s, k), piece, p);
  }

  lemma {:induction false} CarriedFrames(fs: seq<Frame>, tail: Bytes)
    requires Grammar(fs)
    ensures Carried(fs, tail, |EncodeAll(fs)|) == Contents(fs)
  {
    if fs != [] {
      CarriedFrames(fs[1..], tail);
    }
  }

  /** After the terminator the stream carries its bytes as they are. */
  lemma CarriedAtEnd(s: Stream, k: nat)
    requires s.Valid() && k <= |s.Wire()| && s.Finished(k)
    ensures |s.Payload(k)| == |Contents(s.frames)| + k - UUID_LENGTH - |EncodeAll(s.frames)|
  {
    CarriedGrows(s.frames, s.tail, k - UUID_LENGTH, |EncodeAll(s.frames)| + |s.tail|);
    CarriedAll(s.frames, s.tail);
    RunStream(START, s.frames, s.tail, |EncodeAll(s.frames)|);
    CarriedGrows(s.frames, s.tail, |EncodeAll(s.frames)|, k - UUID_LENGTH);
    CarriedFrames(s.frames, s.tail);
  }

  /** One buffer hands on exactly its payload iff it is well cut; and then the parser stays in step. */
  lemma PieceExact(s: Stream, p: Parser, k: nat, piece: Bytes)
    requires s.Valid() && FrameParser.Valid(p)
    requires k + |piece| <= |s.Wire()| && piece == s.Wire()[k..k + |piece|]
    requires s.Sync(p, k)
    ensures var out := Unpad(s.uuid, p, piece).1;
            s.Payload(k) + out == s.Payload(k + |piece|) <==> PieceOk(s, k, piece)
    ensures PieceOk(s, k, piece) ==> s.Sync(Unpad(s.uuid, p, piece).0, k + |piece|)
  {
    var (q, out) := Unpad(s.uuid, p, piece);
    var n := k + |piece|;
    if piece == [] {
      assert s.Payload(k) + [] == s.Payload(k);
    } else if k == 0 {
      FirstPiece(s, piece);
    } else {
      assert s.Finished(k) <==> Initial(p) by { InitialAt(START, s.frames, k - UUID_LENGTH); }
      if Opens(s.uuid, p, piece) {
        CarriedAtEnd(s, k);
        CarriedAtEnd(s, n);
        assert |out| < |piece|;
      } else {
        LaterPiece(s, p, k, piece);
      }
    }
  }

  // ---- Whole runs ----

  /** The buffers are consecutive pieces of the wire, from position `k`. */
  predicate Cuts(s: Stream, k: nat, pieces: seq<Bytes>)
    requires s.Valid()
  {
    k + |Join(pieces)| <= |s.Wire()| && Join(pieces) == s.Wire()[k..k + |Join(pieces)|]
  }

  predicate AllOk(s: Stream, k: nat, pieces: seq<Bytes>)
    requires s.Valid()
    decreases |pieces|
  {
    pieces != [] ==> PieceOk(s, k, pieces[0]) && AllOk(s, k + |pieces[0]|, pieces[1..])
  }

  /** After every buffer, what has been handed on is what the wire has carried. */
  predicate InStep(s: Stream, p: Parser, k: nat, pieces: seq<Bytes>)
    requires s.Valid() && FrameParser.Valid(p) && k + |Join(pieces)| <= |s.Wire()|
    decreases |pieces|
  {
    pieces != [] ==>
      var (q, out) := Unpad(s.uuid, p, pieces[0]);
      s.Payload(k) + out == s.Payload(k + |pieces[0]|) && InStep(s, q, k + |pieces[0]|, pieces[1..])
  }

  lemma CutsTail(s: Stream, k: nat, pieces: seq<Bytes>)
    requires s.Valid() && pieces != [] && Cuts(s, k, pieces)
    ensures pieces[0] == s.Wire()[k..k + |pieces[0]|]
    ensures Cuts(s, k + |pieces[0]|, pieces[1..])
  {
    var w, j, n := s.Wire(), k + |pieces[0]|, k + |Join(pieces)|;
    assert w[k..n] == w[k..j] + w[j..n];
    assert Join(pieces)[..|pieces[0]|] == pieces[0];
    assert Join(pieces)[|pieces[0]|..] == Join(pieces[1..]);
  }

  /** However a framed stream is cut, every buffer hands on what it should iff every buffer is well cut. */
  lemma {:induction false} UnpaddingExact(s: Stream, p: Parser, k: nat, pieces: seq<Bytes>)
    requires s.Valid() && FrameParser.Valid(p)
    requires Cuts(s, k, pieces) && s.Sync(p, k)
    ensures InStep(s, p, k, pieces) <==> AllOk(s, k, pieces)
    decreases |pieces|
  {
    hide Stream.Payload, Stream.Sync, Unpad, PieceOk;
    if pieces != [] {
      CutsTail(s, k, pieces);
      PieceExact(s, p, k, pieces[0]);
      if PieceOk(s, k, pieces[0]) {
        UnpaddingExact(s, Unpad(s.uuid, p, pieces[0]).0, k + |pieces[0]|, pieces[1..]);
      }
    }
  }

  /** Well-cut buffers, taken together, hand on exactly the payload of the bytes they hold. */
  lemma {:induction false} UnpadAllPayload(s: Stream, p: Parser, k: nat, pieces: seq<Bytes>)
    requires s.Valid() && FrameParser.Valid(p)
    requires Cuts(s, k, pieces) && s.Sync(p, k) && AllOk(s, k, pieces)
    ensures var (q, out) := UnpadAll(s.uuid, p, pieces);
            s.Sync(q, k + |Join(pieces)|) && s.Payload(k) + out == s.Payload(k + |Join(pieces)|)
    decreases |pieces|
  {
    hide Stream.Payload, Stream.Sync, Unpad, PieceOk, Grammar;
    if pieces == [] {
      Unit(s.Payload(k));
    } else {
      CutsTail(s, k, pieces);
      PieceExact(s, p, k, pieces[0]);
      var (q, out) := Unpad(s.uuid, p, pieces[0]);
      UnpadAllPayload(s, q, k + |pieces[0]|, pieces[1..]);
      Reassociate(s.Payload(k), out, UnpadAll(s.uuid, q, pieces[1..]).1);
    }
  }

  /** The round trip: a stream read to its end gives the contents and then the raw bytes. */
  lemma UnpaddingUndoesPadding(s: Stream, pieces: seq<Bytes>)
    requires s.Valid() && s.frames != []
    requires Join(pieces) == s.Wire() && AllOk(s, 0, pieces)
    ensures UnpadAll(s.uuid, FRESH, pieces).1 == Contents(s.frames) + s.tail
  {
    hide UnpadAll, AllOk, Carried, Contents;
    var n := |s.Wire()|;
    assert s.Wire()[0..n] == s.Wire();
    UnpadAllPayload(s, FRESH, 0, pieces);
    assert s.Payload(n) == Contents(s.frames) + s.tail by { CarriedAll(s.frames, s.tail); }
    var out := UnpadAll(s.uuid, FRESH, pieces).1;
    assert s.Payload(0) == [] && [] + out == out;
  }

  /** Two ways of cutting the same bytes leave the same state and hand on the same payload. */
  lemma CutsDoNotMatter(s: Stream, a: seq<Bytes>, b: seq<Bytes>)
    requires s.Valid() && Join(a) == Join(b)
    requires Cuts(s, 0, a) && AllOk(s, 0, a) && AllOk(s, 0, b)
    requires Join(a) != []
    ensures UnpadAll(s.uuid, FRESH, a) == UnpadAll(s.uuid, FRESH, b)
  {
    UnpadAllPayload(s, FRESH, 0, a);
    UnpadAllPayload(s, FRESH, 0, b);
    var x, y := UnpadAll(s.uuid, FRESH, a).1, UnpadAll(s.uuid, FRESH, b).1;
    assert s.Payload(0) + x == x && s.Payload(0) + y == y;
  }
}
