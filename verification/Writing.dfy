/**
 The writing half of Vision as a state machine: which frames WriteMultiBuffer makes of each call,
 and what a whole run of one writer puts on the wire.
 */
module Writing {
  import opened Bytes
  import opened Frames
  import opened Padding
  import opened Buffers
  import F = Filter
  import Records

  datatype Choice = Choice(command: Byte, longPadding: bool)

  /** *isPadding, *switchToDirectCopy and longPadding during one call. */
  datatype Control = Control(isPadding: bool, direct: bool, long: bool)

  /** A piece that starts like TLS application data, within whole records. */
  predicate StartsData(f: F.Filter, complete: bool, piece: Bytes) {
    f.tls && |piece| >= 6 && piece[..3] == F.TLS_APPLICATION_DATA_START && complete
  }

  /** One turn of the loop over the pieces: the frame's command, the new flags, and whether to break. */
  function Turn(f: F.Filter, copyEnabled: bool, complete: bool, piece: Bytes, last: bool, c: Control): (Choice, Control, bool) {
    var copy := f.enableXtls && copyEnabled;
    var keep := f.enableXtls && !copyEnabled;
    if StartsData(f, complete, piece) then
      var command := if !last then CONTINUE else if copy then DIRECT else if !keep then END else CONTINUE;
      (Choice(command, true), Control(c.isPadding && keep, c.direct || copy, c.long && keep), false)
    else if !f.tls12 && f.packets <= 1 then
      (Choice(END, c.long), c.(isPadding := false), true)
    else
      var command := if last && !c.isPadding then (if copy then DIRECT else END) else CONTINUE;
      (Choice(command, c.long), c, false)
  }

  function Plan(f: F.Filter, copyEnabled: bool, complete: bool, pieces: seq<Bytes>, c: Control): (r: (seq<Choice>, Control))
    ensures |r.0| <= |pieces|
  {
    if pieces == [] then ([], c)
    else
      var (choice, d, stop) := Turn(f, copyEnabled, complete, pieces[0], |pieces| == 1, c);
      if stop then ([choice], d)
      else
        var (rest, e) := Plan(f, copyEnabled, complete, pieces[1..], d);
        ([choice] + rest, e)
  }

  // ---- The commands of one call ----

  /** Continue*, then at most one other command. */
  predicate Ends(cs: seq<Choice>, command: Byte) {
    cs != [] && cs[|cs| - 1].command == command
  }

  /** Padding has not been given up, or it has and a terminator is due on the last piece. */
  predicate Consistent(f: F.Filter, copyEnabled: bool, c: Control) {
    && (c.isPadding ==> !c.direct)
    && (!c.isPadding ==> c.direct == (f.enableXtls && copyEnabled) && (f.enableXtls ==> copyEnabled))
  }

  /** Continue* and then at most one terminator, which is there iff padding stops, and Direct iff `direct`. */
  predicate WellPlanned(cs: seq<Choice>, d: Control, pieces: nat) {
    && (forall i | 0 <= i < |cs| :: cs[i].command <= DIRECT)
    && (forall i | 0 <= i < |cs| - 1 :: cs[i].command == CONTINUE)
    && d.isPadding == !(Ends(cs, END) || Ends(cs, DIRECT))
    && d.direct == Ends(cs, DIRECT)
    && (|cs| < pieces ==> Ends(cs, END))
  }

  lemma TurnKeeps(f: F.Filter, copyEnabled: bool, complete: bool, piece: Bytes, last: bool, c: Control)
    requires F.Inv(f) && Consistent(f, copyEnabled, c)
    ensures var (choice, d, stop) := Turn(f, copyEnabled, complete, piece, last, c);
            && choice.command <= DIRECT
            && (stop ==> choice.command == END && !d.isPadding && !d.direct)
            && (!stop ==> Consistent(f, copyEnabled, d))
            && (!stop && !last ==> choice.command == CONTINUE)
            && (!stop && last ==> d.isPadding == (choice.command == CONTINUE) && d.direct == (choice.command == DIRECT))
  {
  }

  lemma PlanCons(choice: Choice, rest: seq<Choice>, e: Control, pieces: nat)
    requires pieces > 0 && choice.command <= DIRECT
    requires pieces > 1 ==> choice.command == CONTINUE && WellPlanned(rest, e, pieces - 1)
    requires pieces == 1 ==> rest == [] && e.isPadding == (choice.command == CONTINUE) && e.direct == (choice.command == DIRECT)
    ensures WellPlanned([choice] + rest, e, pieces)
  {
    var cs := [choice] + rest;
    if rest != [] {
      assert cs[|cs| - 1] == rest[|rest| - 1];
      assert forall i | 1 <= i < |cs| :: cs[i] == rest[i - 1];
    }
  }

  lemma {:induction false} PlanGrammar(f: F.Filter, copyEnabled: bool, complete: bool, pieces: seq<Bytes>, c: Control)
    requires F.Inv(f) && Consistent(f, copyEnabled, c) && (c.isPadding || pieces != [])
    ensures var (cs, d) := Plan(f, copyEnabled, complete, pieces, c); WellPlanned(cs, d, |pieces|)
    decreases |pieces|
  {
    if pieces != [] {
      TurnKeeps(f, copyEnabled, complete, pieces[0], |pieces| == 1, c);
      var (choice, d, stop) := Turn(f, copyEnabled, complete, pieces[0], |pieces| == 1, c);
      if !stop {
        if |pieces| > 1 {
          PlanGrammar(f, copyEnabled, complete, pieces[1..], d);
        } else {
          assert Plan(f, copyEnabled, complete, pieces[1..], d) == ([], d);
        }
        var (rest, e) := Plan(f, copyEnabled, complete, pieces[1..], d);
        PlanCons(choice, rest, e, |pieces|);
      }
    }
  }

  // ---- A call in closed form ----

  /** The piece opens TLS application data, within whole records, on a connection that has shown TLS. */
  predicate IsData(f: F.Filter, complete: bool, piece: Bytes) {
    f.tls && complete && |piece| >= 6 && piece[0] == 0x17 && piece[1] == 0x03 && piece[2] == 0x03
  }

  /** Another piece, when filtering is about to end without TLS 1.2: padding is given up, one packet early. */
  predicate GivesUp(f: F.Filter, complete: bool, piece: Bytes) {
    !IsData(f, complete, piece) && !f.tls12 && f.packets <= 1
  }

  /** One of the first `n` pieces ends padding: data, unless direct copy would be due but is switched off, or giving up. */
  predicate EndedBy(f: F.Filter, copyEnabled: bool, complete: bool, pieces: seq<Bytes>, n: nat)
    requires n <= |pieces|
  {
    exists i | 0 <= i < n ::
      (IsData(f, complete, pieces[i]) && (f.enableXtls ==> copyEnabled)) || GivesUp(f, complete, pieces[i])
  }

  /** Padding is long on TLS connections up to the first data, and to the end while direct copy is switched off. */
  predicate LongAt(f: F.Filter, copyEnabled: bool, complete: bool, pieces: seq<Bytes>, n: nat)
    requires n <= |pieces|
  {
    f.tls && ((f.enableXtls && !copyEnabled) || forall i | 0 <= i < n :: !IsData(f, complete, pieces[i]))
  }

  /** The terminator: 2 is Direct, 1 is End. */
  function Terminator(f: F.Filter): Byte {
    if f.enableXtls then 2 else 1
  }

  /**
   The choices for the pieces from `i` on. They go on to the piece that gives up, or to the last; every
   command is 0, Continue, but that the last is the terminator if padding has ended; and padding is long for
   data, and where it is long anyway.
   */
  predicate PlannedFrom(f: F.Filter, copyEnabled: bool, complete: bool, pieces: seq<Bytes>, i: nat, cs: seq<Choice>,
                        isPadding: bool, direct: bool) {
    var n := i + |cs|;
    && n <= |pieces| && (i < |pieces| ==> cs != [])
    && (forall j | i <= j < n - 1 :: !GivesUp(f, complete, pieces[j]))
    && (n < |pieces| ==> GivesUp(f, complete, pieces[n - 1]))
    && isPadding == !EndedBy(f, copyEnabled, complete, pieces, n)
    && direct == (!isPadding && f.enableXtls)
    && forall k | 0 <= k < |cs| ::
      && cs[k].command == (if k == |cs| - 1 && !isPadding then Terminator(f) else 0)
      && cs[k].longPadding == (IsData(f, complete, pieces[i + k]) || LongAt(f, copyEnabled, complete, pieces, i + k))
  }

  /** How the flags stand before piece `i`. */
  predicate StandsAt(f: F.Filter, copyEnabled: bool, complete: bool, pieces: seq<Bytes>, i: nat, c: Control)
    requires i <= |pieces|
  {
    && c.isPadding == !EndedBy(f, copyEnabled, complete, pieces, i)
    && c.direct == (!c.isPadding && f.enableXtls)
    && c.long == LongAt(f, copyEnabled, complete, pieces, i)
    && forall j | 0 <= j < i :: !GivesUp(f, complete, pieces[j])
  }

  lemma EndedNext(f: F.Filter, copyEnabled: bool, complete: bool, pieces: seq<Bytes>, i: nat)
    requires i < |pieces|
    ensures EndedBy(f, copyEnabled, complete, pieces, i + 1) <==>
            || EndedBy(f, copyEnabled, complete, pieces, i)
            || (IsData(f, complete, pieces[i]) && (f.enableXtls ==> copyEnabled)) || GivesUp(f, complete, pieces[i])
    ensures LongAt(f, copyEnabled, complete, pieces, i + 1) <==>
            LongAt(f, copyEnabled, complete, pieces, i) && ((f.enableXtls && !copyEnabled) || !IsData(f, complete, pieces[i]))
  {
  }

  lemma DataStarts(f: F.Filter, complete: bool, piece: Bytes)
    ensures StartsData(f, complete, piece) == IsData(f, complete, piece)
  {
    if |piece| >= 6 {
      assert piece[..3] == [piece[0], piece[1], piece[2]];
    }
  }

  /** One turn, from flags that stand right. */
  lemma TurnExact(f: F.Filter, copyEnabled: bool, complete: bool, pieces: seq<Bytes>, i: nat, c: Control)
    requires F.Inv(f) && i < |pieces| && StandsAt(f, copyEnabled, complete, pieces, i, c)
    ensures var (choice, d, stop) := Turn(f, copyEnabled, complete, pieces[i], i == |pieces| - 1, c);
            && stop == GivesUp(f, complete, pieces[i])
            && (stop ==> choice.command == 1 && !d.isPadding && !d.direct && !f.enableXtls && EndedBy(f, copyEnabled, complete, pieces, i + 1))
            && (!stop ==> StandsAt(f, copyEnabled, complete, pieces, i + 1, d))
            && (!stop ==> choice.command == if i == |pieces| - 1 && !d.isPadding then Terminator(f) else 0)
            && choice.longPadding == (IsData(f, complete, pieces[i]) || LongAt(f, copyEnabled, complete, pieces, i))
  {
    DataStarts(f, complete, pieces[i]);
    EndedNext(f, copyEnabled, complete, pieces, i);
    hide EndedBy, LongAt;
  }

  lemma PlannedCons(f: F.Filter, copyEnabled: bool, complete: bool, pieces: seq<Bytes>, i: nat, choice: Choice, d: Control,
                    rest: seq<Choice>, e: Control)
    requires i < |pieces| && !GivesUp(f, complete, pieces[i]) && PlannedFrom(f, copyEnabled, complete, pieces, i + 1, rest, e.isPadding, e.direct)
    requires choice.longPadding == (IsData(f, complete, pieces[i]) || LongAt(f, copyEnabled, complete, pieces, i))
    requires choice.command == if i == |pieces| - 1 && !d.isPadding then Terminator(f) else 0
    requires i == |pieces| - 1 ==> rest == [] && e == d
    ensures PlannedFrom(f, copyEnabled, complete, pieces, i, [choice] + rest, e.isPadding, e.direct)
  {
    hide EndedBy, LongAt, GivesUp, IsData;
    var cs := [choice] + rest;
    assert forall k | 1 <= k < |cs| :: cs[k] == rest[k - 1];
  }

  /** The plan for the pieces from `i` on, as the loop goes through them. */
  lemma PlanFrom(f: F.Filter, copyEnabled: bool, complete: bool, pieces: seq<Bytes>, i: nat, c: Control)
    requires i < |pieces|
    ensures var (choice, d, stop) := Turn(f, copyEnabled, complete, pieces[i], i == |pieces| - 1, c);
            var (rest, e) := Plan(f, copyEnabled, complete, pieces[i + 1..], d);
            Plan(f, copyEnabled, complete, pieces[i..], c) == if stop then ([choice], d) else ([choice] + rest, e)
  {
    assert pieces[i..][1..] == pieces[i + 1..];
  }

  lemma {:induction false} PlanFromExact(f: F.Filter, copyEnabled: bool, complete: bool, pieces: seq<Bytes>, i: nat, c: Control)
    requires F.Inv(f) && i <= |pieces| && StandsAt(f, copyEnabled, complete, pieces, i, c)
    ensures var (cs, d) := Plan(f, copyEnabled, complete, pieces[i..], c);
            PlannedFrom(f, copyEnabled, complete, pieces, i, cs, d.isPadding, d.direct)
    decreases |pieces| - i
  {
    if i < |pieces| {
      TurnExact(f, copyEnabled, complete, pieces, i, c);
      PlanFrom(f, copyEnabled, complete, pieces, i, c);
      var (choice, d, stop) := Turn(f, copyEnabled, complete, pieces[i], i == |pieces| - 1, c);
      if !stop {
        PlanFromExact(f, copyEnabled, complete, pieces, i + 1, d);
        var (rest, e) := Plan(f, copyEnabled, complete, pieces[i + 1..], d);
        PlannedCons(f, copyEnabled, complete, pieces, i, choice, d, rest, e);
      }
    }
  }

  /** The plan of a call of a padding writer, told from the bytes of its pieces. */
  lemma PlanExact(f: F.Filter, copyEnabled: bool, complete: bool, pieces: seq<Bytes>)
    requires F.Inv(f)
    ensures var (cs, d) := Plan(f, copyEnabled, complete, pieces, Control(true, false, f.tls));
            PlannedFrom(f, copyEnabled, complete, pieces, 0, cs, d.isPadding, d.direct)
  {
    assert pieces[0..] == pieces;
    PlanFromExact(f, copyEnabled, complete, pieces, 0, Control(true, false, f.tls));
  }

  /** Padding ends in a call exactly if one of its pieces ends it, and with Direct exactly if Xtls is enabled. */
  lemma PlanEndsWhen(f: F.Filter, copyEnabled: bool, complete: bool, pieces: seq<Bytes>)
    requires F.Inv(f)
    ensures var d := Plan(f, copyEnabled, complete, pieces, Control(true, false, f.tls)).1;
            && (!d.isPadding <==> EndedBy(f, copyEnabled, complete, pieces, |pieces|))
            && (d.direct <==> !d.isPadding && f.enableXtls)
  {
    PlanExact(f, copyEnabled, complete, pieces);
    var n := |Plan(f, copyEnabled, complete, pieces, Control(true, false, f.tls)).0|;
    if n < |pieces| {
      assert GivesUp(f, complete, pieces[n - 1]);
    }
  }

  // ---- The writer ----

  /** Flags of one writer, and everything it has sent so far. */
  datatype Writer = Writer(
    isPadding: bool, direct: bool, onRaw: bool,  // direct: the next call moves on to the raw connection
    frames: seq<Frame>, tail: Bytes, raw: Bytes)

  const NEW_WRITER := Writer(true, false, false, [], [], [])

  /** What is given to WriteMultiBuffer: the single nil buffer, or data. */
  datatype Data = Nil | Pieces(pieces: seq<Bytes>)

  function Payload(d: Data): Bytes {
    match d
    case Nil => []
    case Pieces(ps) => Join(ps)
  }

  /** One call: the shared state it sees, its data, and the padding of the frames it makes. */
  datatype Call = Call(filter: F.Filter, data: Data, paddings: seq<Bytes>)

  function CallPlan(c: Call, copyEnabled: bool): (seq<Choice>, Control)
    requires c.data.Pieces?
  {
    Plan(c.filter, copyEnabled, Records.WholeRecords(Join(c.data.pieces)), Reshape(c.data.pieces),
         Control(true, false, c.filter.tls))
  }

  /** The number of frames that the call makes when the writer is padding. */
  function FrameCount(c: Call, copyEnabled: bool): nat {
    if c.data.Nil? then 1 else |CallPlan(c, copyEnabled).0|
  }

  predicate IsCall(c: Call, copyEnabled: bool) {
    && F.Inv(c.filter)
    && (c.data.Pieces? ==> forall i | 0 <= i < |c.data.pieces| :: |c.data.pieces[i]| <= SIZE)
    && |c.paddings| == FrameCount(c, copyEnabled)
    && (forall i | 0 <= i < |c.paddings| :: |c.paddings[i]| < SIZE)
  }

  /** A call for which no padding has been drawn. */
  function Unpadded(f: F.Filter, d: Data, copyEnabled: bool): Call {
    Call(f, d, seq(FrameCount(Call(f, d, []), copyEnabled), _ => []))
  }

  function MakeFrames(cs: seq<Choice>, pieces: seq<Bytes>, paddings: seq<Bytes>): (fs: seq<Frame>)
    requires |cs| <= |pieces| && |cs| == |paddings|
    ensures |fs| == |cs|
  {
    seq(|cs|, i requires 0 <= i < |cs| => Frame(cs[i].command, pieces[i], paddings[i]))
  }

  function MoveOn(w: Writer): Writer {
    if w.direct then w.(direct := false, onRaw := true) else w
  }

  function Send(w: Writer, data: Bytes): Writer {
    if w.onRaw then w.(raw := w.raw + data) else w.(tail := w.tail + data)
  }

  /** What one call of a padding writer does: frames, new flags, and unframed data behind them. */
  function Emit(w: Writer, fs: seq<Frame>, isPadding: bool, direct: bool, rest: Bytes): Writer {
    Send(w.(isPadding := isPadding, direct := direct, frames := w.frames + fs), rest)
  }

  function Write(w: Writer, copyEnabled: bool, c: Call): Writer
    requires IsCall(c, copyEnabled)
  {
    var v := MoveOn(w);
    if !v.isPadding then Send(v, Payload(c.data))
    else if c.data.Nil? then v.(frames := v.frames + [Frame(CONTINUE, [], c.paddings[0])])
    else
      var shaped := Reshape(c.data.pieces);
      var (cs, d) := CallPlan(c, copyEnabled);
      Emit(v, MakeFrames(cs, shaped, c.paddings), d.isPadding, d.direct, Join(shaped[|cs|..]))
  }

  lemma WriteMoved(w: Writer, copyEnabled: bool, c: Call)
    requires IsCall(c, copyEnabled)
    ensures Write(MoveOn(w), copyEnabled, c) == Write(w, copyEnabled, c)
  {
  }

  /** The wire form of what one writer sends. */
  predicate Inv(w: Writer) {
    && Grammar(w.frames)
    && w.isPadding == !Terminated(w.frames)
    && (w.direct || w.onRaw) == (Terminated(w.frames) && w.frames[|w.frames| - 1].command == DIRECT)
    && !(w.direct && w.onRaw)
    && (w.tail != [] ==> !w.isPadding && !w.direct && !w.onRaw)
    && (w.raw != [] ==> w.onRaw)
  }

  function Sent(w: Writer): Bytes {
    Contents(w.frames) + w.tail + w.raw
  }

  lemma FramesOf(cs: seq<Choice>, pieces: seq<Bytes>, paddings: seq<Bytes>)
    requires |cs| <= |pieces| && |cs| == |paddings|
    ensures Contents(MakeFrames(cs, pieces, paddings)) + Join(pieces[|cs|..]) == Join(pieces)
    decreases |cs|
  {
    var fs := MakeFrames(cs, pieces, paddings);
    if cs == [] {
      assert pieces[0..] == pieces;
      assert fs == [];
      assert [] + Join(pieces) == Join(pieces);
    } else {
      FramesOf(cs[1..], pieces[1..], paddings[1..]);
      assert fs[1..] == MakeFrames(cs[1..], pieces[1..], paddings[1..]);
      assert pieces[1..][|cs| - 1..] == pieces[|cs|..];
    }
  }

  lemma NilKeeps(w: Writer, padding: Bytes)
    requires Inv(w) && w.isPadding && |padding| < SIZE
    ensures var z := w.(frames := w.frames + [Frame(CONTINUE, [], padding)]);
            Inv(z) && Contents(z.frames) == Contents(w.frames)
  {
    var f := Frame(CONTINUE, [], padding);
    ContentsAppend(w.frames, [f]);
    assert Contents([f]) == [] + Contents([f][1..]);
  }

  lemma SentIs(frames: seq<Frame>, before: Bytes, content: Bytes, rest: Bytes)
    requires Contents(frames) == before + content
    ensures Contents(frames) + rest + [] == before + (content + rest)
  {
  }

  lemma AppendGrammar(a: seq<Frame>, b: seq<Frame>)
    requires Grammar(a) && !Terminated(a) && Grammar(b)
    ensures Grammar(a + b)
    ensures Terminated(a + b) == Terminated(b)
    ensures Terminated(b) ==> (a + b)[|a + b| - 1] == b[|b| - 1]
  {
  }

  lemma EmitKeeps(w: Writer, fs: seq<Frame>, isPadding: bool, direct: bool, rest: Bytes)
    requires Inv(w) && w.isPadding && Grammar(fs)
    requires Terminated(fs) == !isPadding && (Terminated(fs) ==> direct == (fs[|fs| - 1].command == DIRECT))
    requires direct ==> !isPadding
    requires rest != [] ==> Terminated(fs) && !direct
    ensures Inv(Emit(w, fs, isPadding, direct, rest))
    ensures Sent(Emit(w, fs, isPadding, direct, rest)) == Contents(w.frames) + (Contents(fs) + rest)
  {
    assert [] + rest == rest;
    AppendGrammar(w.frames, fs);
    ContentsAppend(w.frames, fs);
    SentIs(w.frames + fs, Contents(w.frames), Contents(fs), rest);
  }

  lemma MadeGrammar(cs: seq<Choice>, d: Control, pieces: seq<Bytes>, paddings: seq<Bytes>)
    requires |cs| <= |pieces| && |cs| == |paddings| && WellPlanned(cs, d, |pieces|)
    requires forall i | 0 <= i < |pieces| :: |pieces[i]| <= SIZE
    requires forall i | 0 <= i < |paddings| :: |paddings[i]| < SIZE
    ensures var fs := MakeFrames(cs, pieces, paddings);
            && Grammar(fs)
            && Terminated(fs) == !d.isPadding
            && (Terminated(fs) ==> d.direct == (fs[|fs| - 1].command == DIRECT))
            && (d.direct ==> !d.isPadding)
            && (|fs| < |pieces| ==> Terminated(fs) && !d.direct)
  {
    var fs := MakeFrames(cs, pieces, paddings);
    assert forall i | 0 <= i < |fs| :: fs[i] == Frame(cs[i].command, pieces[i], paddings[i]);
  }

  lemma DataKeeps(w: Writer, copyEnabled: bool, c: Call)
    requires Inv(w) && w.isPadding && c.data.Pieces? && IsCall(c, copyEnabled)
    ensures Inv(Write(w, copyEnabled, c))
    ensures Sent(Write(w, copyEnabled, c)) == Contents(w.frames) + Join(c.data.pieces)
  {
    var shaped := Reshape(c.data.pieces);
    ReshapeFits(c.data.pieces);
    var (cs, d) := CallPlan(c, copyEnabled);
    PlanGrammar(c.filter, copyEnabled, Records.WholeRecords(Join(c.data.pieces)), shaped, Control(true, false, c.filter.tls));
    var fs := MakeFrames(cs, shaped, c.paddings);
    var rest := Join(shaped[|cs|..]);
    MadeGrammar(cs, d, shaped, c.paddings);
    assert |fs| == |shaped| ==> rest == [] by {
      assert |fs| == |shaped| ==> shaped[|cs|..] == [];
    }
    FramesOf(cs, shaped, c.paddings);
    EmitKeeps(w, fs, d.isPadding, d.direct, rest);
  }

  /** One call keeps the form, and adds exactly the data it was given, in order. */
  lemma WriteKeeps(w: Writer, copyEnabled: bool, c: Call)
    requires Inv(w) && IsCall(c, copyEnabled)
    ensures Inv(Write(w, copyEnabled, c))
    ensures Sent(Write(w, copyEnabled, c)) == Sent(w) + Payload(c.data)
    ensures !w.isPadding ==> Write(w, copyEnabled, c).frames == w.frames
    ensures w.frames <= Write(w, copyEnabled, c).frames
  {
    var v := MoveOn(w);
    if !v.isPadding {
      assert Sent(w) + Payload(c.data) == Contents(w.frames) + w.tail + (w.raw + Payload(c.data));
      if !v.onRaw {
        assert w.raw == [] && Sent(w) == Contents(w.frames) + w.tail;
        assert Contents(w.frames) + (w.tail + Payload(c.data)) + [] == Sent(w) + Payload(c.data);
      }
    } else {
      assert w.tail == [] && w.raw == [] && !v.onRaw;
      assert Sent(w) == Contents(w.frames);
      if c.data.Nil? {
        NilKeeps(w, c.paddings[0]);
      } else {
        DataKeeps(w, copyEnabled, c);
      }
    }
  }

  /** The bytes that the framed connection has carried: nothing at all before the first frame. */
  function OuterWire(uuid: Bytes, w: Writer): Bytes
    requires Inv(w)
  {
    if w.frames == [] then [] else uuid + EncodeAll(w.frames) + w.tail
  }

  /** Zero bytes, as many as some random number asks for. */
  ghost predicate PaddingDrawn(padding: Bytes, content: nat, longPadding: bool, seed: seq<int>)
    requires IsSeed(seed)
  {
    padding == Zeros(|padding|) && |padding| < SIZE && Drawn(|padding|, content, longPadding, seed)
  }

  /** The frames that a plan makes of the pieces, with padding drawn as the plan says. */
  ghost predicate FramesMatch(fs: seq<Frame>, cs: seq<Choice>, pieces: seq<Bytes>, seed: seq<int>)
    requires IsSeed(seed)
  {
    && |fs| == |cs| <= |pieces|
    && forall i | 0 <= i < |fs| ::
      && Fits(fs[i])
      && fs[i].command == cs[i].command && fs[i].content == pieces[i]
      && PaddingDrawn(fs[i].padding, |pieces[i]|, cs[i].longPadding, seed)
  }

  /** What a call asks for, and how far the loop over its pieces has come. */
  datatype Job = Job(f: F.Filter, copyEnabled: bool, complete: bool, pieces: seq<Bytes>, seed: seq<int>, uuid: Bytes) {
    function PlanAt(i: nat, c: Control): (seq<Choice>, Control)
      requires i <= |pieces|
    {
      Plan(f, copyEnabled, complete, pieces[i..], c)
    }

    function TurnAt(i: nat, c: Control): (Choice, Control, bool)
      requires i < |pieces|
    {
      Turn(f, copyEnabled, complete, pieces[i], i == |pieces| - 1, c)
    }
  }

  datatype Progress = Progress(cs: seq<Choice>, fs: seq<Frame>, wire: seq<Bytes>, c: Control, stop: bool)

  function Prefixed(cs: seq<Choice>, plan: (seq<Choice>, Control)): (seq<Choice>, Control) {
    (cs + plan.0, plan.1)
  }

  /** The UUID stands in front of the first frame, and nowhere if there is none. */
  function FrameBytes(uuid: Bytes, fs: seq<Frame>): Bytes
    requires forall f | f in fs :: Fits(f)
  {
    if fs == [] then [] else uuid + EncodeAll(fs)
  }

  /** The frames made so far are the first ones of the plan that the loop started with. */
  ghost predicate OnPlan(j: Job, c0: Control, p: Progress)
    requires IsSeed(j.seed)
  {
    && |p.wire| == |p.fs| && FramesMatch(p.fs, p.cs, j.pieces, j.seed)
    && Join(p.wire) == FrameBytes(j.uuid, p.fs)
    && j.PlanAt(0, c0) == if p.stop then (p.cs, p.c) else Prefixed(p.cs, j.PlanAt(|p.cs|, p.c))
  }

  lemma StartOnPlan(j: Job, c0: Control)
    requires IsSeed(j.seed)
    ensures OnPlan(j, c0, Progress([], [], [], c0, false))
  {
    assert [] + j.PlanAt(0, c0).0 == j.PlanAt(0, c0).0;
  }

  lemma MatchSnoc(fs: seq<Frame>, cs: seq<Choice>, pieces: seq<Bytes>, seed: seq<int>, f: Frame, choice: Choice)
    requires IsSeed(seed) && FramesMatch(fs, cs, pieces, seed) && |fs| < |pieces|
    requires Fits(f) && f.command == choice.command && f.content == pieces[|fs|]
    requires PaddingDrawn(f.padding, |f.content|, choice.longPadding, seed)
    ensures FramesMatch(fs + [f], cs + [choice], pieces, seed)
  {
  }

  lemma PrefixedStep(cs: seq<Choice>, choice: Choice, plan: (seq<Choice>, Control))
    ensures Prefixed(cs, ([choice] + plan.0, plan.1)) == Prefixed(cs + [choice], plan)
    ensures Prefixed(cs, ([choice], plan.1)) == (cs + [choice], plan.1)
  {
    assert cs + ([choice] + plan.0) == cs + [choice] + plan.0;
  }

  lemma FrameBytesSnoc(uuid: Bytes, fs: seq<Frame>, f: Frame)
    requires Fits(f) && forall g | g in fs :: Fits(g)
    ensures FrameBytes(uuid, fs + [f]) == FrameBytes(uuid, fs) + ((if fs == [] then uuid else []) + Encode(f))
  {
    EncodeAllSnoc(fs, f);
    if fs != [] {
      assert [] + Encode(f) == Encode(f);
    }
  }

  lemma StayOnPlan(j: Job, c0: Control, p: Progress, f: Frame, data: Bytes)
    requires IsSeed(j.seed) && OnPlan(j, c0, p) && !p.stop && |p.fs| < |j.pieces|
    requires Fits(f) && f.content == j.pieces[|p.fs|]
    requires data == (if p.fs == [] then j.uuid else []) + Encode(f)
    requires var (choice, d, stop) := j.TurnAt(|p.fs|, p.c);
             f.command == choice.command && PaddingDrawn(f.padding, |f.content|, choice.longPadding, j.seed)
    ensures var (choice, d, stop) := j.TurnAt(|p.fs|, p.c);
            OnPlan(j, c0, Progress(p.cs + [choice], p.fs + [f], p.wire + [data], d, stop))
  {
    var (choice, d, stop) := j.TurnAt(|p.fs|, p.c);
    PlanFrom(j.f, j.copyEnabled, j.complete, j.pieces, |p.fs|, p.c);
    PrefixedStep(p.cs, choice, if stop then ([], d) else j.PlanAt(|p.fs| + 1, d));
    FrameBytesSnoc(j.uuid, p.fs, f);
    JoinSnoc(p.wire, data);
    MatchSnoc(p.fs, p.cs, j.pieces, j.seed, f, choice);
  }

  /** Where the loop ends, by break or at the last piece, the plan has been carried out. */
  lemma EndOfPlan(j: Job, c0: Control, p: Progress)
    requires IsSeed(j.seed) && OnPlan(j, c0, p) && (p.stop || |p.fs| == |j.pieces|)
    ensures j.PlanAt(0, c0) == (p.cs, p.c)
    ensures Join(p.wire + j.pieces[|p.cs|..]) == FrameBytes(j.uuid, p.fs) + Join(j.pieces[|p.cs|..])
  {
    JoinAppend(p.wire, j.pieces[|p.cs|..]);
    if !p.stop {
      assert j.pieces[|p.cs|..] == [] && p.cs + [] == p.cs;
    }
  }

  function Paddings(fs: seq<Frame>): (ps: seq<Bytes>)
    ensures |ps| == |fs| && forall i | 0 <= i < |fs| :: ps[i] == fs[i].padding
  {
    seq(|fs|, i requires 0 <= i < |fs| => fs[i].padding)
  }

  lemma MatchIsMade(fs: seq<Frame>, cs: seq<Choice>, pieces: seq<Bytes>, seed: seq<int>)
    requires IsSeed(seed) && FramesMatch(fs, cs, pieces, seed)
    ensures MakeFrames(cs, pieces, Paddings(fs)) == fs
    ensures forall i | 0 <= i < |fs| :: |Paddings(fs)[i]| < SIZE
  {
  }

  /** What a call of a padding writer adds to the framed connection. */
  lemma EmitWire(uuid: Bytes, w: Writer, fs: seq<Frame>, isPadding: bool, direct: bool, rest: Bytes)
    requires Inv(w) && w.isPadding && Inv(Emit(w, fs, isPadding, direct, rest))
    requires forall f | f in fs :: Fits(f)
    requires fs == [] ==> rest == []
    ensures OuterWire(uuid, Emit(w, fs, isPadding, direct, rest))
         == OuterWire(uuid, w) + (FrameBytes(if w.frames == [] then uuid else [], fs) + rest)
  {
    if fs == [] {
      assert w.frames + fs == w.frames;
      assert w.tail + [] == w.tail;
      assert OuterWire(uuid, w) + ([] + []) == OuterWire(uuid, w);
    } else {
      EncodeAllAppend(w.frames, fs);
      Unit(rest);
      if w.frames == [] {
        assert w.frames + fs == fs;
        Unit(uuid + EncodeAll(fs) + rest);
      } else {
        Unit(uuid + EncodeAll(w.frames));
        Unit(EncodeAll(fs));
        Reassociate(uuid, EncodeAll(w.frames), EncodeAll(fs));
        Reassociate(uuid + EncodeAll(w.frames), EncodeAll(fs), rest);
      }
    }
  }

  lemma MatchFits(fs: seq<Frame>, cs: seq<Choice>, pieces: seq<Bytes>, seed: seq<int>)
    requires IsSeed(seed) && FramesMatch(fs, cs, pieces, seed)
    ensures forall f | f in fs :: Fits(f)
  {
  }

  /** The paddings of a call are zero bytes, as many as its choices and random numbers ask for. */
  ghost predicate PaddingsDrawn(c: Call, copyEnabled: bool, seed: seq<int>)
    requires IsSeed(seed) && IsCall(c, copyEnabled)
  {
    match c.data
    case Nil => PaddingDrawn(c.paddings[0], 0, true, seed)
    case Pieces(ps) =>
      var cs := CallPlan(c, copyEnabled).0;
      FramesMatch(MakeFrames(cs, Reshape(ps), c.paddings), cs, Reshape(ps), seed)
  }

  /** Nothing is framed any more: data goes to the connection as it is. */
  lemma PlainWire(uuid: Bytes, w: Writer, copyEnabled: bool, f: F.Filter, d: Data)
    requires Inv(w) && !w.direct && !w.isPadding && F.Inv(f)
    requires d.Pieces? ==> forall i | 0 <= i < |d.pieces| :: |d.pieces[i]| <= SIZE
    ensures IsCall(Unpadded(f, d, copyEnabled), copyEnabled)
    ensures var z := Write(w, copyEnabled, Unpadded(f, d, copyEnabled));
            && Inv(z) && !z.isPadding && !z.direct && z.onRaw == w.onRaw && z.frames == w.frames && w.frames != []
            && z.raw == w.raw + (if w.onRaw then Payload(d) else [])
            && OuterWire(uuid, z) == OuterWire(uuid, w) + if w.onRaw then [] else Payload(d)
  {
    WriteKeeps(w, copyEnabled, Unpadded(f, d, copyEnabled));
    Unit(w.raw);
    Unit(OuterWire(uuid, w));
    if !w.onRaw {
      Reassociate(uuid + EncodeAll(w.frames), w.tail, Payload(d));
    }
  }

  lemma NilWire(uuid: Bytes, w: Writer, f: Frame)
    requires Inv(w) && w.isPadding && f.command == CONTINUE && f.content == [] && |f.padding| < SIZE
    ensures var z := w.(frames := w.frames + [f]);
            Inv(z) && OuterWire(uuid, z) == OuterWire(uuid, w) + ((if w.frames == [] then uuid else []) + Encode(f))
  {
    var u := if w.frames == [] then uuid else [];
    NilKeeps(w, f.padding);
    assert w.tail == [] && w.tail + [] == w.tail;
    EmitWire(uuid, w, [f], true, w.direct, []);
    assert EncodeAll([f]) == Encode(f) + EncodeAll([f][1..]);
    assert FrameBytes(u, [f]) + [] == u + Encode(f);
  }

  /** The loop has carried out the call's plan. */
  lemma DataWire(uuid: Bytes, w: Writer, copyEnabled: bool, c: Call, cs: seq<Choice>, fs: seq<Frame>, seed: seq<int>)
    requires Inv(w) && w.isPadding && c.data.Pieces? && F.Inv(c.filter) && IsSeed(seed)
    requires forall i | 0 <= i < |c.data.pieces| :: |c.data.pieces[i]| <= SIZE
    requires cs == CallPlan(c, copyEnabled).0 && FramesMatch(fs, cs, Reshape(c.data.pieces), seed)
    requires c.paddings == Paddings(fs)
    ensures IsCall(c, copyEnabled) && PaddingsDrawn(c, copyEnabled, seed)
    ensures var z := Write(w, copyEnabled, c);
            var rest := Join(Reshape(c.data.pieces)[|cs|..]);
            && Inv(z) && z == Emit(w, fs, CallPlan(c, copyEnabled).1.isPadding, CallPlan(c, copyEnabled).1.direct, rest)
            && (forall f | f in fs :: Fits(f))
            && OuterWire(uuid, z) == OuterWire(uuid, w) + (FrameBytes(if w.frames == [] then uuid else [], fs) + rest)
  {
    var shaped := Reshape(c.data.pieces);
    var d := CallPlan(c, copyEnabled).1;
    MatchIsMade(fs, cs, shaped, seed);
    MatchFits(fs, cs, shaped, seed);
    WriteKeeps(w, copyEnabled, c);
    PlanGrammar(c.filter, copyEnabled, Records.WholeRecords(Join(c.data.pieces)), shaped, Control(true, false, c.filter.tls));
    if fs == [] {
      assert !Ends(cs, END);
      assert shaped[|cs|..] == [];
    }
    EmitWire(uuid, w, fs, d.isPadding, d.direct, Join(shaped[|cs|..]));
  }

  // ---- A call of a padding writer, told from the bytes it is given ----

  /** The frames and flags that a padding writer has after a call; what is not framed is sent as it is. */
  lemma WriteExact(w: Writer, copyEnabled: bool, c: Call)
    requires Inv(w) && w.isPadding && c.data.Pieces? && IsCall(c, copyEnabled)
    ensures var z, shaped, complete := Write(w, copyEnabled, c), Reshape(c.data.pieces), Records.IsRecordStream(Join(c.data.pieces));
            var cs := CallPlan(c, copyEnabled).0;
            && |cs| <= |shaped| && z.frames == w.frames + MakeFrames(cs, shaped, c.paddings)
            && z.tail == Join(shaped[|cs|..]) && z.raw == []
            && PlannedFrom(c.filter, copyEnabled, complete, shaped, 0, cs, z.isPadding, z.direct)
  {
    hide PlannedFrom, Records.IsRecordStream, MakeFrames, Plan;
    Records.RecordsExact(Join(c.data.pieces));
    var shaped := Reshape(c.data.pieces);
    PlanExact(c.filter, copyEnabled, Records.WholeRecords(Join(c.data.pieces)), shaped);
    WriteKeeps(w, copyEnabled, c);
    assert w.tail == [] && w.raw == [] && !w.onRaw;
    Unit(Join(shaped[|CallPlan(c, copyEnabled).0|..]));
  }

  /** Bytes that are not whole records keep padding going, unless it is about to be given up anyway. */
  lemma IncompleteKeepsPadding(w: Writer, copyEnabled: bool, c: Call)
    requires Inv(w) && w.isPadding && c.data.Pieces? && IsCall(c, copyEnabled)
    requires !Records.IsRecordStream(Join(c.data.pieces)) && (c.filter.tls12 || c.filter.packets > 1)
    ensures var z := Write(w, copyEnabled, c);
            && z.isPadding && !z.direct && z.tail == [] && w.frames <= z.frames
            && |z.frames| == |w.frames| + |Reshape(c.data.pieces)|
            && forall j | |w.frames| <= j < |z.frames| :: z.frames[j].command == 0
  {
    WriteExact(w, copyEnabled, c);
  }

  /** Whole records of which a piece opens application data end padding, with Direct exactly if Xtls is enabled. */
  lemma RecordsEndPadding(w: Writer, copyEnabled: bool, c: Call, i: nat)
    requires Inv(w) && w.isPadding && c.data.Pieces? && IsCall(c, copyEnabled)
    requires Records.IsRecordStream(Join(c.data.pieces)) && c.filter.tls && (c.filter.enableXtls ==> copyEnabled)
    requires i < |Reshape(c.data.pieces)| && |Reshape(c.data.pieces)[i]| >= 6
    requires var p := Reshape(c.data.pieces)[i]; p[0] == 0x17 && p[1] == 0x03 && p[2] == 0x03
    ensures var z := Write(w, copyEnabled, c);
            && !z.isPadding && z.direct == c.filter.enableXtls && |z.frames| > |w.frames|
            && z.frames[|z.frames| - 1].command == if c.filter.enableXtls then 2 else 1
  {
    WriteExact(w, copyEnabled, c);
    var shaped, cs := Reshape(c.data.pieces), CallPlan(c, copyEnabled).0;
    assert IsData(c.filter, true, shaped[i]);
    if |cs| < |shaped| {
      assert GivesUp(c.filter, true, shaped[|cs| - 1]);
    }
  }

  /** The nil buffer becomes one empty Continue frame. */
  lemma NilExact(w: Writer, copyEnabled: bool, c: Call)
    requires Inv(w) && w.isPadding && c.data.Nil? && IsCall(c, copyEnabled)
    ensures Write(w, copyEnabled, c) == w.(frames := w.frames + [Frame(0, [], c.paddings[0])])
  {
  }

  /** How much padding the frames of a call have; that of the nil buffer is long. */
  lemma PaddingsExact(c: Call, copyEnabled: bool, seed: seq<int>)
    requires IsSeed(seed) && IsCall(c, copyEnabled) && PaddingsDrawn(c, copyEnabled, seed)
    ensures c.data.Nil? ==> |c.paddings| == 1 && c.paddings[0] == Zeros(|c.paddings[0]|) && Drawn(|c.paddings[0]|, 0, true, seed)
    ensures c.data.Pieces? ==>
      var shaped, complete := Reshape(c.data.pieces), Records.IsRecordStream(Join(c.data.pieces));
      && |c.paddings| <= |shaped|
      && forall j | 0 <= j < |c.paddings| ::
        && c.paddings[j] == Zeros(|c.paddings[j]|)
        && Drawn(|c.paddings[j]|, |shaped[j]|, IsData(c.filter, complete, shaped[j]) || LongAt(c.filter, copyEnabled, complete, shaped, j), seed)
  {
    if c.data.Pieces? {
      Records.RecordsExact(Join(c.data.pieces));
      var shaped, cs := Reshape(c.data.pieces), CallPlan(c, copyEnabled).0;
      PlanExact(c.filter, copyEnabled, Records.WholeRecords(Join(c.data.pieces)), shaped);
      var fs := MakeFrames(cs, shaped, c.paddings);
      forall j | 0 <= j < |c.paddings|
        ensures c.paddings[j] == Zeros(|c.paddings[j]|) && Drawn(|c.paddings[j]|, |shaped[j]|, cs[j].longPadding, seed)
      {
        assert fs[j] == Frame(cs[j].command, shaped[j], c.paddings[j]);
      }
    }
  }

  // ---- Whole runs of one writer ----

  function WriteAll(w: Writer, copyEnabled: bool, calls: seq<Call>): Writer
    requires forall c | c in calls :: IsCall(c, copyEnabled)
    decreases |calls|
  {
    if calls == [] then w else WriteAll(Write(w, copyEnabled, calls[0]), copyEnabled, calls[1..])
  }

  function Given(calls: seq<Call>): Bytes {
    if calls == [] then [] else Payload(calls[0].data) + Given(calls[1..])
  }

  /**
   Any run of one writer, with any state of the filter at each call: Continue*, then at most one End or
   Direct; padding stops exactly with it; Direct exactly when the writer moves to the raw connection;
   and nothing that was given is lost, repeated or reordered.
   */
  lemma {:induction false} WriterRun(w: Writer, copyEnabled: bool, calls: seq<Call>)
    requires Inv(w) && forall c | c in calls :: IsCall(c, copyEnabled)
    ensures Inv(WriteAll(w, copyEnabled, calls))
    ensures Sent(WriteAll(w, copyEnabled, calls)) == Sent(w) + Given(calls)
    ensures !w.isPadding ==> WriteAll(w, copyEnabled, calls).frames == w.frames
    decreases |calls|
  {
    hide Inv, IsCall, Sent, CallPlan, MakeFrames;
    if calls == [] {
      assert Sent(w) + [] == Sent(w);
    } else {
      var v := Write(w, copyEnabled, calls[0]);
      WriteKeeps(w, copyEnabled, calls[0]);
      WriterRun(v, copyEnabled, calls[1..]);
      assert Sent(w) + Payload(calls[0].data) + Given(calls[1..]) == Sent(w) + (Payload(calls[0].data) + Given(calls[1..]));
    }
  }

  lemma {:induction false} NoDirectPlan(f: F.Filter, complete: bool, pieces: seq<Bytes>, c: Control)
    requires !c.direct
    ensures !Plan(f, false, complete, pieces, c).1.direct
    decreases |pieces|
  {
    if pieces != [] {
      NoDirectPlan(f, complete, pieces[1..], Turn(f, false, complete, pieces[0], |pieces| == 1, c).1);
    }
  }

  /** With direct copy switched off, no writer ever leaves the framed connection. */
  lemma {:induction false} NoDirectWhenDisabled(w: Writer, calls: seq<Call>)
    requires Inv(w) && !w.direct && !w.onRaw && forall c | c in calls :: IsCall(c, false)
    ensures var z := WriteAll(w, false, calls); !z.direct && !z.onRaw && z.raw == []
    decreases |calls|
  {
    if calls != [] {
      var c := calls[0];
      WriteKeeps(w, false, c);
      if w.isPadding && c.data.Pieces? {
        NoDirectPlan(c.filter, Records.WholeRecords(Join(c.data.pieces)), Reshape(c.data.pieces), Control(true, false, c.filter.tls));
      }
      NoDirectWhenDisabled(Write(w, false, c), calls[1..]);
    }
  }
}
