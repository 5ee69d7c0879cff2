/**
 XtlsPadding and ReshapeMultiBuffer: cutting buffers so that a frame fits, and making the frame.
 */
module Padding {
  import opened Bytes
  import opened Buffers
  import opened Frames
  import F = Filter

  /** What a frame adds to its content: UUID and header. */
  const OVERHEAD := 21

  // ---- How much padding ----

  /** int32(x), which keeps the low 32 bits. */
  function Int32(x: int): int {
    (x + 0x8000_0000) % 0x1_0000_0000 - 0x8000_0000
  }

  /** The numbers of testseed: at least four, of 32 bits each. */
  predicate IsSeed(seed: seq<int>) {
    |seed| >= 4 && forall i | 0 <= i < 4 :: 0 <= seed[i] < 0x1_0000_0000
  }

  const DEFAULT_SEED := [900, 500, 900, 256]

  predicate IsLong(content: nat, longPadding: bool, seed: seq<int>)
    requires IsSeed(seed)
  {
    content < Int32(seed[0]) && longPadding
  }

  function RandomBound(content: nat, longPadding: bool, seed: seq<int>): int
    requires IsSeed(seed)
  {
    if IsLong(content, longPadding, seed) then seed[1] else seed[3]
  }

  /** paddingLen for the random number `l`. */
  function PaddingLength(content: nat, longPadding: bool, seed: seq<int>, l: int): int
    requires IsSeed(seed)
  {
    var n := if IsLong(content, longPadding, seed) then Int32(Int32(Int32(l) + Int32(seed[2])) - content) else Int32(l);
    if n > SIZE - OVERHEAD - content then SIZE - OVERHEAD - content else n
  }

  /** Some random number gives this much padding. */
  ghost predicate Drawn(n: int, content: nat, longPadding: bool, seed: seq<int>)
    requires IsSeed(seed)
  {
    exists l :: 0 <= l < RandomBound(content, longPadding, seed) && PaddingLength(content, longPadding, seed, l) == n
  }

  /** The seeds that always give rand.Int a positive bound, and never ask for a negative amount of padding. */
  predicate SafeSeed(seed: seq<int>)
    requires IsSeed(seed)
  {
    && 0 < seed[3] <= 0x8000_0000
    && (Int32(seed[0]) <= 0 ||
        (Int32(seed[2]) >= Min(Int32(seed[0]) - 1, SIZE - OVERHEAD) && 0 < seed[1] && seed[1] - 1 + seed[2] < 0x8000_0000))
  }

  /** Padding this content never stops the program, in rand.Int or in Extend. */
  ghost predicate NeverStops(seed: seq<int>, content: nat, longPadding: bool)
    requires IsSeed(seed)
  {
    RandomBound(content, longPadding, seed) > 0 && forall n | Drawn(n, content, longPadding, seed) :: n >= 0
  }

  lemma SafeIsEnough(seed: seq<int>, content: nat, longPadding: bool, l: int)
    requires IsSeed(seed) && SafeSeed(seed) && content <= SIZE - OVERHEAD
    ensures RandomBound(content, longPadding, seed) > 0
    ensures 0 <= l < RandomBound(content, longPadding, seed) ==>
      0 <= PaddingLength(content, longPadding, seed, l) <= SIZE - OVERHEAD - content
  {
    if 0 <= l < RandomBound(content, longPadding, seed) && IsLong(content, longPadding, seed) {
      assert Int32(seed[2]) == seed[2];
      assert Int32(l) == l;
    }
  }

  lemma Int32Is(x: int)
    ensures -0x8000_0000 <= x < 0x8000_0000 ==> Int32(x) == x
    ensures 0x8000_0000 <= x < 0x1_8000_0000 ==> Int32(x) == x - 0x1_0000_0000
  {
  }

  /** Short padding for no content goes wrong with the fourth number, if at all. */
  lemma UnsafeShort(seed: seq<int>) returns (l: int)
    requires IsSeed(seed) && !(0 < seed[3] <= 0x8000_0000)
    ensures RandomBound(0, false, seed) <= 0 || (0 <= l < RandomBound(0, false, seed) && PaddingLength(0, false, seed, l) < 0)
  {
    l := 0x8000_0000;
    Int32Is(l);
  }

  lemma UnsafeLong(seed: seq<int>) returns (content: nat, l: int)
    requires IsSeed(seed) && !SafeSeed(seed) && 0 < seed[3] <= 0x8000_0000
    ensures content <= SIZE - OVERHEAD
    ensures RandomBound(content, true, seed) <= 0 ||
      (0 <= l < RandomBound(content, true, seed) && PaddingLength(content, true, seed, l) < 0)
  {
    hide Int32;
    var most := Min(Int32(seed[0]) - 1, SIZE - OVERHEAD);
    content, l := 0, 0;
    Int32Is(seed[0]);
    Int32Is(seed[2]);
    if seed[1] > 0 {
      if Int32(seed[2]) < most {
        content := if Int32(seed[2]) < 0 then 0 else most;
      } else {
        l := if seed[1] > 0x8000_0000 then 0x8000_0000 else seed[1] - 1;
      }
    }
    Int32Is(l);
    Int32Is(Int32(l) + Int32(seed[2]));
    Int32Is(Int32(Int32(l) + Int32(seed[2])) - content);
  }

  lemma UnsafeStops(seed: seq<int>) returns (content: nat, longPadding: bool, l: int)
    requires IsSeed(seed) && !SafeSeed(seed)
    ensures content <= SIZE - OVERHEAD
    ensures RandomBound(content, longPadding, seed) <= 0 ||
      (0 <= l < RandomBound(content, longPadding, seed) && PaddingLength(content, longPadding, seed, l) < 0)
  {
    if 0 < seed[3] <= 0x8000_0000 {
      longPadding := true;
      content, l := UnsafeLong(seed);
    } else {
      content, longPadding := 0, false;
      l := UnsafeShort(seed);
    }
  }

  lemma SafeNeverStops(seed: seq<int>, content: nat, longPadding: bool)
    requires IsSeed(seed) && SafeSeed(seed) && content <= SIZE - OVERHEAD
    ensures NeverStops(seed, content, longPadding)
  {
    SafeIsEnough(seed, content, longPadding, -1);
    forall n | Drawn(n, content, longPadding, seed)
      ensures n >= 0
    {
      var l :| 0 <= l < RandomBound(content, longPadding, seed) && PaddingLength(content, longPadding, seed, l) == n;
      SafeIsEnough(seed, content, longPadding, l);
    }
  }

  /** No content that fits a frame stops the program iff the seed is safe. */
  lemma SafeSeedExact(seed: seq<int>)
    requires IsSeed(seed)
    ensures (forall content: nat, longPadding | content <= SIZE - OVERHEAD :: NeverStops(seed, content, longPadding)) <==> SafeSeed(seed)
  {
    if SafeSeed(seed) {
      forall content: nat, longPadding | content <= SIZE - OVERHEAD
        ensures NeverStops(seed, content, longPadding)
      {
        SafeNeverStops(seed, content, longPadding);
      }
    } else {
      var content, longPadding, l := UnsafeStops(seed);
      if RandomBound(content, longPadding, seed) > 0 {
        assert Drawn(PaddingLength(content, longPadding, seed, l), content, longPadding, seed);
      }
      assert !NeverStops(seed, content, longPadding);
    }
  }

  /** The amounts of padding that a safe seed allows, as ranges; what does not fit the buffer becomes the room there is. */
  lemma DrawnExact(n: int, content: nat, longPadding: bool, seed: seq<int>)
    requires IsSeed(seed) && SafeSeed(seed) && content <= 8192 - 21
    ensures var long := longPadding && seed[0] < 0x8000_0000 && content < seed[0];
            var least := if long then seed[2] - content else 0;
            var range := if long then seed[1] else seed[3];
            var room := 8192 - 21 - content;
            Drawn(n, content, longPadding, seed) <==> (least <= n < least + range && n <= room) || (n == room < least + range - 1)
  {
    Int32Is(seed[0]);
    Int32Is(seed[2]);
    var long := IsLong(content, longPadding, seed);
    var least := if long then seed[2] - content else 0;
    var range, room := RandomBound(content, longPadding, seed), SIZE - OVERHEAD - content;
    forall l | 0 <= l < range
      ensures PaddingLength(content, longPadding, seed, l) == Min(least + l, room)
    {
      Int32Is(l);
      Int32Is(l + seed[2]);
      Int32Is(l + seed[2] - content);
    }
    if least <= n < least + range && n <= room {
      assert PaddingLength(content, longPadding, seed, n - least) == n;
    }
    if n == room < least + range - 1 {
      assert PaddingLength(content, longPadding, seed, range - 1) == n;
    }
  }

  lemma DefaultSeedIsSafe()
    ensures IsSeed(DEFAULT_SEED) && SafeSeed(DEFAULT_SEED)
  {
  }

  // ---- Cutting buffers ----

  /** Where a buffer that is too long is cut: at the last record that starts in range, or in the middle. */
  function CutIndex(data: Bytes): (i: nat)
    requires |data| >= SIZE - OVERHEAD
    ensures OVERHEAD <= i <= SIZE - OVERHEAD && i <= |data|
  {
    var i := LastIndex(data, F.TLS_APPLICATION_DATA_START);
    if i < OVERHEAD || i > SIZE - OVERHEAD then SIZE / 2 else i
  }

  /** The bytes 23, 3, 3 stand at position `i`. */
  predicate RecordAt(data: Bytes, i: int) {
    0 <= i <= |data| - 3 && data[i] == 23 && data[i + 1] == 3 && data[i + 2] == 3
  }

  lemma RecordOccurs(data: Bytes, i: int)
    ensures RecordAt(data, i) <==> OccursAt(data, F.TLS_APPLICATION_DATA_START, i)
  {
    if 0 <= i <= |data| - 3 {
      assert data[i..i + 3] == [data[i], data[i + 1], data[i + 2]];
    }
  }

  /** The cut is at the last record header, if that lies between 21 and 8171, and otherwise in the middle. */
  lemma CutExact(data: Bytes, i: int)
    requires |data| >= 8192 - 21
    ensures RecordAt(data, i) && (forall k :: RecordAt(data, k) ==> k <= i) ==>
      CutIndex(data) == if 21 <= i <= 8192 - 21 then i else 4096
    ensures (forall k :: !RecordAt(data, k)) ==> CutIndex(data) == 4096
  {
    forall k
      ensures RecordAt(data, k) <==> OccursAt(data, F.TLS_APPLICATION_DATA_START, k)
    {
      RecordOccurs(data, k);
    }
  }

  function Take(data: Bytes, n: nat): Bytes {
    data[..Min(|data|, n)]
  }

  /** One buffer, or two; the second is a new buffer, which holds `SIZE` bytes and no more. */
  function ReshapeOne(data: Bytes): seq<Bytes> {
    if |data| >= SIZE - OVERHEAD then [data[..CutIndex(data)], Take(data[CutIndex(data)..], SIZE)] else [data]
  }

  function Reshape(pieces: seq<Bytes>): seq<Bytes> {
    if pieces == [] then [] else ReshapeOne(pieces[0]) + Reshape(pieces[1..])
  }

  /** Nothing is cut off by the capacity of the new buffer. */
  predicate Lossless(data: Bytes) {
    |data| >= SIZE - OVERHEAD ==> |data| - CutIndex(data) <= SIZE
  }

  lemma JoinTwo(a: Bytes, b: Bytes)
    ensures Join([a, b]) == a + b
  {
    assert [a, b][1..] == [b];
    JoinOne(b);
  }

  lemma ReshapeOneJoin(d: Bytes)
    ensures |Join(ReshapeOne(d))| <= |d|
    ensures |Join(ReshapeOne(d))| == |d| <==> Lossless(d)
    ensures Lossless(d) ==> Join(ReshapeOne(d)) == d
  {
    hide CutIndex;
    if |d| >= SIZE - OVERHEAD {
      var i := CutIndex(d);
      JoinTwo(d[..i], Take(d[i..], SIZE));
      assert d[..i] + d[i..] == d;
    } else {
      JoinOne(d);
    }
  }

  lemma {:induction false} ReshapeLength(pieces: seq<Bytes>)
    ensures |Join(Reshape(pieces))| <= |Join(pieces)|
    ensures |Join(Reshape(pieces))| == |Join(pieces)| <==> forall i | 0 <= i < |pieces| :: Lossless(pieces[i])
    ensures (forall i | 0 <= i < |pieces| :: Lossless(pieces[i])) ==> Join(Reshape(pieces)) == Join(pieces)
  {
    if pieces != [] {
      var d, rest := pieces[0], pieces[1..];
      ReshapeLength(rest);
      JoinAppend(ReshapeOne(d), Reshape(rest));
      ReshapeOneJoin(d);
      assert (forall i | 0 <= i < |pieces| :: Lossless(pieces[i]))
        <==> Lossless(d) && forall i | 0 <= i < |rest| :: Lossless(rest[i]) by {
        assert forall i | 0 <= i < |rest| :: rest[i] == pieces[i + 1];
      }
    }
  }

  /** A buffer of at least 8171 bytes is cut in two at that place, and any other is left as it is. */
  lemma ReshapeOneExact(data: Bytes)
    ensures |data| < 8192 - 21 ==> ReshapeOne(data) == [data]
    ensures 8192 - 21 <= |data| <= 8192 ==> ReshapeOne(data) == [data[..CutIndex(data)], data[CutIndex(data)..]]
  {
    if 8192 - 21 <= |data| <= 8192 {
      var rest := data[CutIndex(data)..];
      assert rest[..|rest|] == rest;
    }
  }

  /** Reshaping keeps the byte stream iff no buffer is so long that its second half is cut off. */
  lemma ReshapeExact(pieces: seq<Bytes>)
    ensures Join(Reshape(pieces)) == Join(pieces) <==> forall i | 0 <= i < |pieces| :: Lossless(pieces[i])
  {
    ReshapeLength(pieces);
  }

  /** From pooled buffers, every piece leaves room for its frame. */
  lemma {:induction false} ReshapeFits(pieces: seq<Bytes>)
    requires forall i | 0 <= i < |pieces| :: |pieces[i]| <= SIZE
    ensures forall i | 0 <= i < |Reshape(pieces)| :: |Reshape(pieces)[i]| <= SIZE - OVERHEAD
    ensures Join(Reshape(pieces)) == Join(pieces)
    ensures |Reshape(pieces)| >= |pieces|
  {
    if pieces != [] {
      assert forall i | 0 <= i < |pieces[1..]| :: pieces[1..][i] == pieces[i + 1];
      ReshapeFits(pieces[1..]);
      JoinAppend(ReshapeOne(pieces[0]), Reshape(pieces[1..]));
      ReshapeOneJoin(pieces[0]);
    }
  }

  // ---- The two functions ----

  /** Moves the second half of a buffer to a new one. */
  method CutBuffer(buffer1: Buffer) returns (buffer2: Buffer)
    requires buffer1.Valid() && buffer1.Len() >= SIZE - OVERHEAD
    modifies buffer1`end
    ensures fresh(buffer2) && fresh(buffer2.v) && buffer1.Valid() && buffer2.Valid()
    ensures [buffer1.Content(), buffer2.Content()] == ReshapeOne(old(buffer1.Content()))
  {
    var data := buffer1.v[buffer1.start..buffer1.end];
    var index := LastIndex(data, F.TLS_APPLICATION_DATA_START);
    if index < OVERHEAD || index > SIZE - OVERHEAD {
      index := SIZE / 2;
    }
    buffer2 := new Buffer();
    var _ := buffer2.Write(data[index..]);
    buffer1.Truncate(index);
  }

  /** One turn of the second loop. */
  method AppendReshaped(r: seq<Buffer?>, ghost pieces: seq<Bytes>, buffer1: Buffer) returns (r': seq<Buffer?>)
    requires null !in r && Holds(r, pieces) && buffer1.Valid() && buffer1 !in r
    modifies buffer1`end
    ensures null !in r' && Holds(r', pieces + ReshapeOne(old(buffer1.Content())))
    ensures forall b | b in r' :: b in r || b == buffer1 || fresh(b)
  {
    if buffer1.Len() >= SIZE - OVERHEAD {
      var buffer2 := CutBuffer(buffer1);
      r' := r + [buffer1, buffer2];
    } else {
      r' := r + [buffer1];
    }
  }

  lemma {:induction false} ReshapeNothing(pieces: seq<Bytes>)
    requires forall i | 0 <= i < |pieces| :: |pieces[i]| < SIZE - OVERHEAD
    ensures Reshape(pieces) == pieces
  {
    if pieces != [] {
      assert forall i | 0 <= i < |pieces[1..]| :: pieces[1..][i] == pieces[i + 1];
      ReshapeNothing(pieces[1..]);
    }
  }

  lemma {:induction false} ReshapeAppend(a: seq<Bytes>, b: seq<Bytes>)
    ensures Reshape(a + b) == Reshape(a) + Reshape(b)
  {
    if a == [] {
      assert a + b == b;
    } else {
      assert (a + b)[1..] == a[1..] + b;
      ReshapeAppend(a[1..], b);
    }
  }

  lemma ReshapeSnoc(pieces: seq<Bytes>, i: nat)
    requires i < |pieces|
    ensures Reshape(pieces[..i + 1]) == Reshape(pieces[..i]) + ReshapeOne(pieces[i])
  {
    assert pieces[..i + 1] == pieces[..i] + [pieces[i]];
    ReshapeAppend(pieces[..i], [pieces[i]]);
    assert Reshape([pieces[i]]) == ReshapeOne(pieces[i]) + Reshape([pieces[i]][1..]);
  }

  method ReshapeMultiBuffer(mb: seq<Buffer?>, ghost pieces: seq<Bytes>) returns (r: seq<Buffer?>)
    requires null !in mb && Holds(mb, pieces) && Separate(mb)
    modifies Objects(mb)
    ensures null !in r && Holds(r, Reshape(pieces))
    ensures forall b | b in r :: b in mb || fresh(b)
  {
    var needReshape := 0;
    for i := 0 to |mb|
      invariant needReshape >= 0
      invariant needReshape == 0 ==> forall j | 0 <= j < i :: |pieces[j]| < SIZE - OVERHEAD
    {
      assert mb[i] in mb;
      if mb[i].Len() >= SIZE - OVERHEAD {
        needReshape := needReshape + 1;
      }
    }
    if needReshape == 0 {
      ReshapeNothing(pieces);
      return mb;
    }
    r := [];
    for i := 0 to |mb|
      invariant null !in r && Holds(r, Reshape(pieces[..i]))
      invariant forall j | i <= j < |mb| :: mb[j].Valid() && mb[j].Content() == pieces[j]
      invariant forall b, j | b in r && i <= j < |mb| :: b != mb[j]
      invariant forall b | b in r :: b in mb || fresh(b)
    {
      var buffer1 := mb[i];
      assert buffer1 in mb;
      ReshapeSnoc(pieces, i);
      r := AppendReshaped(r, Reshape(pieces[..i]), buffer1);
    }
    assert pieces[..|mb|] == pieces;
  }

  /** rand.Int: any number below the bound. */
  method RandInt(bound: int) returns (l: int)
    requires bound > 0
    ensures 0 <= l < bound
  {
    l :| 0 <= l < bound;
  }

  /** Write where there is room for everything. */
  method WriteAll(b: Buffer, data: Bytes)
    requires b.Valid() && b.end + |data| <= b.v.Length
    modifies b`end, b.v
    ensures b.Valid() && b.start == old(b.start) && b.end == old(b.end) + |data|
    ensures b.Content() == old(b.Content()) + data
  {
    var _ := b.Write(data);
    assert data[..|data|] == data;
  }

  /** Header, content and padding. */
  method WriteFrame(newbuffer: Buffer, command: Byte, content: Bytes, paddingLen: nat) returns (ghost frame: Frame)
    requires |content| + paddingLen <= SIZE - OVERHEAD
    requires newbuffer.Valid() && newbuffer.v.Length == SIZE && newbuffer.end <= UUID_LENGTH
    modifies newbuffer`end, newbuffer.v
    ensures newbuffer.Valid() && frame == Frame(command, content, Zeros(paddingLen)) && Fits(frame)
    ensures newbuffer.Content() == old(newbuffer.Content()) + Encode(frame)
  {
    var contentLen := |content|;
    frame := Frame(command, content, Zeros(paddingLen));
    ghost var before := newbuffer.Content();
    var header := [command, contentLen / 256 % 256, contentLen % 256, paddingLen / 256 % 256, paddingLen % 256];
    assert header == Header(frame);
    WriteAll(newbuffer, header);
    WriteAll(newbuffer, content);
    newbuffer.Extend(paddingLen);
    assert before + header + content + Zeros(paddingLen) == before + Encode(frame);
  }

  /** How much padding; not alive: rand.Int has stopped the program. */
  method ChoosePadding(contentLen: nat, longPadding: bool, seed: seq<int>) returns (alive: bool, paddingLen: int)
    requires IsSeed(seed)
    ensures alive == (RandomBound(contentLen, longPadding, seed) > 0)
    ensures alive ==> Drawn(paddingLen, contentLen, longPadding, seed)
  {
    var l: int;
    paddingLen := 0;
    if contentLen < Int32(seed[0]) && longPadding {
      if seed[1] <= 0 {
        return false, 0;
      }
      l := RandInt(seed[1]);
      paddingLen := Int32(Int32(Int32(l) + Int32(seed[2])) - contentLen);
    } else {
      if seed[3] <= 0 {
        return false, 0;
      }
      l := RandInt(seed[3]);
      paddingLen := Int32(l);
    }
    if paddingLen > SIZE - OVERHEAD - contentLen {
      paddingLen := SIZE - OVERHEAD - contentLen;
    }
    assert paddingLen == PaddingLength(contentLen, longPadding, seed, l);
    return true, paddingLen;
  }

  lemma StopsWhen(seed: seq<int>, content: nat, longPadding: bool, alive: bool, n: int)
    requires IsSeed(seed) && alive == (RandomBound(content, longPadding, seed) > 0)
    requires alive ==> Drawn(n, content, longPadding, seed)
    ensures !alive || n < 0 ==> !SafeSeed(seed) || content > SIZE - OVERHEAD
    ensures alive && n >= 0 ==> content + n <= SIZE - OVERHEAD
  {
    if SafeSeed(seed) && content <= SIZE - OVERHEAD {
      SafeNeverStops(seed, content, longPadding);
    }
  }

  /** The new frame in a new buffer, behind the UUID if it has not been sent yet; null: the program has stopped. */
  method XtlsPadding(b: Buffer?, command: Byte, userUUID: Bytes, longPadding: bool, seed: seq<int>)
    returns (newbuffer: Buffer?, leftUUID: Bytes, ghost frame: Frame, ghost paddingLen: int)
    requires b != null ==> b.Valid()
    requires |userUUID| <= UUID_LENGTH && IsSeed(seed)
    ensures leftUUID == []
    ensures frame.command == command && frame.content == (if b == null then [] else b.Content())
    ensures RandomBound(|frame.content|, longPadding, seed) > 0 ==> Drawn(paddingLen, |frame.content|, longPadding, seed)
    ensures newbuffer == null <==> RandomBound(|frame.content|, longPadding, seed) <= 0 || paddingLen < 0
    ensures newbuffer == null ==> !SafeSeed(seed) || |frame.content| > SIZE - OVERHEAD
    ensures newbuffer != null ==>
      && fresh(newbuffer) && fresh(newbuffer.v) && newbuffer.Valid()
      && Fits(frame) && frame.padding == Zeros(paddingLen) && |frame.content| + |frame.padding| <= SIZE - OVERHEAD
      && newbuffer.Content() == userUUID + Encode(frame) && |newbuffer.Content()| <= SIZE
  {
    hide Drawn, SafeSeed, RandomBound;
    var contentLen := if b == null then 0 else b.Len();
    var content := if b == null then [] else b.v[b.start..b.end];
    var alive, n := ChoosePadding(contentLen, longPadding, seed);
    leftUUID, frame, paddingLen := [], Frame(command, content, []), n;
    StopsWhen(seed, contentLen, longPadding, alive, n);
    if !alive || n < 0 {
      return null, leftUUID, frame, paddingLen;
    }
    newbuffer := new Buffer();
    WriteAll(newbuffer, userUUID);
    frame := WriteFrame(newbuffer, command, content, n);
    assert [] + userUUID + Encode(frame) == userUUID + Encode(frame);
  }
}
