/**
 The Vision wire format: frames of command, content length, padding length, content and padding.
 The definitions here know nothing of the parser or of the writer; both are proved against them.
 */
module Frames {
  import opened Bytes

  const CONTINUE: Byte := 0
  const END: Byte := 1
  const DIRECT: Byte := 2

  const UUID_LENGTH := 16
  const HEADER_LENGTH := 5

  datatype Frame = Frame(command: Byte, content: Bytes, padding: Bytes)

  /** Both lengths fit the two bytes that carry them. */
  predicate Fits(f: Frame) {
    |f.content| < 0x1_0000 && |f.padding| < 0x1_0000
  }

  function Header(f: Frame): (r: Bytes)
    requires Fits(f)
    ensures |r| == HEADER_LENGTH
  {
    [f.command, |f.content| / 256, |f.content| % 256, |f.padding| / 256, |f.padding| % 256]
  }

  function Encode(f: Frame): (r: Bytes)
    requires Fits(f)
    ensures |r| == HEADER_LENGTH + |f.content| + |f.padding|
  {
    Header(f) + f.content + f.padding
  }

  /** The command comes first, both lengths with the high byte first, then the content, then the padding. */
  lemma EncodeBytes(f: Frame)
    requires Fits(f)
    ensures var wire: seq<int> := Encode(f);
      && wire[0] == f.command
      && wire[1] * 256 + wire[2] == |f.content| && wire[3] * 256 + wire[4] == |f.padding|
      && |wire| == 5 + |f.content| + |f.padding|
      && wire[5..5 + |f.content|] == f.content && wire[5 + |f.content|..] == f.padding
  {
  }

  function EncodeAll(fs: seq<Frame>): Bytes
    requires forall f | f in fs :: Fits(f)
  {
    if fs == [] then [] else Encode(fs[0]) + EncodeAll(fs[1..])
  }

  /** The payload that a list of frames carries. */
  function Contents(fs: seq<Frame>): Bytes {
    if fs == [] then [] else fs[0].content + Contents(fs[1..])
  }

  /** Continue* followed by at most one End or Direct. */
  predicate Grammar(fs: seq<Frame>) {
    && (forall i | 0 <= i < |fs| :: Fits(fs[i]) && fs[i].command <= DIRECT)
    && (forall i | 0 <= i < |fs| - 1 :: fs[i].command == CONTINUE)
  }

  /** Grammar(fs), and the last frame is End or Direct. */
  predicate Terminated(fs: seq<Frame>) {
    fs != [] && fs[|fs| - 1].command != CONTINUE
  }

  /** What a stream of frames followed by `tail` carries once its first `k` bytes have been read. */
  function Carried(fs: seq<Frame>, tail: Bytes, k: nat): Bytes
    requires Grammar(fs)
    requires k <= |EncodeAll(fs)| + |tail|
  {
    if fs == [] then tail[..k]
    else if k < HEADER_LENGTH then []
    else if k < HEADER_LENGTH + |fs[0].content| then fs[0].content[..k - HEADER_LENGTH]
    else if k < |Encode(fs[0])| then fs[0].content
    else fs[0].content + Carried(fs[1..], tail, k - |Encode(fs[0])|)
  }

  lemma {:induction false} EncodeAllAppend(a: seq<Frame>, b: seq<Frame>)
    requires forall f | f in a + b :: Fits(f)
    ensures (forall f | f in a :: Fits(f)) && (forall f | f in b :: Fits(f))
    ensures EncodeAll(a + b) == EncodeAll(a) + EncodeAll(b)
  {
    assert forall f | f in a :: f in a + b;
    assert forall f | f in b :: f in a + b;
    if a == [] {
      assert a + b == b;
    } else {
      assert (a + b)[1..] == a[1..] + b;
      EncodeAllAppend(a[1..], b);
    }
  }

  lemma EncodeAllSnoc(fs: seq<Frame>, f: Frame)
    requires Fits(f) && forall g | g in fs :: Fits(g)
    ensures EncodeAll(fs + [f]) == EncodeAll(fs) + Encode(f)
  {
    EncodeAllAppend(fs, [f]);
    assert EncodeAll([f]) == Encode(f) + EncodeAll([f][1..]);
  }

  lemma {:induction false} ContentsAppend(a: seq<Frame>, b: seq<Frame>)
    ensures Contents(a + b) == Contents(a) + Contents(b)
  {
    if a == [] {
      assert a + b == b;
    } else {
      assert (a + b)[1..] == a[1..] + b;
      ContentsAppend(a[1..], b);
    }
  }

  /** Once every byte has been read, the stream has carried every content and then the tail. */
  lemma {:induction false} CarriedAll(fs: seq<Frame>, tail: Bytes)
    requires Grammar(fs)
    ensures Carried(fs, tail, |EncodeAll(fs)| + |tail|) == Contents(fs) + tail
  {
    if fs != [] {
      CarriedAll(fs[1..], tail);
    }
  }

  /** Reading further only ever adds to what has been carried. */
  lemma {:induction false} CarriedGrows(fs: seq<Frame>, tail: Bytes, j: nat, k: nat)
    requires Grammar(fs)
    requires j <= k <= |EncodeAll(fs)| + |tail|
    ensures Carried(fs, tail, j) <= Carried(fs, tail, k)
    ensures |Carried(fs, tail, k)| - |Carried(fs, tail, j)| <= k - j
  {
    if fs != [] {
      var size := |Encode(fs[0])|;
      if size <= j {
        CarriedGrows(fs[1..], tail, j - size, k - size);
      } else if size <= k {
        CarriedGrows(fs[1..], tail, 0, k - size);
      }
    }
  }
}
