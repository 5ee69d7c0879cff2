/**
 The meaning of XtlsUnpadding, one byte at a time, and what it does to a framed stream however that
 stream is cut into buffers.
 */
module FrameParser {
  import opened Bytes
  import opened Frames

  /** RemainingCommand, RemainingContent, RemainingPadding and CurrentCommand of one direction. */
  datatype Parser = Parser(commandLeft: int, contentLeft: int, paddingLeft: int, command: int)

  const FRESH := Parser(-1, -1, -1, 0)

  predicate Initial(p: Parser) {
    p.commandLeft == -1 && p.contentLeft == -1 && p.paddingLeft == -1
  }

  /** The states that the parser can be in. */
  predicate Valid(p: Parser) {
    || Initial(p)
    || (p.commandLeft == 0 && 0 <= p.contentLeft < 0x1_0000 && 0 <= p.paddingLeft < 0x1_0000
        && p.contentLeft + p.paddingLeft > 0)
    || (1 <= p.commandLeft <= 5
        && (if p.commandLeft >= 4 then -1 <= p.contentLeft <= 0 else 0 <= p.contentLeft < 0x1_0000)
        && (if p.commandLeft >= 2 then -1 <= p.paddingLeft <= 0 else 0 <= p.paddingLeft < 0x1_0000)
        && (p.commandLeft == 3 ==> p.contentLeft % 256 == 0)
        && (p.commandLeft == 1 ==> p.paddingLeft % 256 == 0))
  }

  /** Take one header byte. */
  function TakeHeader(p: Parser, b: Byte): Parser
    requires Valid(p) && p.commandLeft > 0
  {
    var q := match p.commandLeft
      case 5 => p.(command := b)
      case 4 => p.(contentLeft := b * 256)
      case 3 => p.(contentLeft := Or(p.contentLeft, b))
      case 2 => p.(paddingLeft := b * 256)
      case _ => p.(paddingLeft := Or(p.paddingLeft, b));
    q.(commandLeft := p.commandLeft - 1)
  }

  /** The end of a frame: the next header after Continue, the initial state after anything else. */
  function Settle(p: Parser): Parser {
    if p.commandLeft <= 0 && p.contentLeft <= 0 && p.paddingLeft <= 0 then
      if p.command == 0 then p.(commandLeft := 5) else Parser(-1, -1, -1, p.command)
    else p
  }

  /** One byte read from a buffer by a parser that is inside a framed stream. */
  function Step(p: Parser, b: Byte): (r: (Parser, Bytes))
    requires Valid(p) && !Initial(p)
    ensures Valid(r.0) && |r.1| <= 1
  {
    if p.commandLeft > 0 then (Settle(TakeHeader(p, b)), [])
    else if p.contentLeft > 0 then (Settle(p.(contentLeft := p.contentLeft - 1)), [b])
    else (Settle(p.(paddingLeft := p.paddingLeft - 1)), [])
  }

  /** A parser in the initial state hands bytes on as they are. */
  function Run(p: Parser, data: Bytes): (r: (Parser, Bytes))
    requires Valid(p)
    ensures Valid(r.0) && |r.1| <= |data|
    decreases |data|
  {
    if Initial(p) then (p, data)
    else if data == [] then (p, [])
    else
      var (q, out) := Step(p, data[0]);
      var (r, rest) := Run(q, data[1..]);
      (r, out + rest)
  }

  predicate LooksOpen(uuid: Bytes, data: Bytes) {
    |data| >= UUID_LENGTH + HEADER_LENGTH && data[..UUID_LENGTH] == uuid
  }

  predicate Opens(uuid: Bytes, p: Parser, data: Bytes) {
    Initial(p) && LooksOpen(uuid, data)
  }

  /** One call of XtlsUnpadding: only here, at the start of a buffer, is a UUID looked for. */
  function Unpad(uuid: Bytes, p: Parser, data: Bytes): (r: (Parser, Bytes))
    requires Valid(p)
    ensures Valid(r.0)
  {
    if Opens(uuid, p, data) then Run(p.(commandLeft := 5), data[UUID_LENGTH..]) else Run(p, data)
  }

  /** XtlsUnpadding over the buffers of a stream, one after the other. */
  function UnpadAll(uuid: Bytes, p: Parser, pieces: seq<Bytes>): (r: (Parser, Bytes))
    requires Valid(p)
    ensures Valid(r.0)
    decreases |pieces|
  {
    if pieces == [] then (p, [])
    else
      var (q, out) := Unpad(uuid, p, pieces[0]);
      var (r, rest) := UnpadAll(uuid, q, pieces[1..]);
      (r, out + rest)
  }

  function NonEmpty(out: Bytes): seq<Bytes> {
    if out == [] then [] else [out]
  }

  /** The buffers that come out of it; those that are empty are dropped. */
  function Unpadded(uuid: Bytes, p: Parser, pieces: seq<Bytes>): seq<Bytes>
    requires Valid(p)
    decreases |pieces|
  {
    if pieces == [] then []
    else
      var (q, out) := Unpad(uuid, p, pieces[0]);
      NonEmpty(out) + Unpadded(uuid, q, pieces[1..])
  }

  lemma {:induction false} JoinUnpadded(uuid: Bytes, p: Parser, pieces: seq<Bytes>)
    requires Valid(p)
    ensures Join(Unpadded(uuid, p, pieces)) == UnpadAll(uuid, p, pieces).1
    decreases |pieces|
  {
    if pieces != [] {
      var (q, out) := Unpad(uuid, p, pieces[0]);
      JoinUnpadded(uuid, q, pieces[1..]);
      JoinAppend(NonEmpty(out), Unpadded(uuid, q, pieces[1..]));
      JoinOne(out);
    }
  }

  // ---- The parser does not see how its input is cut ----

  lemma {:induction false} RunSplit(p: Parser, a: Bytes, b: Bytes)
    requires Valid(p)
    ensures Run(p, a + b) == (Run(Run(p, a).0, b).0, Run(p, a).1 + Run(Run(p, a).0, b).1)
    decreases |a|
  {
    if Initial(p) {
      assert Run(p, a) == (p, a);
    } else if a == [] {
      assert a + b == b;
      assert [] + Run(p, b).1 == Run(p, b).1;
    } else {
      var (q, out) := Step(p, a[0]);
      assert (a + b)[1..] == a[1..] + b;
      RunSplit(q, a[1..], b);
      var (r, rest) := Run(q, a[1..]);
      assert out + (rest + Run(r, b).1) == (out + rest) + Run(r, b).1;
    }
  }

  /** What is still to be handed on after `done`, once the first `n` bytes of `rest` have been read. */
  lemma RunResume(p: Parser, rest: Bytes, n: nat, done: Bytes)
    requires Valid(p) && n <= |rest|
    ensures var (q, out) := Run(p, rest[..n]);
            Run(p, rest).0 == Run(q, rest[n..]).0
            && done + Run(p, rest).1 == (done + out) + Run(q, rest[n..]).1
  {
    hide Run;
    assert rest == rest[..n] + rest[n..];
    RunSplit(p, rest[..n], rest[n..]);
  }

  lemma RunOne(p: Parser, b: Byte)
    requires Valid(p) && p.commandLeft > 0
    ensures Run(p, [b]) == (Settle(TakeHeader(p, b)), [])
  {
    var q := Step(p, b).0;
    assert [b][1..] == [];
    assert Run(q, []) == (q, []);
  }

  // ---- Reading many bytes at once is reading them one by one ----

  lemma {:induction false} RunContent(p: Parser, data: Bytes)
    requires Valid(p) && p.commandLeft == 0
    requires 0 < |data| <= p.contentLeft
    ensures var q := Settle(p.(contentLeft := p.contentLeft - |data|));
            Valid(q) && Run(p, data) == (q, data)
    decreases |data|
  {
    var (q, out) := Step(p, data[0]);
    assert out == [data[0]];
    if |data| == 1 {
      assert Run(q, data[1..]) == (q, []);
    } else {
      RunContent(q, data[1..]);
    }
    assert [data[0]] + data[1..] == data;
  }

  lemma {:induction false} RunPadding(p: Parser, data: Bytes)
    requires Valid(p) && p.commandLeft == 0 && p.contentLeft == 0
    requires 0 < |data| <= p.paddingLeft
    ensures var q := Settle(p.(paddingLeft := p.paddingLeft - |data|));
            Valid(q) && Run(p, data) == (q, [])
    decreases |data|
  {
    var (q, out) := Step(p, data[0]);
    if |data| == 1 {
      assert Run(q, data[1..]) == (q, []);
    } else {
      RunPadding(q, data[1..]);
    }
  }

  // ---- One frame ----

  /** Between frames: after the UUID, and after every Continue frame. */
  predicate AtHeader(p: Parser) {
    p.commandLeft == 5 && -1 <= p.contentLeft <= 0 && -1 <= p.paddingLeft <= 0 && p.command == 0
  }

  /** The state in which a frame with this command leaves the parser. */
  function Leaves(command: Byte): (p: Parser)
    ensures Valid(p)
  {
    if command == CONTINUE then Parser(5, 0, 0, 0) else Parser(-1, -1, -1, command)
  }

  /** The state after the first `n` header bytes of `f`. */
  function InHeader(p: Parser, f: Frame, n: nat): Parser
    requires Fits(f) && n <= HEADER_LENGTH
  {
    Parser(5 - n,
           if n < 2 then p.contentLeft else if n == 2 then |f.content| / 256 * 256 else |f.content|,
           if n < 4 then p.paddingLeft else if n == 4 then |f.padding| / 256 * 256 else |f.padding|,
           if n < 1 then p.command else f.command)
  }

  lemma HighAndLow(n: int)
    requires 0 <= n < 0x1_0000
    ensures 0 <= n / 256 < 256 && n / 256 * 256 % 256 == 0 && n / 256 * 256 + n % 256 == n
  {
  }

  /** One more header byte. */
  lemma HeaderStep(p: Parser, f: Frame, n: nat)
    requires AtHeader(p) && Fits(f) && n < HEADER_LENGTH
    ensures Valid(InHeader(p, f, n)) && InHeader(p, f, n).commandLeft > 0
    ensures TakeHeader(InHeader(p, f, n), Header(f)[n]) == InHeader(p, f, n + 1)
  {
    HighAndLow(|f.content|);
    HighAndLow(|f.padding|);
  }

  lemma RunMore(p: Parser, before: Bytes, b: Byte, q: Parser)
    requires Valid(p) && Run(p, before) == (q, []) && q.commandLeft > 0
    ensures Run(p, before + [b]) == (Settle(TakeHeader(q, b)), [])
  {
    RunSplit(p, before, [b]);
    RunOne(q, b);
  }

  lemma {:induction false} RunHeader(p: Parser, f: Frame, n: nat)
    requires AtHeader(p) && Fits(f) && n <= HEADER_LENGTH
    ensures n < HEADER_LENGTH ==> Valid(InHeader(p, f, n))
    ensures Run(p, Header(f)[..n]) == (if n < HEADER_LENGTH then InHeader(p, f, n) else Settle(InHeader(p, f, n)), [])
  {
    if n > 0 {
      var h := Header(f);
      RunHeader(p, f, n - 1);
      HeaderStep(p, f, n - 1);
      RunMore(p, h[..n - 1], h[n - 1], InHeader(p, f, n - 1));
      assert h[..n] == h[..n - 1] + [h[n - 1]];
    } else {
      assert Header(f)[..0] == [];
    }
    if n < HEADER_LENGTH {
      HeaderStep(p, f, n);
    }
  }

  /** What the parser has done after the first `k` bytes of a frame. */
  function InFrame(p: Parser, f: Frame, k: nat): Parser
    requires Fits(f) && k <= |Encode(f)|
  {
    if k < HEADER_LENGTH then InHeader(p, f, k)
    else
      var content := Min(k - HEADER_LENGTH, |f.content|);
      Settle(Parser(0, |f.content| - content, |f.padding| - (k - HEADER_LENGTH - content), f.command))
  }

  function ContentIn(f: Frame, k: nat): Bytes
    requires Fits(f) && k <= |Encode(f)|
  {
    if k < HEADER_LENGTH then [] else f.content[..Min(k - HEADER_LENGTH, |f.content|)]
  }

  lemma BodyPrefix(f: Frame, n: nat)
    requires n <= |f.content| + |f.padding|
    ensures n <= |f.content| ==> (f.content + f.padding)[..n] == f.content[..n]
    ensures n > |f.content| ==> (f.content + f.padding)[..n] == f.content + f.padding[..n - |f.content|]
    ensures f.content[..|f.content|] == f.content && [] + f.padding == f.padding
  {
  }

  /** All the content, and some padding. */
  lemma RunBoth(p: Parser, content: Bytes, padding: Bytes)
    requires Valid(p) && p.commandLeft == 0
    requires 0 < |content| == p.contentLeft && 0 < |padding| <= p.paddingLeft
    ensures Run(p, content + padding) == (Settle(p.(contentLeft := 0, paddingLeft := p.paddingLeft - |padding|)), content)
  {
    RunSplit(p, content, padding);
    RunContent(p, content);
    RunPadding(p.(contentLeft := 0), padding);
    Unit(content);
  }

  /** The first `n` bytes after the header, read by the state that the header leaves. */
  lemma RunBody(f: Frame, n: nat)
    requires Fits(f) && 0 < n <= |f.content| + |f.padding|
    ensures Valid(Parser(0, |f.content|, |f.padding|, f.command))
    ensures Run(Parser(0, |f.content|, |f.padding|, f.command), (f.content + f.padding)[..n])
         == (InFrame(FRESH, f, HEADER_LENGTH + n), ContentIn(f, HEADER_LENGTH + n))
  {
    var q := Parser(0, |f.content|, |f.padding|, f.command);
    BodyPrefix(f, n);
    if n <= |f.content| {
      RunContent(q, f.content[..n]);
    } else if |f.content| > 0 {
      RunBoth(q, f.content, f.padding[..n - |f.content|]);
    } else {
      RunPadding(q, f.padding[..n]);
    }
  }

  lemma EncodePrefix(f: Frame, k: nat)
    requires Fits(f) && k <= |Encode(f)|
    ensures k <= HEADER_LENGTH ==> Encode(f)[..k] == Header(f)[..k]
    ensures k > HEADER_LENGTH ==> Encode(f)[..k] == Header(f) + (f.content + f.padding)[..k - HEADER_LENGTH]
    ensures Header(f)[..HEADER_LENGTH] == Header(f)
  {
  }

  /** The body of a frame is read by the state that its header leaves. */
  lemma RunPastHeader(p: Parser, f: Frame, k: nat)
    requires AtHeader(p) && Fits(f) && HEADER_LENGTH < k <= |Encode(f)|
    requires Run(p, Header(f)) == (Parser(0, |f.content|, |f.padding|, f.command), [])
    ensures Run(p, Header(f) + (f.content + f.padding)[..k - HEADER_LENGTH]) == (InFrame(p, f, k), ContentIn(f, k))
  {
    RunSplit(p, Header(f), (f.content + f.padding)[..k - HEADER_LENGTH]);
    RunBody(f, k - HEADER_LENGTH);
    Unit(ContentIn(f, k));
  }

  lemma RunFramePrefix(p: Parser, f: Frame, k: nat)
    requires AtHeader(p) && Fits(f) && k <= |Encode(f)|
    ensures Run(p, Encode(f)[..k]) == (InFrame(p, f, k), ContentIn(f, k))
  {
    EncodePrefix(f, k);
    if k <= HEADER_LENGTH {
      RunHeader(p, f, k);
      assert f.content[..0] == [];
    } else {
      RunHeader(p, f, HEADER_LENGTH);
      RunPastHeader(p, f, k);
    }
  }

  lemma RunFrame(p: Parser, f: Frame)
    requires AtHeader(p) && Fits(f)
    ensures Run(p, Encode(f)) == (Leaves(f.command), f.content)
  {
    RunFramePrefix(p, f, |Encode(f)|);
    assert Encode(f)[..|Encode(f)|] == Encode(f);
    assert f.content[..|f.content|] == f.content;
  }

  /** A whole frame with more bytes behind it. */
  lemma RunPast(p: Parser, f: Frame, more: Bytes)
    requires AtHeader(p) && Fits(f)
    ensures Run(p, Encode(f) + more) == (Run(Leaves(f.command), more).0, f.content + Run(Leaves(f.command), more).1)
  {
    RunFrame(p, f);
    RunSplit(p, Encode(f), more);
  }

  /** Going through the buffers one by one. */
  lemma UnpadAllStep(uuid: Bytes, p: Parser, pieces: seq<Bytes>, i: nat, done: seq<Bytes>)
    requires Valid(p) && i < |pieces|
    ensures var (q, out) := Unpad(uuid, p, pieces[i]);
            UnpadAll(uuid, p, pieces[i..]).0 == UnpadAll(uuid, q, pieces[i + 1..]).0
            && done + Unpadded(uuid, p, pieces[i..]) == (done + NonEmpty(out)) + Unpadded(uuid, q, pieces[i + 1..])
  {
    assert pieces[i..][1..] == pieces[i + 1..];
  }
}
