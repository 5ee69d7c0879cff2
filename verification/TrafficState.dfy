/**
 TrafficState: what the readers and writers of both directions of one connection share, and the two
 functions that change it in place, XtlsFilterTls and XtlsUnpadding.
 */
module TrafficState {
  import opened Bytes
  import opened Buffers
  import opened Frames
  import P = FrameParser
  import S = FramedStream
  import F = Filter
  import R = Reading

  const TLS_CLIENT_HANDSHAKE_START: Bytes := [0x16, 0x03]
  const TLS_SERVER_HANDSHAKE_START: Bytes := [0x16, 0x03, 0x03]

  /** InboundState and OutboundState, which have the same fields under different names. */
  class LinkState {
    // reader link state
    var withinPaddingBuffers: bool
    var readerDirectCopy: bool
    var remainingCommand: int
    var remainingContent: int
    var remainingPadding: int
    var currentCommand: int
    // writer link state
    var isPadding: bool
    var writerDirectCopy: bool

    constructor ()
      ensures Reader() == R.NEW_READER
      ensures isPadding && !writerDirectCopy
    {
      withinPaddingBuffers, readerDirectCopy := true, false;
      remainingCommand, remainingContent, remainingPadding, currentCommand := -1, -1, -1, 0;
      isPadding, writerDirectCopy := true, false;
    }

    ghost function Parser(): P.Parser
      reads this
    {
      P.Parser(remainingCommand, remainingContent, remainingPadding, currentCommand)
    }

    ghost function Reader(): R.Reader
      reads this
    {
      R.Reader(Parser(), withinPaddingBuffers, readerDirectCopy)
    }
  }

  class TrafficState {
    const userUUID: Bytes
    var numberOfPacketToFilter: int
    var enableXtls: bool
    var isTLS12orAbove: bool
    var isTLS: bool
    var cipher: int
    var remainingServerHello: int
    const inbound: LinkState
    const outbound: LinkState

    constructor (userUUID: Bytes)
      ensures this.userUUID == userUUID && Filter() == F.NEW_FILTER
      ensures fresh(inbound) && fresh(outbound) && inbound != outbound
      ensures inbound.Reader() == outbound.Reader() == R.NEW_READER
      ensures inbound.isPadding && outbound.isPadding && !inbound.writerDirectCopy && !outbound.writerDirectCopy
    {
      this.userUUID := userUUID;
      numberOfPacketToFilter := 8;
      enableXtls, isTLS12orAbove, isTLS := false, false, false;
      cipher, remainingServerHello := 0, -1;
      inbound := new LinkState();
      outbound := new LinkState();
    }

    ghost function Filter(): F.Filter
      reads this
    {
      F.Filter(numberOfPacketToFilter, enableXtls, isTLS12orAbove, isTLS, cipher, remainingServerHello)
    }

    /** The uplink is read on the inbound side and written on the outbound side. */
    function ReaderLink(isUplink: bool): LinkState {
      if isUplink then inbound else outbound
    }

    function WriterLink(isUplink: bool): LinkState {
      if isUplink then outbound else inbound
    }
  }

  /** The first half of one turn: count the buffer, and look at how it starts. */
  method FilterHello(b: Buffer, s: TrafficState)
    requires b.Valid() && b.SuiteInRange()
    modifies s
    ensures s.Filter() == F.Recognise(old(s.Filter()), old(b.Packet()))
  {
    s.numberOfPacketToFilter := s.numberOfPacketToFilter - 1;
    var data := b.v[b.start..b.end];
    if |data| >= 6 {
      if data[..3] == TLS_SERVER_HANDSHAKE_START && data[5] == 0x02 {
        assert data[0] == data[..3][0] && data[1] == data[..3][1] && data[2] == data[..3][2];
        s.remainingServerHello := Word(data[3], data[4]) + 5;
        s.isTLS12orAbove := true;
        s.isTLS := true;
        if |data| >= 79 && s.remainingServerHello >= 79 {
          var at := b.start + 43 + data[43] + 1;
          s.cipher := Word(b.v[at], b.v[at + 1]);
        }
      } else if data[..2] == TLS_CLIENT_HANDSHAKE_START && data[5] == 0x01 {
        assert data[0] == data[..2][0] && data[1] == data[..2][1];
        s.isTLS := true;
      }
      assert data[..2] == [data[0], data[1]] && data[..3] == [data[0], data[1], data[2]];
    }
  }

  /** The second half: look for the TLS version in what is left of a ServerHello. */
  method FilterVersion(data: Bytes, s: TrafficState) returns (stop: bool)
    modifies s
    ensures (s.Filter(), stop) == F.Conclude(old(s.Filter()), data)
  {
    if s.remainingServerHello > 0 {
      var end := s.remainingServerHello;
      if end > |data| {
        end := |data|;
      }
      s.remainingServerHello := s.remainingServerHello - |data|;
      if Contains(data[..end], F.TLS13_SUPPORTED_VERSIONS) {
        if F.KnownSuite(s.cipher) && s.cipher != F.CCM_8_SUITE {
          s.enableXtls := true;
        }
        s.numberOfPacketToFilter := 0;
        return true;
      } else if s.remainingServerHello <= 0 {
        s.numberOfPacketToFilter := 0;
        return true;
      }
    }
    return false;
  }

  /** One turn of the loop of XtlsFilterTls. */
  method FilterOne(b: Buffer, s: TrafficState) returns (stop: bool)
    requires b.Valid() && b.SuiteInRange()
    modifies s
    ensures (s.Filter(), stop) == F.Look(old(s.Filter()), old(b.Packet()))
  {
    FilterHello(b, s);
    stop := FilterVersion(b.v[b.start..b.end], s);
  }

  /** Go's check of the slice bounds. */
  method InRange(b: Buffer) returns (ok: bool)
    requires b.Valid()
    ensures ok == b.SuiteInRange()
  {
    var data := b.v[b.start..b.end];
    ok := !F.ReadsSuite(data) || b.start + 46 + b.v[b.start + 43] <= b.v.Length;
  }

  lemma PacketsNext(mb: seq<Buffer?>, i: nat)
    requires i < |mb| && AllValid(mb)
    ensures mb[i] in mb && AllValid(mb[i..]) && AllValid(mb[i + 1..])
    ensures Packets(mb[i..]) == (if mb[i] == null then [] else [mb[i].Packet()]) + Packets(mb[i + 1..])
  {
    assert mb[i..][1..] == mb[i + 1..];
    assert forall b | b in mb[i..] :: b in mb;
  }

  lemma ScanNext(f: F.Filter, p: F.Packet, rest: seq<F.Packet>)
    ensures F.Scan(f, [p] + rest) == if F.Look(f, p).1 then F.Look(f, p).0 else F.Scan(F.Look(f, p).0, rest)
    ensures [] + rest == rest
  {
    assert ([p] + rest)[1..] == rest;
  }

  /** One turn of the loop; nil is skipped. */
  method FilterNext(mb: seq<Buffer?>, i: nat, s: TrafficState) returns (alive: bool, stop: bool)
    requires AllValid(mb) && i < |mb|
    requires assert forall b | b in mb[i..] :: b in mb; AllValid(mb[i..])
    modifies s
    ensures AllValid(mb) && AllValid(mb[i..]) && AllValid(mb[i + 1..])
    ensures alive && stop ==> F.Scan(old(s.Filter()), old(Packets(mb[i..]))) == s.Filter()
    ensures alive && !stop ==> F.Scan(old(s.Filter()), old(Packets(mb[i..]))) == F.Scan(s.Filter(), Packets(mb[i + 1..]))
    ensures !alive ==> mb[i] != null && !mb[i].SuiteInRange()
  {
    var b := mb[i];
    PacketsNext(mb, i);
    assert forall x | x in mb[i + 1..] :: x in mb;
    if b == null {
      ScanNext(s.Filter(), F.Packet([], 0), Packets(mb[i + 1..]));
      return true, false;
    }
    ScanNext(s.Filter(), b.Packet(), Packets(mb[i + 1..]));
    stop := false;
    alive := InRange(b);
    if alive {
      stop := FilterOne(b, s);
      SamePackets(mb[i + 1..]);
    }
  }

  /**
   The filter looks at the buffers until it returns. It stops the program if it comes to a buffer whose
   cipher suite would lie outside its array.
   */
  method XtlsFilterTls(mb: seq<Buffer?>, s: TrafficState) returns (alive: bool)
    requires AllValid(mb)
    modifies s
    ensures alive ==> s.Filter() == F.Scan(old(s.Filter()), old(Packets(mb)))
    ensures !alive ==> exists b | b in mb && b != null :: !b.SuiteInRange()
  {
    ghost var goal := F.Scan(s.Filter(), Packets(mb));
    assert mb[0..] == mb;
    for i := 0 to |mb|
      invariant AllValid(mb) && AllValid(mb[i..]) && goal == F.Scan(s.Filter(), Packets(mb[i..]))
    {
      var stop;
      alive, stop := FilterNext(mb, i, s);
      if !alive {
        assert mb[i] in mb;
        return;
      }
      if stop {
        return;
      }
    }
    return true;
  }

  method TakeHeaderByte(b: Buffer, link: LinkState)
    requires b.Valid() && b.Len() > 0
    requires P.Valid(link.Parser()) && link.remainingCommand > 0
    modifies b`start, link`remainingCommand, link`remainingContent, link`remainingPadding, link`currentCommand
    ensures b.Valid() && b.Content() == old(b.Content())[1..]
    ensures link.Parser() == P.TakeHeader(old(link.Parser()), old(b.Content())[0])
  {
    var data := b.ReadByte();
    match link.remainingCommand {
      case 5 => link.currentCommand := data;
      case 4 => link.remainingContent := Word(data, 0);
      case 3 => link.remainingContent := Or(link.remainingContent, data);
      case 2 => link.remainingPadding := Word(data, 0);
      case _ => link.remainingPadding := Or(link.remainingPadding, data);
    }
    link.remainingCommand := link.remainingCommand - 1;
  }

  /** As much content as the buffer holds. */
  method TakeContent(b: Buffer, r: Buffer, link: LinkState)
    requires b.Valid() && r.Valid() && b != r && b.v != r.v && b.Len() > 0
    requires r.end + b.Len() <= r.v.Length
    requires P.Valid(link.Parser()) && link.remainingCommand == 0 && link.remainingContent > 0
    modifies b`start, r`end, r.v, link`remainingContent
    ensures b.Valid() && r.Valid() && r.start == old(r.start) && r.end + b.Len() <= r.v.Length
    ensures !P.Initial(link.Parser()) && P.Valid(P.Settle(link.Parser()))
    ensures var n := Min(old(link.remainingContent), |old(b.Content())|);
            var (q, out) := P.Run(old(link.Parser()), old(b.Content())[..n]);
            b.Content() == old(b.Content())[n..] && P.Settle(link.Parser()) == q && r.Content() == old(r.Content()) + out
  {
    ghost var p := link.Parser();
    var len := Min(link.remainingContent, b.Len());
    var data := b.ReadBytes(len);
    var _ := r.Write(data);
    assert data[..|data|] == data;
    link.remainingContent := link.remainingContent - len;
    P.RunContent(p, data);
  }

  /** As much padding as the buffer holds. */
  method SkipPadding(b: Buffer, link: LinkState)
    requires b.Valid() && b.Len() > 0
    requires P.Valid(link.Parser()) && !P.Initial(link.Parser()) && link.remainingCommand == 0 && link.remainingContent == 0
    modifies b`start, link`remainingPadding
    ensures b.Valid() && !P.Initial(link.Parser()) && P.Valid(P.Settle(link.Parser()))
    ensures var n := Min(old(link.remainingPadding), |old(b.Content())|);
            b.Content() == old(b.Content())[n..]
            && P.Run(old(link.Parser()), old(b.Content())[..n]) == (P.Settle(link.Parser()), [])
  {
    ghost var p, rest := link.Parser(), b.Content();
    var len := Min(link.remainingPadding, b.Len());
    b.Advance(len);
    link.remainingPadding := link.remainingPadding - len;
    P.RunPadding(p, rest[..len]);
  }

  /** The end of one turn: expect the next header, or give up framing and take the rest as it is. */
  method EndBlock(b: Buffer, r: Buffer, link: LinkState) returns (finished: bool)
    requires b.Valid() && r.Valid() && b != r && b.v != r.v && r.end + b.Len() <= r.v.Length
    modifies r`end, r.v, link`remainingCommand, link`remainingContent, link`remainingPadding
    requires P.Valid(P.Settle(link.Parser()))
    requires !P.Initial(link.Parser())
    ensures link.Parser() == P.Settle(old(link.Parser())) && finished == P.Initial(link.Parser())
    ensures r.Valid() && r.start == old(r.start)
    ensures r.Content() == old(r.Content()) + if finished then b.Content() else []
    ensures !finished ==> r.end == old(r.end)
  {
    if link.remainingCommand <= 0 && link.remainingContent <= 0 && link.remainingPadding <= 0 {
      if link.currentCommand == 0 {
        link.remainingCommand := 5;
      } else {
        link.remainingCommand := -1;
        link.remainingContent := -1;
        link.remainingPadding := -1;
        if b.Len() > 0 {
          var _ := r.Write(b.v[b.start..b.end]);
          assert b.Content()[..|b.Content()|] == b.Content();
        }
        return true;
      }
    }
    return false;
  }

  /** How many bytes one turn of the loop takes. */
  ghost function UnpadLength(p: P.Parser, available: nat): (n: nat)
    requires P.Valid(p) && !P.Initial(p) && available > 0
    ensures 0 < n <= available
  {
    if p.commandLeft > 0 then 1
    else if p.contentLeft > 0 then Min(p.contentLeft, available)
    else Min(p.paddingLeft, available)
  }

  /** One turn of the loop: a header byte, or as much content or padding as the buffer holds. */
  method UnpadChunk(b: Buffer, r: Buffer, link: LinkState)
    requires b.Valid() && r.Valid() && b != r && b.v != r.v && b.Len() > 0
    requires r.end + b.Len() <= r.v.Length
    requires P.Valid(link.Parser()) && !P.Initial(link.Parser())
    modifies b`start, r`end, r.v, link`remainingCommand, link`remainingContent, link`remainingPadding, link`currentCommand
    ensures b.Valid() && r.Valid() && r.start == old(r.start) && r.end + b.Len() <= r.v.Length
    ensures !P.Initial(link.Parser()) && P.Valid(P.Settle(link.Parser()))
    ensures var n := UnpadLength(old(link.Parser()), |old(b.Content())|);
            var (q, out) := P.Run(old(link.Parser()), old(b.Content())[..n]);
            b.Content() == old(b.Content())[n..] && P.Settle(link.Parser()) == q && r.Content() == old(r.Content()) + out
  {
    ghost var p, rest, done := link.Parser(), b.Content(), r.Content();
    if link.remainingCommand > 0 {
      TakeHeaderByte(b, link);
      P.RunOne(p, rest[0]);
      assert rest[..1] == [rest[0]];
      Unit(done);
    } else if link.remainingContent > 0 {
      TakeContent(b, r, link);
    } else {
      SkipPadding(b, link);
      Unit(done);
    }
  }

  /** The loop of XtlsUnpadding. */
  method UnpadFrames(b: Buffer, link: LinkState) returns (r: Buffer)
    requires b.Valid() && b.Len() <= SIZE
    requires P.Valid(link.Parser()) && !P.Initial(link.Parser())
    modifies b`start, link`remainingCommand, link`remainingContent, link`remainingPadding, link`currentCommand
    ensures r.Valid() && fresh(r) && fresh(r.v) && r.start == 0 && r.v.Length == SIZE
    ensures (link.Parser(), r.Content()) == P.Run(old(link.Parser()), old(b.Content()))
  {
    ghost var p, rest, done := link.Parser(), b.Content(), [];
    ghost var goal := P.Run(p, rest);
    r := new Buffer();
    assert done + goal.1 == goal.1;
    while b.Len() > 0
      invariant b.Valid() && r.Valid() && fresh(r) && fresh(r.v) && r.start == 0 && r.v.Length == SIZE
      invariant r.end + b.Len() <= SIZE
      invariant p == link.Parser() && rest == b.Content() && done == r.Content()
      invariant P.Valid(p) && !P.Initial(p)
      invariant goal == (P.Run(p, rest).0, done + P.Run(p, rest).1)
      decreases b.Len()
    {
      ghost var n := UnpadLength(p, |rest|);
      ghost var (q, out) := P.Run(p, rest[..n]);
      P.RunResume(p, rest, n, done);
      UnpadChunk(b, r, link);
      p, rest, done := q, rest[n..], done + out;
      var finished := EndBlock(b, r, link);
      if finished {
        return;
      }
    }
    assert done + [] == done;
  }

  /** XtlsUnpadding: strips the framing from one buffer, and remembers where in a frame it stopped. */
  method XtlsUnpadding(b: Buffer, s: TrafficState, isUplink: bool) returns (r: Buffer)
    requires b.Valid() && b.Len() <= SIZE
    requires P.Valid(s.ReaderLink(isUplink).Parser())
    modifies b`start, s.ReaderLink(isUplink)`remainingCommand, s.ReaderLink(isUplink)`remainingContent,
             s.ReaderLink(isUplink)`remainingPadding, s.ReaderLink(isUplink)`currentCommand
    ensures r.Valid()
    ensures (r == b && b.start == old(b.start)) || (fresh(r) && fresh(r.v) && r.start == 0 && r.v.Length == SIZE)
    ensures (s.ReaderLink(isUplink).Parser(), r.Content())
         == P.Unpad(s.userUUID, old(s.ReaderLink(isUplink).Parser()), old(b.Content()))
  {
    var link := s.ReaderLink(isUplink);
    ghost var p0, data := link.Parser(), b.Content();
    if link.remainingCommand == -1 && link.remainingContent == -1 && link.remainingPadding == -1 {
      if b.Len() >= 21 && s.userUUID == b.v[b.start..b.start + 16] {
        assert data[..16] == b.v[b.start..b.start + 16];
        b.Advance(16);
        link.remainingCommand := 5;
      } else {
        return b;
      }
    }
    r := UnpadFrames(b, link);
  }
}
