/**
 The TLS sniffing of XtlsFilterTls, as a function of the packets it is shown, and what every
 interleaving of readers and writers over one TrafficState keeps true of it.
 */
module Filter {
  import opened Bytes

  const TLS13_SUPPORTED_VERSIONS: Bytes := [0x00, 0x2b, 0x00, 0x02, 0x03, 0x04]
  const TLS_APPLICATION_DATA_START: Bytes := [0x17, 0x03, 0x03]
  const CCM_8_SUITE := 0x1305

  /** The part of TrafficState that all four readers and writers share. */
  datatype Filter = Filter(packets: int, enableXtls: bool, tls12: bool, tls: bool, cipher: int, serverHello: int)

  const NEW_FILTER := Filter(8, false, false, false, 0, -1)

  /** A buffer as the filter sees it; `suite` is what stands where a ServerHello has its cipher suite. */
  datatype Packet = Packet(data: Bytes, suite: int)

  function Datas(packets: seq<Packet>): (r: seq<Bytes>)
    ensures |r| == |packets|
  {
    seq(|packets|, i requires 0 <= i < |packets| => packets[i].data)
  }

  /** Where the packet is long enough, the suite is the two bytes behind its session id. */
  predicate SuiteFits(p: Packet) {
    |p.data| >= 79 && 46 + p.data[43] <= |p.data| ==> p.suite == Word(p.data[44 + p.data[43]], p.data[45 + p.data[43]])
  }

  predicate IsServerHello(data: Bytes) {
    |data| >= 6 && data[0] == 0x16 && data[1] == 0x03 && data[2] == 0x03 && data[5] == 0x02
  }

  predicate IsClientHello(data: Bytes) {
    |data| >= 6 && data[0] == 0x16 && data[1] == 0x03 && data[5] == 0x01
  }

  function HelloLength(data: Bytes): int
    requires |data| >= 6
  {
    Word(data[3], data[4]) + 5
  }

  /** Does the filter read the cipher suite of this ServerHello? */
  predicate ReadsSuite(data: Bytes) {
    IsServerHello(data) && |data| >= 79 && HelloLength(data) >= 79
  }

  predicate KnownSuite(cipher: int) {
    0x1301 <= cipher <= 0x1305
  }

  /** Count the packet, and look at how it starts. */
  function Recognise(f: Filter, p: Packet): Filter {
    var g := f.(packets := f.packets - 1);
    if IsServerHello(p.data) then
      var h := g.(serverHello := HelloLength(p.data), tls12 := true, tls := true);
      if ReadsSuite(p.data) then h.(cipher := p.suite) else h
    else if IsClientHello(p.data) then g.(tls := true)
    else g
  }

  /** The end of one turn, given the state after the start, and whether the loop returns. */
  function Conclude(g: Filter, data: Bytes): (Filter, bool) {
    if g.serverHello <= 0 then (g, false)
    else
      var end := Min(g.serverHello, |data|);
      var h := g.(serverHello := g.serverHello - |data|);
      if Contains(data[..end], TLS13_SUPPORTED_VERSIONS) then
        (h.(enableXtls := g.enableXtls || (KnownSuite(g.cipher) && g.cipher != CCM_8_SUITE), packets := 0), true)
      else if h.serverHello <= 0 then (h.(packets := 0), true)
      else (h, false)
  }

  /** One turn of the loop, and whether the loop returns. */
  function Look(f: Filter, p: Packet): (Filter, bool) {
    Conclude(Recognise(f, p), p.data)
  }

  function Scan(f: Filter, packets: seq<Packet>): Filter
    decreases |packets|
  {
    if packets == [] then f
    else
      var (g, stop) := Look(f, packets[0]);
      if stop then g else Scan(g, packets[1..])
  }

  /** XtlsFilterTls is only called while packets remain to be filtered. */
  function FilterCall(f: Filter, packets: seq<Packet>): Filter {
    if f.packets > 0 then Scan(f, packets) else f
  }

  /** What holds of the shared state between any two calls. */
  predicate Inv(f: Filter) {
    && (f.enableXtls ==> f.tls12 && f.tls && KnownSuite(f.cipher) && f.cipher != CCM_8_SUITE && f.packets <= 0)
    && (f.serverHello > 0 ==> f.tls12)
    && (f.tls12 ==> f.tls)
  }

  lemma {:induction false} ScanKeepsInv(f: Filter, packets: seq<Packet>)
    requires Inv(f) && !f.enableXtls
    ensures Inv(Scan(f, packets))
    decreases |packets|
  {
    if packets != [] {
      var (g, stop) := Look(f, packets[0]);
      if !stop {
        ScanKeepsInv(g, packets[1..]);
      }
    }
  }

  /** Every call made by a reader or a writer is one element. */
  function Calls(f: Filter, calls: seq<seq<Packet>>): Filter
    decreases |calls|
  {
    if calls == [] then f else Calls(FilterCall(f, calls[0]), calls[1..])
  }

  /** Any interleaving of readers and writers keeps the invariant. */
  lemma {:induction false} InterleavingKeepsInv(f: Filter, calls: seq<seq<Packet>>)
    requires Inv(f)
    ensures Inv(Calls(f, calls))
    decreases |calls|
  {
    if calls != [] {
      if f.packets > 0 {
        ScanKeepsInv(f, calls[0]);
      }
      InterleavingKeepsInv(FilterCall(f, calls[0]), calls[1..]);
    }
  }

  /** Once no packets are left to filter, nothing changes the shared state any more. */
  lemma {:induction false} Frozen(f: Filter, before: seq<seq<Packet>>, after: seq<seq<Packet>>)
    requires Calls(f, before).packets <= 0
    ensures Calls(f, before + after) == Calls(f, before)
    decreases |before| + |after|
  {
    if before != [] {
      assert (before + after)[1..] == before[1..] + after;
      Frozen(FilterCall(f, before[0]), before[1..], after);
    } else {
      assert before + after == after;
      if after != [] {
        Frozen(f, [], after[1..]);
        assert [] + after[1..] == after[1..];
      }
    }
  }

  // ---- Direct copy is only ever enabled by a TLS 1.3 ServerHello that was seen ----

  /** Packet `i` or an earlier one is a ServerHello with this suite. */
  predicate SuiteSeen(packets: seq<Packet>, cipher: int) {
    exists i | 0 <= i < |packets| :: ReadsSuite(packets[i].data) && packets[i].suite == cipher
  }

  predicate VersionSeen(packets: seq<Packet>) {
    exists i | 0 <= i < |packets| :: Contains(packets[i].data, TLS13_SUPPORTED_VERSIONS)
  }

  /** The state can be explained by the packets seen so far. */
  predicate Explained(f: Filter, seen: seq<Packet>) {
    && (f.cipher != 0 ==> SuiteSeen(seen, f.cipher))
    && (f.enableXtls ==> VersionSeen(seen))
  }

  lemma SeenGrows(f: Filter, a: seq<Packet>, b: seq<Packet>)
    requires Explained(f, a)
    ensures Explained(f, a + b)
  {
    if f.cipher != 0 {
      var i :| 0 <= i < |a| && ReadsSuite(a[i].data) && a[i].suite == f.cipher;
      assert (a + b)[i] == a[i];
    }
    if f.enableXtls {
      var i :| 0 <= i < |a| && Contains(a[i].data, TLS13_SUPPORTED_VERSIONS);
      assert (a + b)[i] == a[i];
    }
  }

  lemma LookExplained(f: Filter, seen: seq<Packet>, p: Packet)
    requires Explained(f, seen)
    ensures Explained(Look(f, p).0, seen + [p])
  {
    SeenGrows(f, seen, [p]);
    var g := Recognise(f, p);
    var now := seen + [p];
    assert now[|seen|] == p;
    var end := Min(g.serverHello, |p.data|);
    if g.serverHello > 0 && Contains(p.data[..end], TLS13_SUPPORTED_VERSIONS) {
      var at :| 0 <= at <= end && OccursAt(p.data[..end], TLS13_SUPPORTED_VERSIONS, at);
      assert p.data[..end][at..at + 6] == p.data[at..at + 6];
      assert OccursAt(p.data, TLS13_SUPPORTED_VERSIONS, at);
    }
  }

  lemma {:induction false} ScanExplained(f: Filter, seen: seq<Packet>, packets: seq<Packet>)
    requires Explained(f, seen)
    ensures Explained(Scan(f, packets), seen + packets)
    decreases |packets|
  {
    if packets == [] {
      assert seen + packets == seen;
    } else {
      var (g, stop) := Look(f, packets[0]);
      LookExplained(f, seen, packets[0]);
      assert seen + [packets[0]] + packets[1..] == seen + packets;
      if stop {
        SeenGrows(g, seen + [packets[0]], packets[1..]);
      } else {
        ScanExplained(g, seen + [packets[0]], packets[1..]);
      }
    }
  }

  function Seen(calls: seq<seq<Packet>>): seq<Packet> {
    if calls == [] then [] else calls[0] + Seen(calls[1..])
  }

  lemma {:induction false} InterleavingExplained(f: Filter, seen: seq<Packet>, calls: seq<seq<Packet>>)
    requires Explained(f, seen)
    ensures Explained(Calls(f, calls), seen + Seen(calls))
    decreases |calls|
  {
    if calls == [] {
      assert seen + Seen(calls) == seen;
    } else {
      if f.packets > 0 {
        ScanExplained(f, seen, calls[0]);
      } else {
        SeenGrows(f, seen, calls[0]);
      }
      InterleavingExplained(FilterCall(f, calls[0]), seen + calls[0], calls[1..]);
      assert seen + calls[0] + Seen(calls[1..]) == seen + Seen(calls);
    }
  }

  /** From a new connection: direct copy means a listed TLS 1.3 suite and the TLS 1.3 version were seen. */
  lemma DirectCopyNeedsTls13(calls: seq<seq<Packet>>)
    ensures var f := Calls(NEW_FILTER, calls);
            f.enableXtls ==>
              && f.tls12 && f.tls && f.packets <= 0 && 0x1301 <= f.cipher <= 0x1304
              && SuiteSeen(Seen(calls), f.cipher) && VersionSeen(Seen(calls))
  {
    InterleavingKeepsInv(NEW_FILTER, calls);
    InterleavingExplained(NEW_FILTER, [], calls);
    assert [] + Seen(calls) == Seen(calls);
  }

  // ---- Filtering ends ----

  lemma {:induction false} ScanCounts(f: Filter, packets: seq<Packet>)
    ensures Scan(f, packets).packets == f.packets - |packets| || Scan(f, packets).packets == 0
    decreases |packets|
  {
    if packets != [] {
      ScanCounts(Look(f, packets[0]).0, packets[1..]);
    }
  }

  /** Whoever shows packets to the filter: either it counts them all down, or it has stopped looking. */
  lemma {:induction false} CountsDown(f: Filter, calls: seq<seq<Packet>>)
    ensures var n := Calls(f, calls).packets; n <= 0 || n == f.packets - |Seen(calls)|
    decreases |calls|
  {
    if calls != [] {
      ScanCounts(f, calls[0]);
      CountsDown(FilterCall(f, calls[0]), calls[1..]);
    }
  }
}
