/**
 The outcome of TLS sniffing, told from the packets alone: which packet ends it, and what it leaves. The
 definitions here know nothing of the filter, which is proved to agree with them over every interleaving.
 */
module Sniffing {
  import opened Bytes
  import opened Filter

  /** Handshake record, version 3.3, ServerHello. */
  predicate OpensServerHello(data: Bytes) {
    |data| >= 6 && data[0] == 22 && data[1] == 3 && data[2] == 3 && data[5] == 2
  }

  /** Handshake record, ClientHello. */
  predicate OpensClientHello(data: Bytes) {
    |data| >= 6 && data[0] == 22 && data[1] == 3 && data[5] == 1
  }

  /** Record header and record. */
  function RecordLength(data: Bytes): nat
    requires |data| >= 6
  {
    (data[3] as int) * 256 + (data[4] as int) + 5
  }

  predicate VersionAt(data: Bytes, at: nat)
    requires at + 6 <= |data|
  {
    && data[at] == 0 && data[at + 1] == 43 && data[at + 2] == 0
    && data[at + 3] == 2 && data[at + 4] == 3 && data[at + 5] == 4
  }

  /** The extension supported_versions with TLS 1.3 stands within the first `end` bytes. */
  predicate VersionWithin(data: Bytes, end: int) {
    exists at | 0 <= at <= |data| - 6 :: at + 6 <= end && VersionAt(data, at)
  }

  /** How many bytes of a ServerHello are to come before packet `i`, and with packet `i`. */
  function LeftBefore(ps: seq<Packet>, i: nat): nat
    requires i <= |ps|
    decreases i, 0
  {
    if i == 0 || Left(ps, i - 1) <= |ps[i - 1].data| then 0 else Left(ps, i - 1) - |ps[i - 1].data|
  }

  function Left(ps: seq<Packet>, i: nat): nat
    requires i < |ps|
    decreases i, 1
  {
    if OpensServerHello(ps[i].data) then RecordLength(ps[i].data) else LeftBefore(ps, i)
  }

  predicate HasVersion(ps: seq<Packet>, i: nat)
    requires i < |ps|
  {
    VersionWithin(ps[i].data, Min(Left(ps, i), |ps[i].data|))
  }

  /** Packet `i` shows the version, or completes the ServerHello. */
  predicate Decides(ps: seq<Packet>, i: nat)
    requires i < |ps|
  {
    Left(ps, i) > 0 && (HasVersion(ps, i) || Left(ps, i) <= |ps[i].data|)
  }

  predicate FirstToDecide(ps: seq<Packet>, e: nat)
    requires e < |ps|
  {
    Decides(ps, e) && forall j: nat | j < e :: !Decides(ps, j)
  }

  /** The suite of the last ServerHello among the first `n` packets that is long enough to have one; 0 if there is none. */
  function Suite(ps: seq<Packet>, n: nat): int
    requires n <= |ps|
  {
    if n == 0 then 0
    else if OpensServerHello(ps[n - 1].data) && |ps[n - 1].data| >= 79 && RecordLength(ps[n - 1].data) >= 79 then ps[n - 1].suite
    else Suite(ps, n - 1)
  }

  /** One of the first `n` packets opens a ServerHello, or, if `client` is set, a ClientHello. */
  predicate HelloSeen(ps: seq<Packet>, n: nat, client: bool)
    requires n <= |ps|
  {
    exists j | 0 <= j < n :: OpensServerHello(ps[j].data) || (client && OpensClientHello(ps[j].data))
  }

  lemma HelloNext(ps: seq<Packet>, i: nat, client: bool)
    requires i < |ps|
    ensures HelloSeen(ps, i + 1, client) <==>
            HelloSeen(ps, i, client) || OpensServerHello(ps[i].data) || (client && OpensClientHello(ps[i].data))
  {
  }

  /** The flags after the first `n` packets. */
  predicate FlagsAfter(f: Filter, ps: seq<Packet>, n: nat)
    requires n <= |ps|
  {
    && f.tls12 == HelloSeen(ps, n, false)
    && f.tls == HelloSeen(ps, n, true)
    && f.cipher == Suite(ps, n)
  }

  /** Undecided after `n` packets: they have been counted down from eight. */
  predicate Undecided(f: Filter, ps: seq<Packet>, n: nat)
    requires n <= |ps|
  {
    && FlagsAfter(f, ps, n) && f.packets == 8 - n && !f.enableXtls
    && f.serverHello == if LeftBefore(ps, n) > 0 then LeftBefore(ps, n) else -1
  }

  /** Decided by packet `e`: with a listed suite, other than 0x1305, and the version, Xtls is enabled. */
  predicate Decided(f: Filter, ps: seq<Packet>, e: nat)
    requires e < |ps|
  {
    && FlagsAfter(f, ps, e + 1) && f.packets == 0
    && f.enableXtls == (HasVersion(ps, e) && Suite(ps, e + 1) in {0x1301, 0x1302, 0x1303, 0x1304})
  }

  lemma VersionOccurs(data: Bytes, end: nat)
    requires end <= |data|
    ensures Contains(data[..end], TLS13_SUPPORTED_VERSIONS) <==> VersionWithin(data, end)
  {
    forall at: nat | at + 6 <= end
      ensures OccursAt(data[..end], TLS13_SUPPORTED_VERSIONS, at) <==> VersionAt(data, at)
    {
      assert data[..end][at..at + 6] == [data[at], data[at + 1], data[at + 2], data[at + 3], data[at + 4], data[at + 5]];
    }
  }

  lemma FlagsNext(f: Filter, g: Filter, ps: seq<Packet>, i: nat)
    requires i < |ps| && FlagsAfter(f, ps, i)
    requires g.tls12 == (f.tls12 || OpensServerHello(ps[i].data))
    requires g.tls == (f.tls || OpensServerHello(ps[i].data) || OpensClientHello(ps[i].data))
    requires g.cipher == Suite(ps, i + 1)
    ensures FlagsAfter(g, ps, i + 1)
  {
    HelloNext(ps, i, false);
    HelloNext(ps, i, true);
    hide HelloSeen, OpensServerHello, OpensClientHello;
  }

  lemma LookNext(f: Filter, ps: seq<Packet>, i: nat)
    requires i < |ps| && Undecided(f, ps, i)
    ensures var (g, stop) := Look(f, ps[i]);
            && stop == Decides(ps, i)
            && (if stop then Decided(g, ps, i) else Undecided(g, ps, i + 1))
  {
    var data := ps[i].data;
    var h := Recognise(f, ps[i]);
    assert h.serverHello == if Left(ps, i) > 0 then Left(ps, i) else -1;
    VersionOccurs(data, Min(Left(ps, i), |data|));
    FlagsNext(f, Look(f, ps[i]).0, ps, i);
  }

  /** One call, from packet `i` to before packet `k`. */
  lemma {:induction false} ScanExact(f: Filter, ps: seq<Packet>, i: nat, k: nat)
    requires i <= k <= |ps| && Undecided(f, ps, i)
    ensures (forall j | i <= j < k :: !Decides(ps, j)) ==> Undecided(Scan(f, ps[i..k]), ps, k)
    ensures forall e | i <= e < k && Decides(ps, e) && (forall j | i <= j < e :: !Decides(ps, j)) :: Decided(Scan(f, ps[i..k]), ps, e)
    decreases k - i
  {
    if i < k {
      assert ps[i..k][0] == ps[i] && ps[i..k][1..] == ps[i + 1..k];
      LookNext(f, ps, i);
      if !Decides(ps, i) {
        ScanExact(Look(f, ps[i]).0, ps, i + 1, k);
      }
    } else {
      assert ps[i..k] == [];
    }
  }

  /** How many packets the calls show, if none decides: every call that begins before eight have been shown. */
  function Shown(calls: seq<seq<Packet>>, i: nat): nat {
    if calls == [] || i >= 8 then i else Shown(calls[1..], i + |calls[0]|)
  }

  lemma {:induction false} CallsFrozen(f: Filter, calls: seq<seq<Packet>>)
    requires f.packets <= 0
    ensures Calls(f, calls) == f
  {
    if calls != [] {
      CallsFrozen(f, calls[1..]);
    }
  }

  lemma {:induction false} ShownGrows(calls: seq<seq<Packet>>, i: nat, n: nat)
    requires i + |Seen(calls)| <= n
    ensures i <= Shown(calls, i) <= n
    decreases |calls|
  {
    if calls != [] && i < 8 {
      ShownGrows(calls[1..], i + |calls[0]|, n);
    }
  }

  lemma {:induction false} FirstFrom(ps: seq<Packet>, i: nat, k: nat) returns (e: nat)
    requires i <= k <= |ps| && exists j | i <= j < k :: Decides(ps, j)
    ensures i <= e < k && Decides(ps, e) && forall j | i <= j < e :: !Decides(ps, j)
    decreases k - i
  {
    if Decides(ps, i) {
      e := i;
    } else {
      e := FirstFrom(ps, i + 1, k);
    }
  }

  lemma {:induction false} CallsExact(f: Filter, ps: seq<Packet>, i: nat, calls: seq<seq<Packet>>)
    requires i <= |ps| && ps[i..] == Seen(calls) && Undecided(f, ps, i) && forall j | 0 <= j < i :: !Decides(ps, j)
    ensures i <= Shown(calls, i) <= |ps|
    ensures (forall j | 0 <= j < Shown(calls, i) :: !Decides(ps, j)) ==> Undecided(Calls(f, calls), ps, Shown(calls, i))
    ensures forall e | 0 <= e < Shown(calls, i) && FirstToDecide(ps, e) :: Decided(Calls(f, calls), ps, e)
    decreases |calls|
  {
    if calls != [] && i >= 8 {
      CallsFrozen(f, calls);
    } else if calls != [] {
      var k := i + |calls[0]|;
      assert |ps[i..]| == |calls[0]| + |Seen(calls[1..])|;
      assert ps[i..k] == ps[i..][..|calls[0]|] == calls[0];
      assert ps[k..] == ps[i..][|calls[0]|..] == Seen(calls[1..]);
      ScanExact(f, ps, i, k);
      if forall j | i <= j < k :: !Decides(ps, j) {
        CallsExact(Scan(f, calls[0]), ps, k, calls[1..]);
      } else {
        ShownGrows(calls[1..], k, |ps|);
        var e := FirstFrom(ps, i, k);
        CallsFrozen(Scan(f, calls[0]), calls[1..]);
      }
    }
  }

  /** From a new connection, under every interleaving: what the packets leave, decided or not. */
  lemma SniffingExact(calls: seq<seq<Packet>>)
    ensures var f, ps, n := Calls(NEW_FILTER, calls), Seen(calls), Shown(calls, 0);
            && n <= |ps|
            && ((forall j | 0 <= j < n :: !Decides(ps, j)) ==> Undecided(f, ps, n))
            && (forall e | 0 <= e < n && FirstToDecide(ps, e) :: Decided(f, ps, e))
  {
    var ps := Seen(calls);
    assert ps[0..] == ps;
    CallsExact(NEW_FILTER, ps, 0, calls);
  }

  /**
   Direct copy is enabled exactly if the first packet that decides is shown, has the TLS 1.3 version within
   its ServerHello, and the last suite shown is 0x1301, 0x1302, 0x1303 or 0x1304.
   */
  lemma XtlsExact(calls: seq<seq<Packet>>)
    ensures var ps, n := Seen(calls), Shown(calls, 0);
            && n <= |ps|
            && (Calls(NEW_FILTER, calls).enableXtls <==>
                exists e | 0 <= e < n :: FirstToDecide(ps, e) && HasVersion(ps, e) && Suite(ps, e + 1) in {0x1301, 0x1302, 0x1303, 0x1304})
  {
    SniffingExact(calls);
    var ps, n := Seen(calls), Shown(calls, 0);
    if exists j | 0 <= j < n :: Decides(ps, j) {
      var e := FirstFrom(ps, 0, n);
      assert FirstToDecide(ps, e);
    }
  }

  /** Packets are filtered until one decides, or eight have been shown. */
  lemma FilteringExact(calls: seq<seq<Packet>>)
    ensures var ps, n := Seen(calls), Shown(calls, 0);
            && n <= |ps|
            && (Calls(NEW_FILTER, calls).packets > 0 <==> n < 8 && forall j | 0 <= j < n :: !Decides(ps, j))
  {
    SniffingExact(calls);
    var ps, n := Seen(calls), Shown(calls, 0);
    if exists j | 0 <= j < n :: Decides(ps, j) {
      var e := FirstFrom(ps, 0, n);
      assert FirstToDecide(ps, e);
    }
  }

  // ---- Single packets, from any state ----

  /** A ServerHello that has the version: filtering ends, and Xtls is enabled for the four suites. */
  lemma HelloWithVersion(f: Filter, p: Packet, rest: seq<Packet>)
    requires OpensServerHello(p.data) && |p.data| >= 79 && RecordLength(p.data) >= 79
    requires VersionWithin(p.data, Min(RecordLength(p.data), |p.data|))
    ensures var g := Scan(f, [p] + rest);
            && g.packets == 0 && g.tls && g.tls12 && g.cipher == p.suite
            && g.enableXtls == (f.enableXtls || p.suite in {0x1301, 0x1302, 0x1303, 0x1304})
    ensures SuiteFits(p) && (p.data[43] as int) + 46 <= |p.data| ==>
            var at := (p.data[43] as int) + 44; p.suite == (p.data[at] as int) * 256 + (p.data[at + 1] as int)
  {
    assert ([p] + rest)[0] == p;
    VersionOccurs(p.data, Min(RecordLength(p.data), |p.data|));
  }

  /** A ServerHello that is complete without it: filtering ends, and Xtls is as before. */
  lemma HelloWithoutVersion(f: Filter, p: Packet, rest: seq<Packet>)
    requires OpensServerHello(p.data) && RecordLength(p.data) <= |p.data| && !VersionWithin(p.data, RecordLength(p.data))
    ensures var g := Scan(f, [p] + rest);
            g.packets == 0 && g.tls && g.tls12 && g.enableXtls == f.enableXtls
  {
    assert ([p] + rest)[0] == p;
    VersionOccurs(p.data, RecordLength(p.data));
  }

  /** A ClientHello shows TLS, and is counted. */
  lemma ClientHelloCounts(f: Filter, p: Packet)
    requires OpensClientHello(p.data) && f.serverHello <= 0
    ensures Scan(f, [p]) == f.(packets := f.packets - 1, tls := true)
  {
    assert [p][1..] == [];
  }

  /** Anything else is only counted. */
  lemma OtherCounts(f: Filter, p: Packet)
    requires !OpensClientHello(p.data) && !OpensServerHello(p.data) && f.serverHello <= 0
    ensures Scan(f, [p]) == f.(packets := f.packets - 1)
  {
    assert [p][1..] == [];
  }
}
