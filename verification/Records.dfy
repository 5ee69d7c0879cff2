/**
 IsCompleteRecord: do the bytes form whole TLS application data records (RFC 8446, section 5.2)?
 */
module Records {
  import opened Bytes
  import opened Buffers

  /** The first `n` of the three fixed header bytes are there. */
  predicate StartsRecord(b: Bytes, n: nat)
    requires n <= 3 && n <= |b|
  {
    (n > 0 ==> b[0] == 0x17) && (n > 1 ==> b[1] == 0x03) && (n > 2 ==> b[2] == 0x03)
  }

  /** The loop's own view: a header, a payload that is all there, and more records. */
  predicate WholeRecords(b: Bytes)
    decreases |b|
  {
    b == [] ||
    (&& |b| >= 5 && StartsRecord(b, 3)
     && 1 <= Word(b[3], b[4]) <= |b| - 5
     && WholeRecords(b[5 + Word(b[3], b[4])..]))
  }

  // ---- The record grammar ----

  predicate IsPayload(p: Bytes) {
    1 <= |p| < 0x1_0000
  }

  function EncodeRecord(p: Bytes): Bytes
    requires IsPayload(p)
  {
    [0x17, 0x03, 0x03, |p| / 256, |p| % 256] + p
  }

  function EncodeRecords(ps: seq<Bytes>): Bytes
    requires forall p | p in ps :: IsPayload(p)
  {
    if ps == [] then [] else EncodeRecord(ps[0]) + EncodeRecords(ps[1..])
  }

  ghost predicate IsRecordStream(b: Bytes) {
    exists ps: seq<Bytes> :: (forall p | p in ps :: IsPayload(p)) && EncodeRecords(ps) == b
  }

  lemma OneRecord(p: Bytes, rest: Bytes)
    requires IsPayload(p) && WholeRecords(rest)
    ensures WholeRecords(EncodeRecord(p) + rest)
  {
    var b := EncodeRecord(p) + rest;
    assert Word(b[3], b[4]) == |p|;
    assert b[5 + |p|..] == rest;
  }

  lemma {:induction false} RecordsAccepted(ps: seq<Bytes>)
    requires forall p | p in ps :: IsPayload(p)
    ensures WholeRecords(EncodeRecords(ps))
  {
    if ps != [] {
      RecordsAccepted(ps[1..]);
      OneRecord(ps[0], EncodeRecords(ps[1..]));
    }
  }

  lemma {:induction false} AcceptedAreRecords(b: Bytes) returns (ps: seq<Bytes>)
    requires WholeRecords(b)
    ensures (forall p | p in ps :: IsPayload(p)) && EncodeRecords(ps) == b
    decreases |b|
  {
    if b == [] {
      ps := [];
    } else {
      var n := Word(b[3], b[4]);
      var rest := AcceptedAreRecords(b[5 + n..]);
      ps := [b[5..5 + n]] + rest;
      assert ps[1..] == rest;
      assert b == EncodeRecord(b[5..5 + n]) + b[5 + n..];
    }
  }

  /** The test is exact: it accepts the concatenations of whole records, and nothing else. */
  lemma RecordsExact(b: Bytes)
    ensures WholeRecords(b) <==> IsRecordStream(b)
  {
    if WholeRecords(b) {
      var ps := AcceptedAreRecords(b);
    }
    if IsRecordStream(b) {
      var ps: seq<Bytes> :| (forall p | p in ps :: IsPayload(p)) && EncodeRecords(ps) == b;
      RecordsAccepted(ps);
    }
  }

  // ---- The method ----

  /** MultiBuffer.Copy into a slice that is long enough. */
  method CopyAll(mb: seq<Buffer?>, ghost pieces: seq<Bytes>) returns (b: Bytes)
    requires null !in mb && Holds(mb, pieces)
    ensures b == Join(pieces)
  {
    b := [];
    for i := 0 to |mb|
      invariant b == Join(pieces[..i])
    {
      assert mb[i] in mb;
      JoinTake(pieces, i);
      b := b + mb[i].v[mb[i].start..mb[i].end];
    }
    assert pieces[..|mb|] == pieces;
  }

  /** The loop of IsCompleteRecord, over the copied bytes. */
  method ScanRecords(b: Bytes) returns (complete: bool)
    ensures complete <==> WholeRecords(b)
  {
    var headerLen, recordLen := 5, 0;
    var totalLen := |b|;
    var i := 0;
    ghost var j := 0;  // where the current record starts
    while i < totalLen
      invariant 0 <= j <= i <= totalLen && 0 <= headerLen <= 5 && i == j + 5 - headerLen
      invariant StartsRecord(b[j..], Min(3, i - j))
      invariant headerLen >= 2 ==> recordLen == 0
      invariant headerLen == 1 ==> recordLen == Word(b[j + 3], 0)
      invariant headerLen == 0 ==> recordLen == Word(b[j + 3], b[j + 4])
      invariant WholeRecords(b) == WholeRecords(b[j..])
      decreases totalLen - i, headerLen
    {
      if headerLen > 0 {
        var data := b[i];
        i := i + 1;
        match headerLen {
          case 5 => if data != 0x17 { return false; }
          case 4 => if data != 0x03 { return false; }
          case 3 => if data != 0x03 { return false; }
          case 2 => recordLen := data * 256;
          case _ => recordLen := Or(recordLen, data);
        }
        headerLen := headerLen - 1;
      } else if recordLen > 0 {
        var remaining := totalLen - i;
        if remaining < recordLen {
          return false;
        } else {
          assert b[j..][5 + recordLen..] == b[i + recordLen..];
          i := i + recordLen;
          recordLen := 0;
          headerLen := 5;
          j := i;
        }
      } else {
        return false;
      }
    }
    return headerLen == 5 && recordLen == 0;
  }

  method IsCompleteRecord(mb: seq<Buffer?>, ghost pieces: seq<Bytes>) returns (complete: bool)
    requires null !in mb && Holds(mb, pieces)
    ensures complete <==> IsRecordStream(Join(pieces))
  {
    var b := CopyAll(mb, pieces);
    complete := ScanRecords(b);
    RecordsExact(b);
  }
}
