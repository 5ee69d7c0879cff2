/**
 normalizeAesingFlowStreamSettings: every aesingflow inbound of a config gets the aesingflow network
 and, if it has TLS settings, the aesingflow protocol in its ALPN.
 */
module StreamSettings {
  import opened Json

  const AESING := Str("aesingflow")

  /** The ALPN names aesingflow, alone or in a list. */
  predicate HasAlpn(alpn: Json) {
    if alpn.Arr? then AESING in alpn.items else alpn == AESING
  }

  function NormalAlpn(alpn: Json): Json {
    if HasAlpn(alpn) then alpn else Arr(if alpn.Arr? then alpn.items + [AESING] else [AESING])
  }

  function NormalTls(tls: seq<Field>): seq<Field> {
    if HasAlpn(Lookup(tls, "alpn")) then tls else Put(tls, "alpn", NormalAlpn(Lookup(tls, "alpn")))
  }

  function WithNetwork(ss: seq<Field>): seq<Field> {
    if Lookup(ss, "network") == AESING then ss else Put(ss, "network", AESING)
  }

  function NormalStream(ss: seq<Field>): seq<Field> {
    var s := WithNetwork(ss);
    if Lookup(s, "tlsSettings").Obj? && !HasAlpn(Lookup(Lookup(s, "tlsSettings").fields, "alpn")) then
      Put(s, "tlsSettings", Obj(NormalTls(Lookup(s, "tlsSettings").fields)))
    else s
  }

  /** An inbound that the normaliser looks at. */
  predicate IsAesing(j: Json) {
    j.Obj? && Lookup(j.fields, "protocol") == AESING && Lookup(j.fields, "streamSettings").Obj?
  }

  function NormalInbound(j: Json): Json {
    if IsAesing(j) then Obj(Put(j.fields, "streamSettings", Obj(NormalStream(Lookup(j.fields, "streamSettings").fields)))) else j
  }

  function NormalInbounds(items: seq<Json>): (r: seq<Json>)
    ensures |r| == |items|
  {
    if items == [] then [] else [NormalInbound(items[0])] + NormalInbounds(items[1..])
  }

  predicate HasInbounds(config: Json) {
    config.Obj? && Lookup(config.fields, "inbounds").Arr?
  }

  function Normal(config: Json): Json {
    if HasInbounds(config) then Obj(Put(config.fields, "inbounds", Arr(NormalInbounds(Lookup(config.fields, "inbounds").items)))) else config
  }

  // ---- What the normal form promises ----

  /** Network and ALPN name aesingflow. */
  predicate Settled(ss: seq<Field>) {
    && Lookup(ss, "network") == AESING
    && (Lookup(ss, "tlsSettings").Obj? ==> HasAlpn(Lookup(Lookup(ss, "tlsSettings").fields, "alpn")))
  }

  /** TLS settings keep every other field, and ALPN keeps its entries, in order, in front. */
  lemma TlsExact(tls: seq<Field>)
    ensures HasAlpn(Lookup(NormalTls(tls), "alpn"))
    ensures NormalTls(tls) == tls <==> HasAlpn(Lookup(tls, "alpn"))
    ensures forall key: string | key != "alpn" :: Lookup(NormalTls(tls), key) == Lookup(tls, key)
    ensures Lookup(tls, "alpn").Arr? ==>
      Lookup(NormalTls(tls), "alpn").Arr? && Lookup(tls, "alpn").items <= Lookup(NormalTls(tls), "alpn").items
  {
    var alpn := Lookup(tls, "alpn");
    LookupPut(tls, "alpn", NormalAlpn(alpn), "alpn");
    if !HasAlpn(alpn) {
      var items := NormalAlpn(alpn).items;
      assert items[|items| - 1] == AESING;
    }
    forall key: string | key != "alpn"
      ensures Lookup(NormalTls(tls), key) == Lookup(tls, key)
    {
      LookupPut(tls, "alpn", NormalAlpn(alpn), key);
    }
  }

  /** Stream settings change exactly if they are not settled; then only network and ALPN change. */
  lemma StreamExact(ss: seq<Field>)
    ensures Settled(NormalStream(ss))
    ensures NormalStream(ss) == ss <==> Settled(ss)
    ensures forall key: string | key != "network" && key != "tlsSettings" :: Lookup(NormalStream(ss), key) == Lookup(ss, key)
    ensures Lookup(ss, "tlsSettings").Obj? <==> Lookup(NormalStream(ss), "tlsSettings").Obj?
    ensures !Lookup(ss, "tlsSettings").Obj? ==> Lookup(NormalStream(ss), "tlsSettings") == Lookup(ss, "tlsSettings")
  {
    var s := WithNetwork(ss);
    LookupPut(ss, "network", AESING, "network");
    LookupPut(ss, "network", AESING, "tlsSettings");
    var tls := Lookup(s, "tlsSettings");
    if tls.Obj? {
      var alpn := Lookup(tls.fields, "alpn");
      TlsExact(tls.fields);
      LookupPut(s, "tlsSettings", Obj(NormalTls(tls.fields)), "network");
      LookupPut(s, "tlsSettings", Obj(NormalTls(tls.fields)), "tlsSettings");
    }
    forall key: string | key != "network" && key != "tlsSettings"
      ensures Lookup(NormalStream(ss), key) == Lookup(ss, key)
    {
      LookupPut(ss, "network", AESING, key);
      if tls.Obj? {
        LookupPut(s, "tlsSettings", Obj(NormalTls(tls.fields)), key);
      }
    }
  }

  /** An inbound changes iff it is an aesingflow inbound that is not settled, and only in its stream settings. */
  lemma InboundExact(j: Json)
    ensures NormalInbound(j) == j <==> (IsAesing(j) ==> Settled(Lookup(j.fields, "streamSettings").fields))
    ensures IsAesing(j) <==> IsAesing(NormalInbound(j))
    ensures IsAesing(j) ==> Settled(Lookup(NormalInbound(j).fields, "streamSettings").fields)
    ensures j.Obj? <==> NormalInbound(j).Obj?
    ensures j.Obj? ==> forall key: string | key != "streamSettings" :: Lookup(NormalInbound(j).fields, key) == Lookup(j.fields, key)
  {
    if IsAesing(j) {
      var ss := Lookup(j.fields, "streamSettings").fields;
      StreamExact(ss);
      LookupPut(j.fields, "streamSettings", Obj(NormalStream(ss)), "streamSettings");
      forall key: string | key != "streamSettings"
        ensures Lookup(NormalInbound(j).fields, key) == Lookup(j.fields, key)
      {
        LookupPut(j.fields, "streamSettings", Obj(NormalStream(ss)), key);
      }
      assert Lookup(NormalInbound(j).fields, "protocol") == AESING;
    }
  }

  lemma {:induction false} InboundsExact(items: seq<Json>)
    ensures forall i | 0 <= i < |items| :: NormalInbounds(items)[i] == NormalInbound(items[i])
    ensures NormalInbounds(items) == items <==> forall i | 0 <= i < |items| :: NormalInbound(items[i]) == items[i]
  {
    if items != [] {
      InboundsExact(items[1..]);
      assert items == [items[0]] + items[1..];
      assert forall i | 1 <= i < |items| :: items[i] == items[1..][i - 1];
    }
  }

  /** Normalising twice is normalising once. */
  lemma NormalTwice(config: Json)
    ensures Normal(Normal(config)) == Normal(config)
  {
    if HasInbounds(config) {
      var items := Lookup(config.fields, "inbounds").items;
      var value := Arr(NormalInbounds(items));
      LookupPut(config.fields, "inbounds", value, "inbounds");
      var c := Normal(config);
      InboundsExact(items);
      InboundsExact(NormalInbounds(items));
      forall i | 0 <= i < |items|
        ensures NormalInbound(NormalInbounds(items)[i]) == NormalInbounds(items)[i]
      {
        InboundExact(items[i]);
        InboundExact(NormalInbound(items[i]));
      }
      LookupPut(c.fields, "inbounds", value, "inbounds");
    }
  }

  /** What the result promises for every config that has inbounds. */
  lemma NormalExact(config: Json)
    requires HasInbounds(config)
    ensures HasInbounds(Normal(config))
    ensures forall key: string | key != "inbounds" :: Lookup(Normal(config).fields, key) == Lookup(config.fields, key)
    ensures var items, normal := Lookup(config.fields, "inbounds").items, Lookup(Normal(config).fields, "inbounds").items;
      && |normal| == |items|
      && (forall i | 0 <= i < |items| && !IsAesing(items[i]) :: normal[i] == items[i])
      && (forall i | 0 <= i < |items| && IsAesing(items[i]) ::
            IsAesing(normal[i]) && Settled(Lookup(normal[i].fields, "streamSettings").fields))
  {
    var items := Lookup(config.fields, "inbounds").items;
    LookupPut(config.fields, "inbounds", Arr(NormalInbounds(items)), "inbounds");
    InboundsExact(items);
    forall i | 0 <= i < |items| && IsAesing(items[i])
      ensures IsAesing(NormalInbounds(items)[i]) && Settled(Lookup(NormalInbounds(items)[i].fields, "streamSettings").fields)
    {
      InboundExact(items[i]);
    }
    forall key: string | key != "inbounds"
      ensures Lookup(Normal(config).fields, key) == Lookup(config.fields, key)
    {
      LookupPut(config.fields, "inbounds", Arr(NormalInbounds(items)), key);
    }
  }

  // ---- The result, told from the inbound alone ----

  /** ALPN afterwards: as it was if it names aesingflow, otherwise the old array with it behind, or it alone. */
  function AlpnAfter(alpn: Json): Json {
    if alpn == Str("aesingflow") then alpn
    else if !alpn.Arr? then Arr([Str("aesingflow")])
    else if Str("aesingflow") in alpn.items then alpn
    else Arr(alpn.items + [Str("aesingflow")])
  }

  /** TLS settings: only ALPN may change. */
  ghost predicate TlsKept(before: seq<Field>, after: seq<Field>) {
    && (forall key: string | key != "alpn" :: Lookup(after, key) == Lookup(before, key))
    && Lookup(after, "alpn") == AlpnAfter(Lookup(before, "alpn"))
    && FieldKeys(after) == WithKey(FieldKeys(before), "alpn")
  }

  /** Stream settings: network is set, TLS settings keep all but ALPN, and everything else stays. */
  ghost predicate StreamKept(before: seq<Field>, after: seq<Field>) {
    && Lookup(after, "network") == Str("aesingflow")
    && (forall key: string | key != "network" && key != "tlsSettings" :: Lookup(after, key) == Lookup(before, key))
    && (if Lookup(before, "tlsSettings").Obj? then
          Lookup(after, "tlsSettings").Obj? && TlsKept(Lookup(before, "tlsSettings").fields, Lookup(after, "tlsSettings").fields)
        else Lookup(after, "tlsSettings") == Lookup(before, "tlsSettings"))
    && FieldKeys(after) == WithKey(FieldKeys(before), "network")
  }

  /** An aesingflow inbound keeps everything but its stream settings; any other inbound stays as it is. */
  ghost predicate InboundKept(before: Json, after: Json) {
    if before.Obj? && Lookup(before.fields, "protocol") == Str("aesingflow") && Lookup(before.fields, "streamSettings").Obj? then
      && after.Obj? && FieldKeys(after.fields) == FieldKeys(before.fields)
      && (forall key: string | key != "streamSettings" :: Lookup(after.fields, key) == Lookup(before.fields, key))
      && Lookup(after.fields, "streamSettings").Obj?
      && StreamKept(Lookup(before.fields, "streamSettings").fields, Lookup(after.fields, "streamSettings").fields)
    else after == before
  }

  lemma TlsKeeps(tls: seq<Field>)
    ensures TlsKept(tls, NormalTls(tls))
  {
    var alpn := Lookup(tls, "alpn");
    TlsExact(tls);
    LookupPut(tls, "alpn", NormalAlpn(alpn), "alpn");
    PutFieldKeys(tls, "alpn", NormalAlpn(alpn));
    if HasAlpn(alpn) {
      LookupFieldKeys(tls, "alpn");
    }
  }

  lemma StreamKeeps(ss: seq<Field>)
    ensures StreamKept(ss, NormalStream(ss))
  {
    hide TlsKept, HasAlpn, NormalTls;
    var s := WithNetwork(ss);
    StreamExact(ss);
    LookupPut(ss, "network", AESING, "tlsSettings");
    PutFieldKeys(ss, "network", AESING);
    if Lookup(ss, "network") == AESING {
      LookupFieldKeys(ss, "network");
    }
    var tls := Lookup(s, "tlsSettings");
    if tls.Obj? {
      TlsKeeps(tls.fields);
      TlsExact(tls.fields);
      LookupPut(s, "tlsSettings", Obj(NormalTls(tls.fields)), "tlsSettings");
      PutFieldKeys(s, "tlsSettings", Obj(NormalTls(tls.fields)));
      LookupFieldKeys(s, "tlsSettings");
    }
  }

  lemma InboundKeeps(j: Json)
    ensures InboundKept(j, NormalInbound(j))
  {
    hide StreamKept, NormalStream;
    InboundExact(j);
    if IsAesing(j) {
      var ss := Lookup(j.fields, "streamSettings").fields;
      StreamKeeps(ss);
      LookupPut(j.fields, "streamSettings", Obj(NormalStream(ss)), "streamSettings");
      PutFieldKeys(j.fields, "streamSettings", Obj(NormalStream(ss)));
      LookupFieldKeys(j.fields, "streamSettings");
    }
  }

  /** What normalising a config does, inbound by inbound and field by field. */
  lemma NormalKeeps(config: Json)
    ensures !(config.Obj? && Lookup(config.fields, "inbounds").Arr?) ==> Normal(config) == config
    ensures config.Obj? && Lookup(config.fields, "inbounds").Arr? ==>
      && Normal(config).Obj? && FieldKeys(Normal(config).fields) == FieldKeys(config.fields)
      && (forall key: string | key != "inbounds" :: Lookup(Normal(config).fields, key) == Lookup(config.fields, key))
      && Lookup(Normal(config).fields, "inbounds").Arr?
      && var before, after := Lookup(config.fields, "inbounds").items, Lookup(Normal(config).fields, "inbounds").items;
         |after| == |before| && forall i | 0 <= i < |before| :: InboundKept(before[i], after[i])
  {
    hide InboundKept, NormalInbound;
    if HasInbounds(config) {
      var items := Lookup(config.fields, "inbounds").items;
      NormalExact(config);
      LookupPut(config.fields, "inbounds", Arr(NormalInbounds(items)), "inbounds");
      PutFieldKeys(config.fields, "inbounds", Arr(NormalInbounds(items)));
      LookupFieldKeys(config.fields, "inbounds");
      InboundsExact(items);
      forall i | 0 <= i < |items|
        ensures InboundKept(items[i], NormalInbounds(items)[i])
      {
        InboundKeeps(items[i]);
      }
    }
  }

  // ---- The method ----

  /** The assignments to one inbound's stream settings. */
  method NormalizeStream(streamSettings: seq<Field>) returns (ss: seq<Field>, changed: bool)
    ensures ss == NormalStream(streamSettings) && changed == !Settled(streamSettings)
  {
    ss, changed := streamSettings, false;
    LookupPut(ss, "network", AESING, "tlsSettings");
    if Lookup(ss, "network") != AESING {
      ss := Put(ss, "network", AESING);
      changed := true;
    }
    if !Lookup(ss, "tlsSettings").Obj? {
      return;
    }
    var tlsSettings := Lookup(ss, "tlsSettings").fields;
    var alpn := Lookup(tlsSettings, "alpn");
    var hasAesingFlowAlpn := if alpn.Arr? then AESING in alpn.items else alpn == AESING;
    if !hasAesingFlowAlpn {
      tlsSettings := Put(tlsSettings, "alpn", if alpn.Arr? then Arr(alpn.items + [AESING]) else Arr([AESING]));
      ss := Put(ss, "tlsSettings", Obj(tlsSettings));
      changed := true;
    }
  }

  /** One turn of the loop. */
  method NormalizeInbound(inbound: Json) returns (r: Json, changed: bool)
    ensures r == NormalInbound(inbound) && (changed <==> r != inbound)
  {
    InboundExact(inbound);
    if !inbound.Obj? || Lookup(inbound.fields, "protocol") != AESING {
      return inbound, false;
    }
    if !Lookup(inbound.fields, "streamSettings").Obj? {
      return inbound, false;
    }
    var streamSettings;
    streamSettings, changed := NormalizeStream(Lookup(inbound.fields, "streamSettings").fields);
    r := Obj(Put(inbound.fields, "streamSettings", Obj(streamSettings)));
  }

  /** The loop over the inbounds of the clone. */
  method NormalizeInbounds(items: seq<Json>) returns (inbounds: seq<Json>, changed: bool)
    ensures inbounds == NormalInbounds(items)
    ensures changed <==> inbounds != items
  {
    inbounds, changed := items, false;
    InboundsExact(items);
    for i := 0 to |items|
      invariant |inbounds| == |items|
      invariant forall k | 0 <= k < i :: inbounds[k] == NormalInbounds(items)[k]
      invariant forall k | i <= k < |items| :: inbounds[k] == items[k]
      invariant changed <==> exists k | 0 <= k < i :: NormalInbounds(items)[k] != items[k]
    {
      var inbound, changedHere := NormalizeInbound(inbounds[i]);
      inbounds := inbounds[i := inbound];
      changed := changed || changedHere;
    }
  }

  method NormalizeAesingFlowStreamSettings(config: Json) returns (nextConfig: Json, changed: bool)
    ensures nextConfig == Normal(config)
    ensures changed <==> nextConfig != config
  {
    if !config.Obj? || !Lookup(config.fields, "inbounds").Arr? {
      return config, false;
    }
    var inbounds;
    var items := Lookup(config.fields, "inbounds").items;
    inbounds, changed := NormalizeInbounds(items);
    InboundsExact(items);
    LookupPut(config.fields, "inbounds", Arr(inbounds), "inbounds");
    nextConfig := Obj(Put(config.fields, "inbounds", Arr(inbounds)));
  }
}
