/**
 NodesSystemCacheService: what is cached of many nodes, read by one pipeline and picked apart by
 index, against the reads of one node.
 */
module NodesSystemCache {
  import opened Collections
  import opened Json

  type Uuid = string

  /** The five keys of a node. */
  datatype Kind = Info | Stats | Online | Versions | Uptime
  datatype Key = Key(kind: Kind, uuid: Uuid)

  datatype System = System(info: Json, stats: Json)
  datatype HotCache = HotCache(system: Option<System>, versions: Json, xrayUptime: real, onlineUsers: real)

  const NOTHING := HotCache(None, Null, 0.0, 0.0)

  /** One reply in a pipeline; what is missing is the empty string, which counts as missing. */
  datatype Reply = Error | Raw(raw: string)

  /** The last turn for a node, which overwrites the earlier ones. */
  function LastAt(nodes: seq<Uuid>, n: Uuid): (i: nat)
    requires n in nodes
    ensures i < |nodes| && nodes[i] == n
  {
    if nodes[|nodes| - 1] == n then |nodes| - 1 else LastAt(nodes[..|nodes| - 1], n)
  }

  /** The commands of getMany, in order. */
  function Keys(nodes: seq<Uuid>): (ks: seq<Key>)
    ensures |ks| == 5 * |nodes|
  {
    if nodes == [] then []
    else
      var n := nodes[|nodes| - 1];
      Keys(nodes[..|nodes| - 1]) + [Key(Info, n), Key(Stats, n), Key(Online, n), Key(Versions, n), Key(Uptime, n)]
  }

  /** The five keys of a node, from position `j` on. */
  predicate KeysAt(keys: seq<Key>, j: nat, n: Uuid) {
    && j + 5 <= |keys|
    && keys[j] == Key(Info, n) && keys[j + 1] == Key(Stats, n) && keys[j + 2] == Key(Online, n)
    && keys[j + 3] == Key(Versions, n) && keys[j + 4] == Key(Uptime, n)
  }

  lemma {:induction false} KeyAt(nodes: seq<Uuid>, i: nat)
    requires i < |nodes|
    ensures KeysAt(Keys(nodes), 5 * i, nodes[i])
  {
    if i < |nodes| - 1 {
      KeyAt(nodes[..|nodes| - 1], i);
    }
  }

  lemma LastAtSnoc(nodes: seq<Uuid>, x: Uuid, n: Uuid)
    requires n in nodes || n == x
    ensures LastAt(nodes + [x], n) == if n == x then |nodes| else LastAt(nodes, n)
  {
    assert (nodes + [x])[..|nodes|] == nodes;
  }

  /** The commands of getTotalOnlineUsers. */
  function OnlineKeys(nodes: seq<Uuid>): seq<Key> {
    seq(|nodes|, i requires 0 <= i < |nodes| => Key(Online, nodes[i]))
  }

  /** `if (value)` */
  predicate Truthy(j: Json) {
    match j
    case Null => false
    case Bool(b) => b
    case Number(n) => n != 0.0
    case Str(s) => s != ""
    case _ => true
  }

  /** The stored strings, with JSON.parse, which may throw, and Number. */
  datatype Redis = Redis(db: map<Key, string>, parse: string -> Option<Json>, number: string -> real) {
    function Get(key: Key): string {
      if key in db then db[key] else ""
    }

    predicate Malformed(raw: string) {
      raw != "" && parse(raw).None?
    }

    /** JSON.parse of what is there, or null. */
    function Parsed(raw: string): Json
      requires !Malformed(raw)
    {
      if raw == "" then Null else parse(raw).value
    }

    function Count(raw: string): real {
      if raw == "" then 0.0 else number(raw)
    }

    // ---- getOne ----

    /** None: the call throws. */
    function One(uuid: Uuid): Option<HotCache> {
      var info, stats, versions := Get(Key(Info, uuid)), Get(Key(Stats, uuid)), Get(Key(Versions, uuid));
      if Malformed(info) || Malformed(stats) || Malformed(versions) then None
      else
        Some(HotCache(
          if Truthy(Parsed(info)) && Truthy(Parsed(stats)) then Some(System(Parsed(info), Parsed(stats))) else None,
          Parsed(versions), Count(Get(Key(Uptime, uuid))), Count(Get(Key(Online, uuid)))))
    }

    /** The stored text, if there is one that is not empty. */
    predicate Stored(kind: Kind, uuid: Uuid) {
      Key(kind, uuid) in db && db[Key(kind, uuid)] != ""
    }

    /** What is stored can be parsed. */
    predicate Readable(kind: Kind, uuid: Uuid) {
      Stored(kind, uuid) ==> parse(db[Key(kind, uuid)]).Some?
    }

    /** null, false, 0 and the empty string count as nothing. */
    predicate Something(kind: Kind, uuid: Uuid) {
      && Stored(kind, uuid) && parse(db[Key(kind, uuid)]).Some?
      && parse(db[Key(kind, uuid)]).value !in {Null, Bool(false), Number(0.0), Str("")}
    }

    /** getOne, field by field, told from what is stored. */
    lemma OneMeans(uuid: Uuid)
      ensures One(uuid).Some? <==> Readable(Info, uuid) && Readable(Stats, uuid) && Readable(Versions, uuid)
      ensures One(uuid).Some? ==>
        var c := One(uuid).value;
        && (c.system.Some? <==> Something(Info, uuid) && Something(Stats, uuid))
        && (c.system.Some? ==> c.system.value == System(parse(db[Key(Info, uuid)]).value, parse(db[Key(Stats, uuid)]).value))
        && c.versions == (if Stored(Versions, uuid) then parse(db[Key(Versions, uuid)]).value else Null)
        && c.xrayUptime == (if Stored(Uptime, uuid) then number(db[Key(Uptime, uuid)]) else 0.0)
        && c.onlineUsers == (if Stored(Online, uuid) then number(db[Key(Online, uuid)]) else 0.0)
    {
      if Readable(Info, uuid) {
        TruthyMeans(Info, uuid);
      }
      if Readable(Stats, uuid) {
        TruthyMeans(Stats, uuid);
      }
    }

    lemma TruthyMeans(kind: Kind, uuid: Uuid)
      requires Readable(kind, uuid)
      ensures !Malformed(Get(Key(kind, uuid))) && (Truthy(Parsed(Get(Key(kind, uuid)))) <==> Something(kind, uuid))
    {
    }

    // ---- getMany ----

    /** A reply that can be used. */
    function Usable(r: Reply): string {
      if r.Error? then "" else r.raw
    }

    /** One turn of the loop, given this node's replies; None: it throws. */
    function Assemble(info: Reply, stats: Reply, online: Reply, versions: Reply, uptime: Reply): Option<HotCache> {
      var both := Usable(info) != "" && Usable(stats) != "";
      if (both && (Malformed(Usable(info)) || Malformed(Usable(stats)))) || Malformed(Usable(versions)) then None
      else
        Some(HotCache(
          if both then Some(System(Parsed(Usable(info)), Parsed(Usable(stats)))) else None,
          Parsed(Usable(versions)), Count(Usable(uptime)), Count(Usable(online))))
    }

    /** A text was read that is not empty. */
    predicate Given(r: Reply) {
      r.Raw? && r.raw != ""
    }

    /** One turn of getMany, field by field, told from the replies: a failed command reads as nothing. */
    lemma AssembleMeans(info: Reply, stats: Reply, online: Reply, versions: Reply, uptime: Reply)
      ensures var m := Assemble(info, stats, online, versions, uptime);
        && (m.None? <==>
              || (Given(info) && Given(stats) && (parse(info.raw).None? || parse(stats.raw).None?))
              || (Given(versions) && parse(versions.raw).None?))
        && (m.Some? ==>
              && (m.value.system.Some? <==> Given(info) && Given(stats))
              && (m.value.system.Some? ==> m.value.system.value == System(parse(info.raw).value, parse(stats.raw).value))
              && m.value.versions == (if Given(versions) then parse(versions.raw).value else Null)
              && m.value.xrayUptime == (if Given(uptime) then number(uptime.raw) else 0.0)
              && m.value.onlineUsers == (if Given(online) then number(online.raw) else 0.0))
    {
    }

    function Reads(kind: Kind, uuid: Uuid): Reply {
      Raw(Get(Key(kind, uuid)))
    }

    /** Node `uuid` as the pipeline sees it when no command fails. */
    function Piped(uuid: Uuid): Option<HotCache> {
      Assemble(Reads(Info, uuid), Reads(Stats, uuid), Reads(Online, uuid), Reads(Versions, uuid), Reads(Uptime, uuid))
    }

    /** Info and stats are both there, and truthy or one malformed; or one is missing, and neither is malformed. */
    predicate Agreeing(uuid: Uuid) {
      var info, stats := Get(Key(Info, uuid)), Get(Key(Stats, uuid));
      || Malformed(Get(Key(Versions, uuid)))
      || (if info != "" && stats != "" then
            Malformed(info) || Malformed(stats) || (Truthy(Parsed(info)) && Truthy(Parsed(stats)))
          else !Malformed(info) && !Malformed(stats))
    }

    /**
     Both ways of reading a node agree, in value and in throwing, iff its info and stats do, or its
     versions make both throw.
     */
    lemma OneExact(uuid: Uuid)
      ensures Piped(uuid) == One(uuid) <==> Agreeing(uuid)
    {
    }

    /** The replies to all the commands of the pipeline: any of them may be an error. */
    predicate Answers(replies: seq<Reply>, keys: seq<Key>) {
      |replies| == |keys| && forall i | 0 <= i < |keys| :: replies[i].Error? || replies[i] == Raw(Get(keys[i]))
    }

    function NodeAt(replies: seq<Reply>, i: nat): Option<HotCache>
      requires 5 * i + 5 <= |replies|
    {
      Assemble(replies[5 * i], replies[5 * i + 1], replies[5 * i + 2], replies[5 * i + 3], replies[5 * i + 4])
    }

    lemma AnswerAt(replies: seq<Reply>, keys: seq<Key>, j: nat, kind: Kind, uuid: Uuid)
      requires Answers(replies, keys) && Error !in replies && j < |keys| && keys[j] == Key(kind, uuid)
      ensures replies[j] == Reads(kind, uuid)
    {
      assert replies[j] in replies;
    }

    lemma FiveAnswers(replies: seq<Reply>, keys: seq<Key>, i: nat, n: Uuid)
      requires Answers(replies, keys) && Error !in replies && KeysAt(keys, 5 * i, n)
      ensures NodeAt(replies, i) == Piped(n)
    {
      AnswerAt(replies, keys, 5 * i, Info, n);
      AnswerAt(replies, keys, 5 * i + 1, Stats, n);
      AnswerAt(replies, keys, 5 * i + 2, Online, n);
      AnswerAt(replies, keys, 5 * i + 3, Versions, n);
      AnswerAt(replies, keys, 5 * i + 4, Uptime, n);
    }

    /** Turn `i` picks out the five replies that belong to node `i`. */
    lemma NodeAtIsPiped(replies: seq<Reply>, nodes: seq<Uuid>, i: nat)
      requires Answers(replies, Keys(nodes)) && Error !in replies && i < |nodes|
      ensures 5 * i + 5 <= |replies| && NodeAt(replies, i) == Piped(nodes[i])
    {
      KeyAt(nodes, i);
      FiveAnswers(replies, Keys(nodes), i, nodes[i]);
    }

    /** getMany on these nodes gives what getOne gives for each; None: both throw, the latter for some node. */
    predicate Same(nodes: seq<Uuid>, m: Option<map<Uuid, HotCache>>) {
      && (m.Some? <==> forall n | n in nodes :: One(n).Some?)
      && (m.Some? ==> m.value.Keys == Set(nodes) && forall n | n in nodes :: One(n) == Some(m.value[n]))
    }

    /** Each node has what its last turn gave. */
    predicate Filled(nodes: seq<Uuid>, replies: seq<Reply>, m: map<Uuid, HotCache>)
      requires 5 * |nodes| <= |replies|
    {
      m.Keys == Set(nodes) && forall n | n in nodes :: NodeAt(replies, LastAt(nodes, n)) == Some(m[n])
    }

    lemma FilledNext(nodes: seq<Uuid>, i: nat, replies: seq<Reply>, m: map<Uuid, HotCache>, value: HotCache)
      requires i < |nodes| && 5 * |nodes| <= |replies| && Filled(nodes[..i], replies, m) && NodeAt(replies, i) == Some(value)
      ensures Filled(nodes[..i + 1], replies, m[nodes[i] := value])
    {
      assert nodes[..i + 1] == nodes[..i] + [nodes[i]];
      FilledSnoc(nodes[..i], replies, m, nodes[i], value);
    }

    lemma FilledSnoc(nodes: seq<Uuid>, replies: seq<Reply>, m: map<Uuid, HotCache>, x: Uuid, value: HotCache)
      requires 5 * |nodes| + 5 <= |replies| && Filled(nodes, replies, m) && NodeAt(replies, |nodes|) == Some(value)
      ensures Filled(nodes + [x], replies, m[x := value])
    {
      forall n | n in nodes + [x]
        ensures NodeAt(replies, LastAt(nodes + [x], n)) == Some(m[x := value][n])
      {
        LastAtSnoc(nodes, x, n);
      }
    }

    /** The result of getMany for any replies. */
    predicate Collected(nodes: seq<Uuid>, replies: seq<Reply>, m: Option<map<Uuid, HotCache>>)
      requires |replies| == 5 * |nodes|
    {
      && (m.Some? <==> forall i | 0 <= i < |nodes| :: NodeAt(replies, i).Some?)
      && (m.Some? ==> Filled(nodes, replies, m.value))
    }

    lemma ManyAgree(nodes: seq<Uuid>, replies: seq<Reply>, m: Option<map<Uuid, HotCache>>)
      requires Answers(replies, Keys(nodes)) && Error !in replies && Collected(nodes, replies, m)
      requires forall n | n in nodes :: Agreeing(n)
      ensures Same(nodes, m)
    {
      forall i | 0 <= i < |nodes|
        ensures NodeAt(replies, i) == One(nodes[i])
      {
        NodeAtIsPiped(replies, nodes, i);
        OneExact(nodes[i]);
      }
    }

    lemma SameAgrees(nodes: seq<Uuid>, replies: seq<Reply>, m: Option<map<Uuid, HotCache>>, n: Uuid)
      requires Answers(replies, Keys(nodes)) && Error !in replies && Collected(nodes, replies, m)
      requires m.Some? && Same(nodes, m) && n in nodes
      ensures Agreeing(n)
    {
      NodeAtIsPiped(replies, nodes, LastAt(nodes, n));
      OneExact(n);
    }

    /** Where the pipeline cannot be read, neither can the node alone. */
    lemma BothThrow(nodes: seq<Uuid>, replies: seq<Reply>)
      requires Answers(replies, Keys(nodes)) && Error !in replies && Collected(nodes, replies, None)
      ensures Same(nodes, None)
    {
      var i :| 0 <= i < |nodes| && NodeAt(replies, i).None?;
      NodeAtIsPiped(replies, nodes, i);
      assert One(nodes[i]).None?;
    }

    /**
     Without errors the batched read is the reads one by one, in values and in throwing, iff it throws or
     all nodes agree: when it throws, getOne throws for the same node.
     */
    lemma ManyExact(nodes: seq<Uuid>, replies: seq<Reply>, m: Option<map<Uuid, HotCache>>)
      requires Answers(replies, Keys(nodes)) && Error !in replies && Collected(nodes, replies, m)
      ensures Same(nodes, m) <==> m.None? || forall n | n in nodes :: Agreeing(n)
    {
      if m.None? {
        BothThrow(nodes, replies);
      } else if forall n | n in nodes :: Agreeing(n) {
        ManyAgree(nodes, replies, m);
      } else if Same(nodes, m) {
        var n :| n in nodes && !Agreeing(n);
        SameAgrees(nodes, replies, m, n);
      }
    }

    /** What getTotalOnlineUsers adds up; a failed command counts as nobody. */
    function Sum(replies: seq<Reply>): real {
      if replies == [] then 0.0 else Sum(replies[..|replies| - 1]) + Count(Usable(replies[|replies| - 1]))
    }

    /** One more reply adds the number that was read, and nothing if none was. */
    lemma SumMeans(replies: seq<Reply>, r: Reply)
      ensures Sum([]) == 0.0
      ensures Sum(replies + [r]) == Sum(replies) + (if Given(r) then number(r.raw) else 0.0)
    {
      assert (replies + [r])[..|replies|] == replies;
    }

    /** The sum over what getOne gives for each node. */
    function TotalOfOne(nodes: seq<Uuid>): real
      requires forall n | n in nodes :: One(n).Some?
    {
      if nodes == [] then 0.0 else TotalOfOne(nodes[..|nodes| - 1]) + One(nodes[|nodes| - 1]).value.onlineUsers
    }

    /** Without errors the total is the sum over the nodes read one by one. */
    lemma {:induction false} TotalIsSum(nodes: seq<Uuid>, replies: seq<Reply>)
      requires forall n | n in nodes :: One(n).Some?
      requires Answers(replies, OnlineKeys(nodes)) && Error !in replies
      ensures Sum(replies) == TotalOfOne(nodes)
    {
      if nodes != [] {
        var k := |nodes| - 1;
        AnswerAt(replies, OnlineKeys(nodes), k, Online, nodes[k]);
        assert forall i | 0 <= i < k :: replies[..k][i] == replies[i] && OnlineKeys(nodes[..k])[i] == OnlineKeys(nodes)[i];
        TotalIsSum(nodes[..k], replies[..k]);
      }
    }
  }

  /** redis.pipeline() */
  class Pipeline {
    const redis: Redis
    var keys: seq<Key>

    constructor (redis: Redis)
      ensures this.redis == redis && keys == []
    {
      this.redis, keys := redis, [];
    }

    method Get(key: Key)
      modifies this
      ensures keys == old(keys) + [key]
    {
      keys := keys + [key];
    }

    /** Nothing at all, or a reply for each command, of which some may have failed. */
    method Exec() returns (results: Option<seq<Reply>>)
      ensures results.Some? ==> redis.Answers(results.value, keys)
    {
      var any :| any || !any;
      if !any {
        return None;
      }
      var replies: seq<Reply> := [];
      for i := 0 to |keys|
        invariant redis.Answers(replies, keys[..i])
      {
        var fails :| fails || !fails;
        assert keys[..i + 1] == keys[..i] + [keys[i]];
        replies := replies + [if fails then Error else Raw(redis.Get(keys[i]))];
      }
      assert keys[..|keys|] == keys;
      return Some(replies);
    }
  }

  /** The five reads of one node, taken together; None: a stored text cannot be parsed. */
  method GetOne(redis: Redis, uuid: Uuid) returns (r: Option<HotCache>)
    ensures r == redis.One(uuid)
  {
    var info, stats, versions := redis.Get(Key(Info, uuid)), redis.Get(Key(Stats, uuid)), redis.Get(Key(Versions, uuid));
    if redis.Malformed(info) || redis.Malformed(stats) || redis.Malformed(versions) {
      return None;
    }
    var system := None;
    if Truthy(redis.Parsed(info)) && Truthy(redis.Parsed(stats)) {
      system := Some(System(redis.Parsed(info), redis.Parsed(stats)));
    }
    var xrayUptime, onlineUsers := redis.Count(redis.Get(Key(Uptime, uuid))), redis.Count(redis.Get(Key(Online, uuid)));
    return Some(HotCache(system, redis.Parsed(versions), xrayUptime, onlineUsers));
  }

  /** The loop that fills the pipeline. */
  method Ask(redis: Redis, nodes: seq<Uuid>) returns (results: Option<seq<Reply>>)
    ensures results.Some? ==> redis.Answers(results.value, Keys(nodes))
  {
    var pipe := new Pipeline(redis);
    for i := 0 to |nodes|
      invariant pipe.redis == redis && pipe.keys == Keys(nodes[..i])
    {
      var n := nodes[i];
      assert nodes[..i + 1][..i] == nodes[..i];
      pipe.Get(Key(Info, n));
      pipe.Get(Key(Stats, n));
      pipe.Get(Key(Online, n));
      pipe.Get(Key(Versions, n));
      pipe.Get(Key(Uptime, n));
    }
    assert nodes[..|nodes|] == nodes;
    results := pipe.Exec();
  }

  /** One turn of the loop. */
  method CollectOne(redis: Redis, results: seq<Reply>, i: nat) returns (node: Option<HotCache>)
    requires 5 * i + 5 <= |results|
    ensures node == redis.NodeAt(results, i)
  {
    var base := i * 5;
    node := redis.Assemble(results[base], results[base + 1], results[base + 2], results[base + 3], results[base + 4]);
  }

  /** The loop over the replies. */
  method Collect(redis: Redis, nodes: seq<Uuid>, results: seq<Reply>) returns (m: Option<map<Uuid, HotCache>>)
    requires |results| == 5 * |nodes|
    ensures redis.Collected(nodes, results, m)
  {
    var done: map<Uuid, HotCache> := map[];
    assert redis.Filled(nodes[..0], results, done);
    hide Redis.NodeAt, Redis.Filled;
    for i := 0 to |nodes|
      invariant forall j | 0 <= j < i :: redis.NodeAt(results, j).Some?
      invariant redis.Filled(nodes[..i], results, done)
    {
      var node := CollectOne(redis, results, i);
      if node.None? {
        return None;
      }
      redis.FilledNext(nodes, i, results, done, node.value);
      done := done[nodes[i] := node.value];
    }
    assert nodes[..|nodes|] == nodes;
    return Some(done);
  }

  /**
   The cached values of many nodes; None: a stored value cannot be parsed, and the call throws. If the
   pipeline gives nothing every node reads as nothing.
   */
  method GetMany(redis: Redis, nodes: seq<Uuid>) returns (m: Option<map<Uuid, HotCache>>, results: Option<seq<Reply>>)
    ensures results.Some? ==> redis.Answers(results.value, Keys(nodes)) && redis.Collected(nodes, results.value, m)
    ensures results.None? ==> m == Some(map n | n in nodes :: HotCache(None, Null, 0.0, 0.0))
    ensures results.Some? && Error !in results.value ==>
      (redis.Same(nodes, m) <==> m.None? || forall n | n in nodes :: redis.Agreeing(n))
  {
    results := Ask(redis, nodes);
    if results.None? {
      return Some(map n | n in nodes :: NOTHING), results;
    }
    m := Collect(redis, nodes, results.value);
    if Error !in results.value {
      redis.ManyExact(nodes, results.value, m);
    }
  }

  /** The sum over the replies; nothing if the pipeline gives nothing. */
  method GetTotalOnlineUsers(redis: Redis, nodes: seq<Uuid>) returns (total: real, results: Option<seq<Reply>>)
    ensures results.None? ==> total == 0.0
    ensures results.Some? ==> redis.Answers(results.value, OnlineKeys(nodes)) && total == redis.Sum(results.value)
  {
    var pipe := new Pipeline(redis);
    for i := 0 to |nodes|
      invariant pipe.redis == redis && pipe.keys == OnlineKeys(nodes)[..i]
    {
      pipe.Get(Key(Online, nodes[i]));
    }
    assert OnlineKeys(nodes)[..|nodes|] == OnlineKeys(nodes);
    results := pipe.Exec();
    if results.None? {
      return 0.0, results;
    }
    var replies := results.value;
    total := 0.0;
    for i := 0 to |replies|
      invariant total == redis.Sum(replies[..i])
    {
      assert replies[..i + 1][..i] == replies[..i];
      total := total + redis.Count(redis.Usable(replies[i]));
    }
    assert replies[..|replies|] == replies;
  }
}
