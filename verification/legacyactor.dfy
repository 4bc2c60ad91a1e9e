/** `ActorBase` (pyimc/actor.py), the older actor: a map of peers keyed by
    `(imc address, system name)` holding node.py's `IMCNode`, the handlers
    that keep it up to date and the periodic tasks that announce the actor,
    send heartbeats and drop silent peers. Clocks, the list of network
    interfaces and the multicast group are parameters; a UDP send is the
    datagram it would hand over, and a log warning is an effect. */
module LegacyActor {
  import opened Prelude
  import opened Strings
  import opened Messages
  import opened ListDict
  import opened NodeTable
  import opened EntityText
  import opened Service
  import opened Node
  import opened StableSort
  import opened Announcing

  /** What `resolve_node_id` and `send` accept: one of the ids the node map
      understands, or an `IMCNode` object. */
  datatype ActorId = Id(id: NodeId) | Known(node: NodeInfo)

  /** The actor: the header, `sys_name` and `services` text of its own
      announce, its entity dictionary, the generated service URLs (`None`
      and `[]` behave alike: both are regenerated), the ids it sends
      heartbeats to, the node map, and the UDP port (`None` until bound). */
  datatype Actor = Actor(
    own: Header,
    sysName: string,
    announced: string,
    entities: Entities,
    services: seq<string>,
    heartbeat: seq<ActorId>,
    nodes: Table<NodeInfo>,
    portImc: Option<int>)

  datatype Effect =
    | Sent(d: Datagram)
      /** a new key shares its address or its name with known keys */
    | CollisionWarning(key: NodeKey, others: seq<NodeKey>)

  datatype Outcome = Outcome(actor: Actor, effects: seq<Effect>, exc: Option<Exc>)

  /** The actor's own announce message. */
  function AnnounceMsg(a: Actor): Message {
    Message(a.own, Announce(a.sysName, a.announced))
  }

  /** `(node.announce.src, node.announce.sys_name)`: an AttributeError when
      the node has no announce. */
  function KeyOfNode(n: NodeInfo): Result<NodeKey> {
    match n.announce
    case None => Err(AttributeError)
    case Some(m) =>
      match m.body
      case Announce(name, _) => Ok(NodeKey(m.h.src, name))
      case _ => Err(AttributeError)
  }

  /** The node stored under a key is the one whose announce names that
      key, and, being built by `update_services`, it lists no scheme
      without services. */
  predicate Announced(e: Entry<NodeInfo>) {
    KeyOfNode(e.node) == Ok(e.key) && NoEmptyLists(e.node.services)
  }

  predicate WellFormed(a: Actor) {
    UniqueKeys(a.nodes) && AllEntries(a.nodes, Announced)
  }

  /** `__init__()` on a host called `hostname`, with the default header
      fields of a new message. */
  function Init(hostname: string): (a: Actor)
    ensures WellFormed(a) && |a.nodes| == 0 && |a.heartbeat| == 0 && a.portImc.None?
    ensures a.own.src == 0x3334 && a.sysName == "ccu-pyimc-" + LowerStr(hostname)
    ensures a.entities == [("Daemon", 0)]
  {
    Actor(BlankHeader.(src := 0x3334), "ccu-pyimc-" + LowerStr(hostname), "",
          [("Daemon", 0)], [], [], [], None)
  }

  // ---------------------------------------------------------------------
  // resolve_node_id / send
  // ---------------------------------------------------------------------

  /** `resolve_node_id(node_id)`: an `IMCNode` is looked up as the tuple of
      its announce's address and name. */
  function ResolveActor(t: Table<NodeInfo>, id: ActorId): Result<Entry<NodeInfo>> {
    match id
    case Id(i) => Resolve(t, i)
    case Known(n) =>
      match KeyOfNode(n)
      case Err(e) => Err(e)
      case Ok(k) => Resolve(t, ByTuple([PyInt(k.addr), PyStr(k.name)]))
  }

  /** A stored node resolves to itself. */
  lemma ResolveKnown(t: Table<NodeInfo>, k: NodeKey, n: NodeInfo)
    requires AllEntries(t, Announced) && Find(t, k) == Some(n)
    ensures ResolveActor(t, Known(n)) == Ok(Entry(k, n))
  {
    FindAllEntries(t, Announced, k);
    ResolveExactKey(t, k);
  }

  /** The message as `send` hands it over: our address and the clock. */
  function Stamp(a: Actor, msg: Message, now: real): Message {
    WithTimestamp(WithSrc(msg, a.own.src), now)
  }

  /** `send(node_id, msg)` at time `now`. */
  function Send(a: Actor, id: ActorId, msg: Message, now: real): Result<Datagram> {
    match ResolveActor(a.nodes, id)
    case Err(e) => Err(e)
    case Ok(e) => SendTo(e.node.services, Stamp(a, msg, now))
  }

  /** Sending fails with the resolution's exception when the id does not
      resolve, with KeyError when the node has no `imc+udp` service, and
      otherwise hands the node's first `imc+udp` service the message with
      our address and the current time. */
  lemma SendEffect(a: Actor, id: ActorId, msg: Message, now: real)
    ensures var r := Send(a, id, msg, now);
            var res := ResolveActor(a.nodes, id);
            && (res.Err? ==> r == Err(res.exc))
            && (res.Ok? && "imc+udp" !in Keys(res.value.node.services) ==> r == Err(KeyError))
            && (r.Ok? ==>
                  && res.Ok? && |Get(res.value.node.services, "imc+udp")| > 0
                  && var svc := Get(res.value.node.services, "imc+udp")[0];
                  && r.value.host == svc.ip && r.value.port == svc.port
                  && r.value.msg.h.src == a.own.src && r.value.msg.h.timestamp == now
                  && r.value.msg.body == msg.body)
  {
  }

  // ---------------------------------------------------------------------
  // recv_announce
  // ---------------------------------------------------------------------

  /** The address and the name both match our own announce. */
  predicate FromSelf(a: Actor, msg: Message)
    requires msg.body.Announce?
  {
    msg.h.src == a.own.src && msg.body.sysName == a.sysName
  }

  /** The tail of `recv_announce`: a node without entities is asked for its
      entity list; a failing send escapes. */
  function QueryIfEmpty(a: Actor, key: NodeKey, n: NodeInfo, effects: seq<Effect>, now: real): Outcome {
    if |n.entities| > 0 then Outcome(a, effects, None)
    else
      match Send(a, Id(ByTuple([PyInt(key.addr), PyStr(key.name)])), Fresh(EntityList(Query, "")), now)
      case Ok(d) => Outcome(a, effects + [Sent(d)], None)
      case Err(e) => Outcome(a, effects, Some(e))
  }

  /** `recv_announce(msg)` at time `now`. A known node is updated in place,
      so a ValueError from its service list escapes after the update; a
      new node is only stored when it could be built. */
  function RecvAnnounce(a: Actor, msg: Message, now: real): Outcome
    requires msg.body.Announce?
  {
    if FromSelf(a, msg) then Outcome(a, [], None)
    else
      var key := NodeKey(msg.h.src, msg.body.sysName);
      match Find(a.nodes, key)
      case Some(n) =>
        var u := UpdateAnnounce(n, Some(msg));
        var a' := a.(nodes := Put(a.nodes, key, u.0));
        if u.1.Some? then Outcome(a', [], u.1) else QueryIfEmpty(a', key, u.0, [], now)
      case None => AddNew(a, key, NewNode(Some(msg)), now)
  }

  /** The warning about known keys that share the address or the name of a
      new key. */
  function Warn(t: Table<NodeInfo>, key: NodeKey): (w: seq<Effect>)
    ensures |w| <= 1
    ensures |w| == 1 <==> |Colliding(t, key)| > 0
    ensures |w| == 1 ==> w[0] == CollisionWarning(key, Colliding(t, key))
  {
    var others := Colliding(t, key);
    if |others| > 0 then [CollisionWarning(key, others)] else []
  }

  /** A new key: warn about collisions, then store the node built from the
      announce (`u`) and query it, unless building it raised. */
  function AddNew(a: Actor, key: NodeKey, u: (NodeInfo, Option<Exc>), now: real): Outcome {
    var warn := Warn(a.nodes, key);
    if u.1.Some? then Outcome(a, warn, u.1)
    else QueryIfEmpty(a.(nodes := Put(a.nodes, key, u.0)), key, u.0, warn, now)
  }

  lemma AddNewEffect(a: Actor, key: NodeKey, n: NodeInfo, x: Option<Exc>, now: real)
    requires WellFormed(a) && key !in KeysOf(a.nodes)
    requires Announced(Entry(key, n)) && n.entities == []
    ensures var r := AddNew(a, key, (n, x), now);
            var warn := Warn(a.nodes, key);
            && WellFormed(r.actor)
            && |warn| <= |r.effects| && r.effects[..|warn|] == warn
            && (forall i :: |warn| <= i < |r.effects| ==> r.effects[i].Sent?)
            && (x.Some? ==> r.actor == a && r.exc == x)
            && (x.None? ==>
                  && Find(r.actor.nodes, key) == Some(n)
                  && (forall k :: k in KeysOf(r.actor.nodes) <==> k in KeysOf(a.nodes) || k == key)
                  && (forall k :: k != key ==> Find(r.actor.nodes, k) == Find(a.nodes, k))
                  && ("imc+udp" !in Keys(n.services) ==> r.exc == Some(KeyError))
                  && (r.exc.None? ==> r.effects[|r.effects| - 1].Sent?
                                      && r.effects[|r.effects| - 1].d.msg.body == EntityList(Query, "")))
  {
    var warn := Warn(a.nodes, key);
    if x.Some? {
      assert warn[..|warn|] == warn;
    } else {
      var a' := a.(nodes := Put(a.nodes, key, n));
      StoreNode(a, key, n);
      QueryIfEmptyEffect(a', key, n, warn, now);
    }
  }

  /** Our own announce, echoed back, changes nothing. */
  lemma RecvAnnounceSelf(a: Actor, msg: Message, now: real)
    requires msg.body.Announce? && FromSelf(a, msg)
    ensures RecvAnnounce(a, msg, now) == Outcome(a, [], None)
  {
  }

  /** A node rebuilt from an announce is filed under the announce's key. */
  lemma UpdatedAnnounced(n: NodeInfo, msg: Message)
    requires msg.body.Announce?
    ensures Announced(Entry(NodeKey(msg.h.src, msg.body.sysName), UpdateAnnounce(n, Some(msg)).0))
  {
    UpdateServicesGroups(msg.body.services, "");
  }

  /** Putting a node under its own key keeps the map well formed and changes
      no other entry. */
  lemma StoreNode(a: Actor, key: NodeKey, n: NodeInfo)
    requires WellFormed(a) && Announced(Entry(key, n))
    ensures var t := Put(a.nodes, key, n);
            && WellFormed(a.(nodes := t))
            && Find(t, key) == Some(n)
            && (forall k :: k != key ==> Find(t, k) == Find(a.nodes, k))
            && (forall k :: k in KeysOf(t) <==> k in KeysOf(a.nodes) || k == key)
  {
    PutUnique(a.nodes, key, n);
    PutAllEntries(a.nodes, Announced, key, n);
    forall k ensures Find(Put(a.nodes, key, n), k) == if k == key then Some(n) else Find(a.nodes, k) {
      PutFind(a.nodes, key, n, k);
    }
    PutKeys(a.nodes, key, n);
  }

  /** The query a node without entities receives: sent to its first
      `imc+udp` service, or the KeyError of a node without one. */
  lemma QueryIfEmptyEffect(a: Actor, key: NodeKey, n: NodeInfo, effects: seq<Effect>, now: real)
    requires WellFormed(a) && Find(a.nodes, key) == Some(n)
    ensures var r := QueryIfEmpty(a, key, n, effects, now);
            && r.actor == a
            && |effects| <= |r.effects| <= |effects| + 1 && r.effects[..|effects|] == effects
            && (forall i :: |effects| <= i < |r.effects| ==> r.effects[i].Sent?)
            && (|n.entities| > 0 ==> r.effects == effects && r.exc == None)
            && (|n.entities| == 0 && "imc+udp" !in Keys(n.services) ==>
                  r.effects == effects && r.exc == Some(KeyError))
            && (|n.entities| == 0 && r.exc == None ==>
                  && |Get(n.services, "imc+udp")| > 0
                  && r.effects[..|effects|] == effects
                  && |r.effects| == |effects| + 1
                  && var d := r.effects[|effects|].d;
                  && r.effects[|effects|].Sent?
                  && d.host == Get(n.services, "imc+udp")[0].ip
                  && d.port == Get(n.services, "imc+udp")[0].port
                  && d.msg.body == EntityList(Query, "")
                  && d.msg.h.src == a.own.src)
  {
    ResolveExactKey(a.nodes, key);
    var q := Fresh(EntityList(Query, ""));
    SendEffect(a, Id(ByTuple([PyInt(key.addr), PyStr(key.name)])), q, now);
    if |n.entities| == 0 && QueryIfEmpty(a, key, n, effects, now).exc == None {
      var d := Send(a, Id(ByTuple([PyInt(key.addr), PyStr(key.name)])), q, now).value;
      assert (effects + [Sent(d)])[..|effects|] == effects;
    } else {
      assert effects[..|effects|] == effects;
    }
  }

  /** An announce from a known peer refreshes its announce and services in
      place, keeping its entities and heartbeat and every other peer; a
      ValueError from the service list escapes with the node already
      updated. */
  lemma RecvAnnounceKnown(a: Actor, msg: Message, now: real)
    requires WellFormed(a) && msg.body.Announce? && !FromSelf(a, msg)
    requires NodeKey(msg.h.src, msg.body.sysName) in KeysOf(a.nodes)
    ensures var key := NodeKey(msg.h.src, msg.body.sysName);
            var n := Find(a.nodes, key).value;
            var r := RecvAnnounce(a, msg, now);
            var u := UpdateServices(msg.body.services);
            && WellFormed(r.actor)
            && KeysOf(r.actor.nodes) == KeysOf(a.nodes)
            && Find(r.actor.nodes, key) == Some(n.(announce := Some(msg), services := u.0))
            && (forall k :: k != key ==> Find(r.actor.nodes, k) == Find(a.nodes, k))
            && (u.1.Some? ==> r.exc == u.1 && r.effects == [])
            && (u.1.None? && |n.entities| > 0 ==> r.exc == None && r.effects == [])
  {
    var key := NodeKey(msg.h.src, msg.body.sysName);
    var n := Find(a.nodes, key).value;
    var u := UpdateAnnounce(n, Some(msg));
    UpdatedAnnounced(n, msg);
    StoreNode(a, key, u.0);
    PutKeys(a.nodes, key, u.0);
    if u.1.None? {
      QueryIfEmptyEffect(a.(nodes := Put(a.nodes, key, u.0)), key, u.0, [], now);
    }
  }

  /** An announce from a new peer warns about keys sharing its address or
      name, stores the node built from it (or, when its service list has a
      bad port, stores nothing and raises ValueError), and asks the new
      node for its entities through its first `imc+udp` service. */
  lemma RecvAnnounceNew(a: Actor, msg: Message, now: real)
    requires WellFormed(a) && msg.body.Announce? && !FromSelf(a, msg)
    requires NodeKey(msg.h.src, msg.body.sysName) !in KeysOf(a.nodes)
    ensures var key := NodeKey(msg.h.src, msg.body.sysName);
            var r := RecvAnnounce(a, msg, now);
            var u := UpdateServices(msg.body.services);
            var n := NodeInfo(Some(msg), u.0, [], None);
            var warn := Warn(a.nodes, key);
            && WellFormed(r.actor)
            && |warn| <= |r.effects| && r.effects[..|warn|] == warn
            && (forall i :: |warn| <= i < |r.effects| ==> r.effects[i].Sent?)
            && (u.1.Some? ==> r.actor == a && r.exc == Some(ValueError))
            && (u.1.None? ==>
                  && Find(r.actor.nodes, key) == Some(n)
                  && (forall k :: k in KeysOf(r.actor.nodes) <==> k in KeysOf(a.nodes) || k == key)
                  && (forall k :: k != key ==> Find(r.actor.nodes, k) == Find(a.nodes, k))
                  && ("imc+udp" !in Keys(u.0) ==> r.exc == Some(KeyError))
                  && (r.exc.None? ==> r.effects[|r.effects| - 1].Sent?
                                      && r.effects[|r.effects| - 1].d.msg.body == EntityList(Query, "")))
  {
    var key := NodeKey(msg.h.src, msg.body.sysName);
    var u := NewNode(Some(msg));
    NewNodeFacts(msg);
    assert RecvAnnounce(a, msg, now) == AddNew(a, key, u, now);
    AddNewEffect(a, key, u.0, u.1, now);
  }

  /** The node `IMCNode(msg)` builds: the announce, its services, nothing
      else; only a ValueError can escape, and it is filed under the
      announce's key. */
  lemma NewNodeFacts(msg: Message)
    requires msg.body.Announce?
    ensures var u := UpdateServices(msg.body.services);
            && NewNode(Some(msg)) == (NodeInfo(Some(msg), u.0, [], None), u.1)
            && (u.1.Some? ==> u.1 == Some(ValueError))
            && Announced(Entry(NodeKey(msg.h.src, msg.body.sysName), NewNode(Some(msg)).0))
  {
    UpdateServicesGroups(msg.body.services, "");
    UpdatedAnnounced(EmptyNode, msg);
  }

  // ---------------------------------------------------------------------
  // recv_entity_list / recv_heartbeat
  // ---------------------------------------------------------------------

  /** `recv_entity_list(msg)` at time `now`: a REPORT replaces the sender's
      entities; a QUERY is answered with our own list, ordered by id. An
      unresolvable sender, or a reply that cannot be sent for want of a
      service, is ignored; a malformed report raises ValueError. */
  function RecvEntityList(a: Actor, msg: Message, now: real): Outcome
    requires msg.body.EntityList?
  {
    match Resolve(a.nodes, ByMessage(msg.h.src))
    case Err(e) => Outcome(a, [], if IsKeyError(e) then None else Some(e))
    case Ok(e) =>
      match msg.body.op
      case Report =>
        (match UpdateEntityList(e.node, msg)
         case Ok(n) => Outcome(a.(nodes := Put(a.nodes, e.key, n)), [], None)
         case Err(x) => Outcome(a, [], Some(x)))
      case Query => Reply(a, e.node, FormatEntityList(a.entities), now)
      case OtherOp(_) => Outcome(a, [], None)
  }

  /** A report from the one node at the sender's address replaces that
      node's entities with the parsed list; a malformed list raises
      ValueError and changes nothing; a sender that does not resolve to
      exactly one node is ignored. */
  lemma RecvEntityListReport(a: Actor, msg: Message, now: real)
    requires WellFormed(a) && msg.body.EntityList? && msg.body.op == Report
    ensures var r := RecvEntityList(a, msg, now);
            var matches := KeysWithAddr(a.nodes, msg.h.src);
            var parsed := ParseEntityList(msg.body.list);
            && r.effects == []
            && WellFormed(r.actor)
            && (|matches| != 1 ==> r.actor == a && r.exc == None)
            && (|matches| == 1 && parsed.Err? ==> r.actor == a && r.exc == Some(ValueError))
            && (|matches| == 1 && parsed.Ok? ==>
                  var n := Find(a.nodes, matches[0]).value;
                  && r.exc == None
                  && KeysOf(r.actor.nodes) == KeysOf(a.nodes)
                  && Find(r.actor.nodes, matches[0]) == Some(n.(entities := parsed.value))
                  && (forall k :: k != matches[0] ==> Find(r.actor.nodes, k) == Find(a.nodes, k)))
  {
    ResolvePartialKey(a.nodes, ByMessage(msg.h.src));
    var res := Resolve(a.nodes, ByMessage(msg.h.src));
    if res.Ok? && ParseEntityList(msg.body.list).Ok? {
      var e := res.value;
      var n := e.node.(entities := ParseEntityList(msg.body.list).value);
      FindAllEntries(a.nodes, Announced, e.key);
      StoreNode(a, e.key, n);
      PutKeys(a.nodes, e.key, n);
    }
  }

  /** The answer to a query: a REPORT with the formatted list, sent back
      to the querying node; a KeyError in sending is ignored. */
  function Reply(a: Actor, n: NodeInfo, list: string, now: real): Outcome {
    match Send(a, Known(n), Fresh(EntityList(Report, list)), now)
    case Ok(d) => Outcome(a, [Sent(d)], None)
    case Err(x) => Outcome(a, [], if IsKeyError(x) then None else Some(x))
  }

  lemma ReplyEffect(a: Actor, k: NodeKey, n: NodeInfo, list: string, now: real)
    requires WellFormed(a) && Find(a.nodes, k) == Some(n)
    ensures var r := Reply(a, n, list, now);
            && r.actor == a && r.exc == None
            && (|r.effects| == 1 <==> |Get(n.services, "imc+udp")| > 0)
            && (|r.effects| != 1 ==> r.effects == [])
            && (|r.effects| == 1 ==>
                  && r.effects[0].Sent?
                  && r.effects[0].d.host == Get(n.services, "imc+udp")[0].ip
                  && r.effects[0].d.port == Get(n.services, "imc+udp")[0].port
                  && r.effects[0].d.msg.body == EntityList(Report, list))
  {
    ResolveKnown(a.nodes, k, n);
    SendEffect(a, Known(n), Fresh(EntityList(Report, list)), now);
    FindAllEntries(a.nodes, Announced, k);
    PresentIffNonEmpty(n.services, "imc+udp");
  }

  /** A query from the one node at the sender's address is answered on that
      node's first `imc+udp` service with a REPORT of our entities, which
      the querying node's `update_entity_list` turns back into our
      dictionary ordered by id. Nothing changes and nothing escapes. */
  lemma RecvEntityListQuery(a: Actor, msg: Message, now: real, peer: NodeInfo)
    requires WellFormed(a) && msg.body.EntityList? && msg.body.op == Query
    requires |a.entities| >= 1 && DistinctLabels(a.entities)
    requires forall i :: 0 <= i < |a.entities| ==> '=' !in a.entities[i].0 && ';' !in a.entities[i].0
    ensures var r := RecvEntityList(a, msg, now);
            var matches := KeysWithAddr(a.nodes, msg.h.src);
            && r.actor == a && r.exc == None
            && (|matches| != 1 ==> r.effects == [])
            && (|matches| == 1 ==>
                  var svcs := Find(a.nodes, matches[0]).value.services;
                  && (|r.effects| == 1 <==> |Get(svcs, "imc+udp")| > 0)
                  && (|r.effects| == 1 ==>
                        && r.effects[0].Sent?
                        && r.effects[0].d.host == Get(svcs, "imc+udp")[0].ip
                        && r.effects[0].d.port == Get(svcs, "imc+udp")[0].port
                        && UpdateEntityList(peer, r.effects[0].d.msg)
                           == Ok(peer.(entities := SortBy(a.entities, EntityId)))))
  {
    ResolvePartialKey(a.nodes, ByMessage(msg.h.src));
    var res := Resolve(a.nodes, ByMessage(msg.h.src));
    if res.Ok? {
      var e := res.value;
      var list := FormatEntityList(a.entities);
      var r := Reply(a, e.node, list, now);
      assert RecvEntityList(a, msg, now) == r;
      ReplyEffect(a, e.key, e.node, list, now);
      if |r.effects| == 1 {
        ReportParses(a.entities, peer, r.effects[0].d.msg);
      }
    }
  }

  /** The REPORT carrying a formatted list restores the dictionary, ordered
      by id, on the receiving node. */
  lemma ReportParses(es: Entities, peer: NodeInfo, m: Message)
    requires |es| >= 1 && DistinctLabels(es)
    requires forall i :: 0 <= i < |es| ==> '=' !in es[i].0 && ';' !in es[i].0
    requires m.body == EntityList(Report, FormatEntityList(es))
    ensures UpdateEntityList(peer, m) == Ok(peer.(entities := SortBy(es, EntityId)))
  {
    ParseFormatRoundTrip(es);
  }

  /** `recv_heartbeat(msg)`: the sender is resolved by address (its
      exception escapes) and its heartbeat time becomes the message's
      timestamp. */
  function RecvHeartbeat(a: Actor, msg: Message): Outcome {
    match Resolve(a.nodes, ByMessage(msg.h.src))
    case Err(e) => Outcome(a, [], Some(e))
    case Ok(e) => Outcome(a.(nodes := Put(a.nodes, e.key, UpdateHeartbeat(e.node, msg))), [], None)
  }

  /** A heartbeat from the one node at the sender's address records its
      timestamp on that node only; an unknown sender raises KeyError and an
      ambiguous one AmbiguousKeyError, changing nothing. */
  lemma RecvHeartbeatEffect(a: Actor, msg: Message)
    requires WellFormed(a)
    ensures var r := RecvHeartbeat(a, msg);
            var matches := KeysWithAddr(a.nodes, msg.h.src);
            && r.effects == []
            && WellFormed(r.actor)
            && (|matches| == 0 ==> r.actor == a && r.exc == Some(KeyError))
            && (|matches| > 1 ==> r.actor == a && r.exc == Some(AmbiguousKeyError(matches)))
            && (|matches| == 1 ==>
                  var n := Find(a.nodes, matches[0]).value;
                  && r.exc == None
                  && KeysOf(r.actor.nodes) == KeysOf(a.nodes)
                  && Find(r.actor.nodes, matches[0]) == Some(n.(heartbeat := Some(msg.h.timestamp)))
                  && (forall k :: k != matches[0] ==> Find(r.actor.nodes, k) == Find(a.nodes, k)))
  {
    ResolvePartialKey(a.nodes, ByMessage(msg.h.src));
    var res := Resolve(a.nodes, ByMessage(msg.h.src));
    if res.Ok? {
      var e := res.value;
      var n := UpdateHeartbeat(e.node, msg);
      FindAllEntries(a.nodes, Announced, e.key);
      StoreNode(a, e.key, n);
      PutKeys(a.nodes, e.key, n);
    } else if |KeysWithAddr(a.nodes, msg.h.src)| == 0 {
      assert res == Err(KeyError);
    }
  }

  // ---------------------------------------------------------------------
  // send_announce
  // ---------------------------------------------------------------------

  /** The announce datagrams, as effects. */
  function Multicast(m: Message, group: string): (effects: seq<Effect>)
    ensures |effects| == |AnnouncePorts|
    ensures forall i :: 0 <= i < |AnnouncePorts| ==> effects[i] == Sent(AnnounceDatagrams(m, group)[i])
  {
    var ds := AnnounceDatagrams(m, group);
    seq(|ds|, i requires 0 <= i < |ds| => Sent(ds[i]))
  }

  /** `send_announce()` at time `now`, with the addresses of the host's
      interfaces and the multicast group. Nothing happens until the UDP
      port is known; the service list is generated once, when empty. */
  function SendAnnounce(a: Actor, now: real, addrs: seq<string>, group: string): Outcome {
    if a.portImc.None? || a.portImc.value == 0 then Outcome(a, [], None)
    else
      var a1 :=
        if |a.services| == 0 then
          var urls := ServiceUrls(addrs, a.portImc.value);
          a.(services := urls, announced := Join(urls, ';'))
        else a;
      var a2 := a1.(own := a1.own.(timestamp := now));
      Outcome(a2, Multicast(AnnounceMsg(a2), group), None)
  }

  /** Sending the announce: nothing until the UDP port is known; otherwise
      the announce, with the current time and, when the actor had no
      service list yet, one `imc+udp` URL per interface address, goes to
      the multicast group once per announce port. Only the announce and
      the service list change. */
  lemma SendAnnounceEffect(a: Actor, now: real, addrs: seq<string>, group: string)
    ensures var r := SendAnnounce(a, now, addrs, group);
            && r.exc == None
            && (a.portImc.None? || a.portImc.value == 0 ==> r.actor == a && r.effects == [])
            && (a.portImc.Some? && a.portImc.value != 0 ==>
                  var urls := if |a.services| == 0 then ServiceUrls(addrs, a.portImc.value) else a.services;
                  && r.actor.services == urls
                  && r.actor.announced == (if |a.services| == 0 then Join(urls, ';') else a.announced)
                  && r.actor == a.(own := a.own.(timestamp := now), services := urls,
                                   announced := r.actor.announced)
                  && |r.effects| == 5
                  && forall i :: 0 <= i < 5 ==>
                       r.effects[i] == Sent(Datagram(Some(group), Some(30100 + i), AnnounceMsg(r.actor))))
  {
  }

  // ---------------------------------------------------------------------
  // send_heartbeat
  // ---------------------------------------------------------------------

  /** One heartbeat: resolve the id, then send to the node it names. */
  function HeartbeatTo(a: Actor, id: ActorId, now: real): Result<Datagram> {
    match ResolveActor(a.nodes, id)
    case Err(e) => Err(e)
    case Ok(e) => Send(a, Known(e.node), Fresh(Heartbeat), now)
  }

  /** The attempt for each id. Attempts change nothing, so computing them
      all and then walking the results is the loop. */
  function Attempts(a: Actor, ids: seq<ActorId>, now: real): (rs: seq<Result<Datagram>>)
    ensures |rs| == |ids|
    ensures forall i :: 0 <= i < |ids| ==> rs[i] == HeartbeatTo(a, ids[i], now)
  {
    seq(|ids|, i requires 0 <= i < |ids| => HeartbeatTo(a, ids[i], now))
  }

  /** The loop of `send_heartbeat` as written: a KeyError skips the id, but
      the handler for AmbiguousKeyError reads the exception's nonexistent
      `msg` attribute, so an ambiguous id ends the loop (and the periodic
      task) with an AttributeError; any other exception escapes too. */
  function HeartbeatLoop(rs: seq<Result<Datagram>>): (seq<Effect>, Option<Exc>) {
    if |rs| == 0 then ([], None)
    else
      match rs[0]
      case Ok(d) =>
        var rest := HeartbeatLoop(rs[1..]);
        ([Sent(d)] + rest.0, rest.1)
      case Err(e) =>
        if e.AmbiguousKeyError? then ([], Some(AttributeError))
        else if e == KeyError then HeartbeatLoop(rs[1..])
        else ([], Some(e))
  }

  /** `send_heartbeat()` at time `now`, as written. */
  function SendHeartbeat(a: Actor, now: real): Outcome {
    var r := HeartbeatLoop(Attempts(a, a.heartbeat, now));
    Outcome(a, r.0, r.1)
  }

  /** The loop as evidently intended (and as the later actor does it): an
      ambiguous id is logged and skipped like a missing one. */
  function HeartbeatLoopFixed(rs: seq<Result<Datagram>>): (seq<Effect>, Option<Exc>) {
    if |rs| == 0 then ([], None)
    else
      match rs[0]
      case Ok(d) =>
        var rest := HeartbeatLoopFixed(rs[1..]);
        ([Sent(d)] + rest.0, rest.1)
      case Err(e) =>
        if IsKeyError(e) then HeartbeatLoopFixed(rs[1..])
        else ([], Some(e))
  }

  function SendHeartbeatFixed(a: Actor, now: real): Outcome {
    var r := HeartbeatLoopFixed(Attempts(a, a.heartbeat, now));
    Outcome(a, r.0, r.1)
  }

  /** The datagrams of the attempts that succeed, in order: the reference
      the loops are measured against. */
  function Delivered(rs: seq<Result<Datagram>>): (ds: seq<Effect>)
    ensures |ds| <= |rs|
    ensures forall i :: 0 <= i < |ds| ==> ds[i].Sent?
  {
    if |rs| == 0 then []
    else (if rs[0].Ok? then [Sent(rs[0].value)] else []) + Delivered(rs[1..])
  }

  /** An attempt that succeeds or fails with a KeyError. */
  predicate Quiet(r: Result<Datagram>) {
    r.Ok? || IsKeyError(r.exc)
  }

  /** Ids by address, name, node key or message only ever fail with a
      KeyError in a well-formed actor, and a heartbeat that goes out goes
      to the node's first `imc+udp` service. */
  lemma QuietIds(a: Actor, id: ActorId, now: real)
    requires WellFormed(a)
    requires id.Id? && (id.id.ByAddr? || id.id.ByName? || id.id.ByNode? || id.id.ByMessage?)
    ensures Quiet(HeartbeatTo(a, id, now))
    ensures HeartbeatTo(a, id, now).Ok? ==>
              var n := ResolveActor(a.nodes, id).value.node;
              && ResolveActor(a.nodes, id).Ok?
              && |Get(n.services, "imc+udp")| > 0
              && HeartbeatTo(a, id, now).value.host == Get(n.services, "imc+udp")[0].ip
              && HeartbeatTo(a, id, now).value.msg.body == Heartbeat
  {
    var res := ResolveActor(a.nodes, id);
    if res.Ok? {
      var e := res.value;
      ResolveFinds(a.nodes, id.id);
      ResolveKnown(a.nodes, e.key, e.node);
      FindAllEntries(a.nodes, Announced, e.key);
      PresentIffNonEmpty(e.node.services, "imc+udp");
      SendEffect(a, Known(e.node), Fresh(Heartbeat), now);
    } else if id.id.ByAddr? || id.id.ByName? || id.id.ByMessage? {
      ResolvePartialKey(a.nodes, id.id);
    }
  }

  /** With the fix, when every attempt is quiet the task raises nothing
      and sends exactly the heartbeats that can be delivered. */
  lemma {:induction false} HeartbeatFixedDelivers(rs: seq<Result<Datagram>>)
    requires forall i :: 0 <= i < |rs| ==> Quiet(rs[i])
    ensures HeartbeatLoopFixed(rs) == (Delivered(rs), None)
  {
    if |rs| > 0 {
      assert forall i :: 0 <= i < |rs[1..]| ==> rs[1..][i] == rs[i + 1];
      HeartbeatFixedDelivers(rs[1..]);
      assert Quiet(rs[0]);
      if rs[0].Err? {
        assert [] + Delivered(rs[1..]) == Delivered(rs[1..]);
      }
    }
  }

  /** As written, the loop delivers like the fix up to the first ambiguous
      id and stops there with an AttributeError; the fix skips that id and
      carries on with the rest. */
  lemma {:induction false} HeartbeatStopsAtAmbiguity(rs: seq<Result<Datagram>>, j: nat)
    requires j < |rs| && rs[j].Err? && rs[j].exc.AmbiguousKeyError?
    requires forall i :: 0 <= i < j ==> rs[i].Ok? || rs[i].exc == KeyError
    ensures HeartbeatLoop(rs) == (Delivered(rs[..j]), Some(AttributeError))
    ensures HeartbeatLoopFixed(rs)
            == (Delivered(rs[..j]) + HeartbeatLoopFixed(rs[j + 1..]).0, HeartbeatLoopFixed(rs[j + 1..]).1)
  {
    if j == 0 {
      assert rs[..0] == [];
      assert Delivered([]) == [];
      assert [] + HeartbeatLoopFixed(rs[1..]).0 == HeartbeatLoopFixed(rs[1..]).0;
    } else {
      var tail := rs[1..];
      assert forall i :: 0 <= i < j - 1 ==> tail[i] == rs[i + 1];
      HeartbeatStopsAtAmbiguity(tail, j - 1);
      assert rs[..j][1..] == tail[..j - 1];
      assert tail[j..] == rs[j + 1..];
      assert Delivered(rs[..j]) == (if rs[0].Ok? then [Sent(rs[0].value)] else []) + Delivered(tail[..j - 1]);
      if rs[0].Err? {
        assert [] + Delivered(tail[..j - 1]) == Delivered(tail[..j - 1]);
      }
      if rs[0].Ok? {
        var f := HeartbeatLoopFixed(rs[j + 1..]).0;
        var pre := Delivered(tail[..j - 1]);
        assert [Sent(rs[0].value)] + (pre + f) == [Sent(rs[0].value)] + pre + f;
      }
    }
  }

  /** Two nodes that share a name make a heartbeat id naming them end the
      task as written, while the fix carries on. */
  lemma HeartbeatAmbiguousName(a: Actor, now: real, k1: NodeKey, k2: NodeKey, n1: NodeInfo, n2: NodeInfo)
    requires k1.name == k2.name && k1 != k2
    requires a.nodes == [Entry(k1, n1), Entry(k2, n2)] && a.heartbeat == [Id(ByName(k1.name))]
    ensures SendHeartbeat(a, now).exc == Some(AttributeError)
    ensures SendHeartbeatFixed(a, now).exc == None
  {
    var t := a.nodes;
    var ks := KeysWithName(t, k1.name);
    assert ks == [k1, k2] by {
      assert KeysWithName(t[1..], k1.name) == [k2] + KeysWithName(t[2..], k1.name);
      assert t[2..] == [];
    }
    var rs := Attempts(a, a.heartbeat, now);
    assert rs == [Err(AmbiguousKeyError([k1, k2]))];
    assert rs[1..] == [];
    assert HeartbeatLoopFixed(rs) == HeartbeatLoopFixed([]);
  }

  // ---------------------------------------------------------------------
  // prune_nodes
  // ---------------------------------------------------------------------

  /** Neither a heartbeat nor an announce timestamped in the last 60
      seconds. The announce's own timestamp, set by its sender, is used. */
  predicate Silent(now: real, n: NodeInfo) {
    var hasHeartbeat := n.heartbeat.Some? && now - n.heartbeat.value < 60.0;
    var hasAnnounce := n.announce.Some? && n.announce.value.body.Announce?
                       && now - n.announce.value.h.timestamp < 60.0;
    !(hasHeartbeat || hasAnnounce)
  }

  function SilentAt(now: real): NodeInfo -> bool {
    n => Silent(now, n)
  }

  /** The nodes (not keys) that satisfy `p`, in map order. */
  function NodesWhere(t: Table<NodeInfo>, p: NodeInfo -> bool): (ns: seq<NodeInfo>)
    ensures |ns| == |KeysWhere(t, p)|
  {
    if |t| == 0 then []
    else (if p(t[0].node) then [t[0].node] else []) + NodesWhere(t[1..], p)
  }

  /** In a well-formed map each collected node names the key it is stored
      under. */
  lemma {:induction false} NodesWhereKeys(t: Table<NodeInfo>, p: NodeInfo -> bool)
    requires AllEntries(t, Announced)
    ensures forall i :: 0 <= i < |NodesWhere(t, p)| ==> KeyOfNode(NodesWhere(t, p)[i]) == Ok(KeysWhere(t, p)[i])
  {
    if |t| > 0 {
      assert AllEntries(t[1..], Announced) by {
        assert forall i :: 0 <= i < |t[1..]| ==> t[1..][i] == t[i + 1];
      }
      NodesWhereKeys(t[1..], p);
      assert Announced(t[0]);
    }
  }

  /** The removal loop: each node is deleted under its announce's key. A
      failure lands in a handler that reads the exception's nonexistent
      `msg` attribute, so an AttributeError ends the loop. */
  function RemoveNodes(t: Table<NodeInfo>, ns: seq<NodeInfo>): (Table<NodeInfo>, Option<Exc>)
    decreases |ns|
  {
    if |ns| == 0 then (t, None)
    else
      match KeyOfNode(ns[0])
      case Err(_) => (t, Some(AttributeError))
      case Ok(k) => if k in KeysOf(t) then RemoveNodes(Delete(t, k), ns[1..]) else (t, Some(AttributeError))
  }

  /** `prune_nodes()` at time `now`. */
  function Prune(a: Actor, now: real): Outcome {
    var r := RemoveNodes(a.nodes, NodesWhere(a.nodes, SilentAt(now)));
    Outcome(a.(nodes := r.0), [], r.1)
  }

  /** Deleting nodes whose keys are distinct and present drops exactly
      those keys, without error. */
  lemma {:induction false} RemoveNodesDrops(t: Table<NodeInfo>, ns: seq<NodeInfo>, ks: seq<NodeKey>)
    requires |ns| == |ks| && NoDups(ks)
    requires forall i :: 0 <= i < |ns| ==> KeyOfNode(ns[i]) == Ok(ks[i])
    requires forall k :: k in ks ==> k in KeysOf(t)
    ensures RemoveNodes(t, ns) == (DropKeys(t, ks), None)
    decreases |ns|
  {
    if |ns| == 0 {
      DropNothing(t);
    } else {
      var k := ks[0];
      var t' := DropKeys(t, [k]);
      DeleteIsDrop(t, k);
      forall k' | k' in ks[1..] ensures k' in KeysOf(t') {
        DropKeysOf(t, [k], k');
      }
      assert forall i :: 0 <= i < |ns[1..]| ==> ns[1..][i] == ns[i + 1] && ks[1..][i] == ks[i + 1];
      RemoveNodesDrops(t', ns[1..], ks[1..]);
      DropTwice(t, [k], ks[1..]);
      assert [k] + ks[1..] == ks;
    }
  }

  /** Pruning a well-formed actor removes exactly the silent nodes, keeping
      the others in order (so a node heard from within 60 seconds stays),
      raises nothing and keeps the actor well formed. */
  lemma PruneRemovesSilent(a: Actor, now: real)
    requires WellFormed(a)
    ensures var r := Prune(a, now);
            && r.actor == a.(nodes := RemoveWhere(a.nodes, SilentAt(now)))
            && r.exc == None && r.effects == []
            && WellFormed(r.actor)
  {
    var p := SilentAt(now);
    var ks := KeysWhere(a.nodes, p);
    KeysWhereNoDups(a.nodes, p);
    NodesWhereKeys(a.nodes, p);
    RemoveNodesDrops(a.nodes, NodesWhere(a.nodes, p), ks);
    DropKeysWhere(a.nodes, p);
    DropUnique(a.nodes, ks);
    DropAllEntries(a.nodes, Announced, ks);
  }
}
