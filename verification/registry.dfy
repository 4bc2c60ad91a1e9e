/** The peer bookkeeping of `IMCBase` (pyimc/actors/base.py): the map of
    known nodes keyed by `(imc address, system name)`, what each received
    Announce, Heartbeat, EntityList and EntityInfo does to it, the periodic
    pruning of silent nodes, and where `send` and `send_static` deliver a
    message. Clocks are parameters; the UDP sender is replaced by the list
    of datagrams it would be handed, and the user callbacks
    (`on_connect`, `on_disconnect`, `on_first_heartbeat`) and log warnings
    by events. */
module Registry {
  import opened Prelude
  import opened Messages
  import opened ListDict
  import opened NodeTable
  import opened EntityText
  import opened Service
  import opened Node

  /** A node as the actor keeps it: its key, announced services, entity
      dictionary, receipt times of its last Announce and Heartbeat, and
      whether it is exempt from pruning. */
  datatype RegNode = RegNode(
    key: NodeKey,
    services: ServiceMap,
    entities: Entities,
    tLastAnnounce: Option<real>,
    tLastHeartbeat: Option<real>,
    isFixed: bool)

  /** `_static_transports`: services by message type (`pyimc.Message` for
      every type). */
  type Transports = Dict<SubKey, Service>

  datatype Base = Base(
    imcId: int,
      /** `(src, sys_name)` of the actor's own announce, once it has one */
    announce: Option<NodeKey>,
    nodes: Table<RegNode>,
    statics: Transports)

  datatype Event =
    | Connected(key: NodeKey)
    | Disconnected(key: NodeKey)
    | FirstHeartbeat(key: NodeKey)
    | Sent(d: Datagram)
      /** another system announces the actor's own IMC address */
    | SameIdWarning(name: string)
      /** a new key shares its address or its name with known keys */
    | CollisionWarning(key: NodeKey, others: seq<NodeKey>)

  datatype Outcome = Outcome(base: Base, events: seq<Event>, exc: Option<Exc>)

  /** The state after `__init__`: no announce, no nodes, no transports. */
  function Init(imcId: int): (b: Base)
    ensures WellFormed(b) && |b.nodes| == 0 && |b.statics| == 0 && b.imcId == imcId
    ensures b.announce.None?
  {
    Base(imcId, None, [], [])
  }

  /** The node stored under a key is the node with that key, and its
      service map, built by `update_services`, has no empty list. */
  predicate Keyed(e: Entry<RegNode>) {
    e.node.key == e.key && NoEmptyLists(e.node.services)
  }

  predicate WellFormed(b: Base) {
    UniqueKeys(b.nodes) && AllEntries(b.nodes, Keyed)
  }

  // ---------------------------------------------------------------------
  // add_node / remove_node
  // ---------------------------------------------------------------------

  /** `add_node(node)`: stores the node under its own key. */
  function AddNode(t: Table<RegNode>, n: RegNode): Table<RegNode> {
    Put(t, n.key, n)
  }

  lemma AddNodeKeepsWellFormed(b: Base, n: RegNode)
    requires WellFormed(b) && NoEmptyLists(n.services)
    ensures WellFormed(b.(nodes := AddNode(b.nodes, n)))
    ensures Find(AddNode(b.nodes, n), n.key) == Some(n)
  {
    PutUnique(b.nodes, n.key, n);
    PutAllEntries(b.nodes, Keyed, n.key, n);
    PutFind(b.nodes, n.key, n, n.key);
  }

  /** Replacing a stored node by one with the same key changes that entry
      only. */
  lemma ReplaceNode(b: Base, n: RegNode)
    requires WellFormed(b) && n.key in KeysOf(b.nodes) && NoEmptyLists(n.services)
    ensures var t := Put(b.nodes, n.key, n);
            && KeysOf(t) == KeysOf(b.nodes)
            && Find(t, n.key) == Some(n)
            && (forall k :: k != n.key ==> Find(t, k) == Find(b.nodes, k))
            && WellFormed(b.(nodes := t))
  {
    PutKeys(b.nodes, n.key, n);
    forall k ensures Find(Put(b.nodes, n.key, n), k) == if k == n.key then Some(n) else Find(b.nodes, k) {
      PutFind(b.nodes, n.key, n, k);
    }
    PutUnique(b.nodes, n.key, n);
    PutAllEntries(b.nodes, Keyed, n.key, n);
  }

  /** `remove_node(key)`: resolves the id, then deletes the node under its
      own `(src, sys_name)`. */
  function RemoveNode(t: Table<RegNode>, id: NodeId): Result<Table<RegNode>> {
    match Resolve(t, id)
    case Err(e) => Err(e)
    case Ok(e) =>
      if e.node.key in KeysOf(t) then Ok(Delete(t, e.node.key)) else Err(KeyError)
  }

  /** Removing deletes exactly the node the id resolves to, and fails with
      the resolution's exception when there is none. */
  lemma RemoveNodeExact(t: Table<RegNode>, id: NodeId)
    requires AllEntries(t, Keyed)
    ensures Resolve(t, id).Err? ==> RemoveNode(t, id) == Err(Resolve(t, id).exc)
    ensures Resolve(t, id).Ok? ==>
              var k := Resolve(t, id).value.key;
              && RemoveNode(t, id) == Ok(DropKeys(t, [k]))
              && forall k' :: k' in KeysOf(RemoveNode(t, id).value) <==> k' in KeysOf(t) && k' != k
  {
    if Resolve(t, id).Ok? {
      var e := Resolve(t, id).value;
      ResolveFinds(t, id);
      FindAllEntries(t, Keyed, e.key);
      DeleteIsDrop(t, e.key);
      forall k' ensures k' in KeysOf(DropKeys(t, [e.key])) <==> k' in KeysOf(t) && k' != e.key {
        DropKeysOf(t, [e.key], k');
      }
    }
  }

  // ---------------------------------------------------------------------
  // _prune_nodes
  // ---------------------------------------------------------------------

  /** Neither a Heartbeat nor an Announce in the last 60 seconds, and not
      fixed. */
  predicate Stale(now: real, n: RegNode) {
    var hasHeartbeat := n.tLastHeartbeat.Some? && now - n.tLastHeartbeat.value < 60.0;
    var hasAnnounce := n.tLastAnnounce.Some? && now - n.tLastAnnounce.value < 60.0;
    !(hasHeartbeat || hasAnnounce) && !n.isFixed
  }

  function StaleAt(now: real): RegNode -> bool {
    n => Stale(now, n)
  }

  /** The removal loop: each key is removed as an `(int, str)` tuple and
      reported. A failed removal lands in a handler that reads the
      exception's nonexistent `msg` attribute, so an AttributeError ends
      the loop. */
  function RemoveEach(t: Table<RegNode>, ks: seq<NodeKey>): (Table<RegNode>, seq<Event>, Option<Exc>)
    decreases |ks|
  {
    if |ks| == 0 then (t, [], None)
    else
      match RemoveNode(t, ByTuple([PyInt(ks[0].addr), PyStr(ks[0].name)]))
      case Err(_) => (t, [], Some(AttributeError))
      case Ok(t') =>
        var r := RemoveEach(t', ks[1..]);
        (r.0, [Disconnected(ks[0])] + r.1, r.2)
  }

  /** `_prune_nodes()` at time `now`. */
  function Prune(b: Base, now: real): Outcome {
    var r := RemoveEach(b.nodes, KeysWhere(b.nodes, StaleAt(now)));
    Outcome(b.(nodes := r.0), r.1, r.2)
  }

  /** Removing distinct present keys one by one drops exactly them, one
      disconnect per key, in order, without error. */
  lemma {:induction false} RemoveEachDrops(t: Table<RegNode>, ks: seq<NodeKey>)
    requires AllEntries(t, Keyed) && NoDups(ks)
    requires forall k :: k in ks ==> k in KeysOf(t)
    ensures RemoveEach(t, ks).0 == DropKeys(t, ks)
    ensures RemoveEach(t, ks).2 == None
    ensures |RemoveEach(t, ks).1| == |ks|
    ensures forall i :: 0 <= i < |ks| ==> RemoveEach(t, ks).1[i] == Disconnected(ks[i])
    decreases |ks|
  {
    if |ks| == 0 {
      assert DropKeys(t, []) == t by {
        DropNothing(t);
      }
    } else {
      var k := ks[0];
      var id := ByTuple([PyInt(k.addr), PyStr(k.name)]);
      ResolveExactKey(t, k);
      RemoveNodeExact(t, id);
      var t' := DropKeys(t, [k]);
      assert RemoveNode(t, id) == Ok(t');
      DropAllEntries(t, Keyed, [k]);
      forall k' | k' in ks[1..] ensures k' in KeysOf(t') {
        DropKeysOf(t, [k], k');
      }
      RemoveEachDrops(t', ks[1..]);
      DropTwice(t, [k], ks[1..]);
      assert [k] + ks[1..] == ks;
    }
  }

  /** Pruning a well-formed registry removes exactly the stale nodes,
      keeping the others in order, reports one disconnect per stale key in
      map order, never removes a fixed node, raises nothing and keeps the
      registry well formed. */
  lemma PruneRemovesStale(b: Base, now: real)
    requires WellFormed(b)
    ensures var r := Prune(b, now);
            var stale := KeysWhere(b.nodes, StaleAt(now));
            && r.base == b.(nodes := RemoveWhere(b.nodes, StaleAt(now)))
            && r.exc == None
            && |r.events| == |stale|
            && (forall i :: 0 <= i < |stale| ==> r.events[i] == Disconnected(stale[i]))
            && (forall i :: 0 <= i < |b.nodes| && b.nodes[i].node.isFixed ==> b.nodes[i] in r.base.nodes)
            && WellFormed(r.base)
  {
    var stale := KeysWhere(b.nodes, StaleAt(now));
    KeysWhereNoDups(b.nodes, StaleAt(now));
    RemoveEachDrops(b.nodes, stale);
    DropKeysWhere(b.nodes, StaleAt(now));
    DropUnique(b.nodes, stale);
    DropAllEntries(b.nodes, Keyed, stale);
  }

  // ---------------------------------------------------------------------
  // _recv_announce
  // ---------------------------------------------------------------------

  /** `IMCNode.from_announce(msg)` received at `now`: the services the
      announce lists, no entities, no heartbeat yet, not fixed. A
      ValueError from a service port escapes and no node is built. */
  function FromAnnounce(msg: Message, now: real): (r: (RegNode, Option<Exc>))
    requires msg.body.Announce?
    ensures r.0.key == NodeKey(msg.h.src, msg.body.sysName)
    ensures r.0.tLastAnnounce == Some(now) && r.0.tLastHeartbeat == None && !r.0.isFixed
    ensures r.1.Some? ==> r.1.value == ValueError
    ensures NoEmptyLists(r.0.services)
  {
    UpdateServicesGroups(msg.body.services, "");
    var u := UpdateServices(msg.body.services);
    (RegNode(NodeKey(msg.h.src, msg.body.sysName), u.0, [], Some(now), None, false), u.1)
  }

  /** `node.update_announce(msg)` on a known node at `now`: the service map
      is rebuilt in place (partly, when a ValueError escapes) and the
      announce time becomes `now`; nothing else about the node changes. */
  function ReAnnounce(n: RegNode, msg: Message, now: real): (r: (RegNode, Option<Exc>))
    requires msg.body.Announce?
    ensures r.0 == n.(services := r.0.services, tLastAnnounce := Some(now))
    ensures r.1.Some? ==> r.1.value == ValueError
    ensures NoEmptyLists(r.0.services)
  {
    UpdateServicesGroups(msg.body.services, "");
    var u := UpdateServices(msg.body.services);
    (n.(services := u.0, tLastAnnounce := Some(now)), u.1)
  }

  /** Our own address (compared on the address only). */
  predicate FromSelf(b: Base, msg: Message) {
    b.announce.Some? && msg.h.src == b.announce.value.addr
  }

  /** `_recv_announce(msg)` received at `now`. */
  function RecvAnnounce(b: Base, msg: Message, now: real): Outcome
    requires msg.body.Announce?
  {
    if FromSelf(b, msg) then
      Outcome(b, if msg.body.sysName != b.announce.value.name then [SameIdWarning(msg.body.sysName)] else [], None)
    else
      var key := NodeKey(msg.h.src, msg.body.sysName);
      match Find(b.nodes, key)
      case Some(n) =>
        var u := ReAnnounce(n, msg, now);
        Outcome(b.(nodes := Put(b.nodes, key, u.0)), [], u.1)
      case None =>
        var others := Colliding(b.nodes, key);
        var warn := if |others| > 0 then [CollisionWarning(key, others)] else [];
        var u := FromAnnounce(msg, now);
        if u.1.Some? then Outcome(b, warn, u.1)
        else Outcome(b.(nodes := AddNode(b.nodes, u.0)), warn + [Connected(key)], None)
  }

  /** An announce from our own address changes nothing and only warns when
      the name differs. */
  lemma RecvAnnounceSelf(b: Base, msg: Message, now: real)
    requires msg.body.Announce? && FromSelf(b, msg)
    ensures RecvAnnounce(b, msg, now).base == b
    ensures RecvAnnounce(b, msg, now).exc == None
    ensures |RecvAnnounce(b, msg, now).events| > 0 <==> msg.body.sysName != b.announce.value.name
  {
  }

  /** An announce from a known node refreshes it in place: the set of keys
      stays, no connect is reported, the node becomes its re-announced
      self and the others are untouched. */
  lemma RecvAnnounceKnown(b: Base, msg: Message, now: real)
    requires WellFormed(b) && msg.body.Announce? && !FromSelf(b, msg)
    requires NodeKey(msg.h.src, msg.body.sysName) in KeysOf(b.nodes)
    ensures var key := NodeKey(msg.h.src, msg.body.sysName);
            var r := RecvAnnounce(b, msg, now);
            var u := ReAnnounce(Find(b.nodes, key).value, msg, now);
            && KeysOf(r.base.nodes) == KeysOf(b.nodes)
            && r.events == []
            && r.exc == u.1
            && Find(r.base.nodes, key) == Some(u.0)
            && (forall k :: k != key ==> Find(r.base.nodes, k) == Find(b.nodes, k))
            && WellFormed(r.base)
  {
    var key := NodeKey(msg.h.src, msg.body.sysName);
    var n := Find(b.nodes, key).value;
    FindAllEntries(b.nodes, Keyed, key);
    ReplaceNode(b, ReAnnounce(n, msg, now).0);
  }

  /** An announce under a new key adds the node last and reports the
      connect; a bad service port instead leaves the map as it was and
      raises ValueError. */
  lemma RecvAnnounceNew(b: Base, msg: Message, now: real)
    requires WellFormed(b) && msg.body.Announce? && !FromSelf(b, msg)
    requires NodeKey(msg.h.src, msg.body.sysName) !in KeysOf(b.nodes)
    ensures var key := NodeKey(msg.h.src, msg.body.sysName);
            var r := RecvAnnounce(b, msg, now);
            var u := FromAnnounce(msg, now);
            && (u.1.None? ==>
                  && r.exc == None
                  && KeysOf(r.base.nodes) == KeysOf(b.nodes) + [key]
                  && Find(r.base.nodes, key) == Some(u.0)
                  && r.events[|r.events| - 1] == Connected(key))
            && (u.1.Some? ==> r.base == b && r.exc == Some(ValueError))
            && WellFormed(r.base)
  {
    var key := NodeKey(msg.h.src, msg.body.sysName);
    var n := FromAnnounce(msg, now).0;
    PutKeys(b.nodes, key, n);
    AddNodeKeepsWellFormed(b, n);
  }

  /** A new key is preceded by a warning exactly when a known key shares
      its address or its name; the warning lists all of them. */
  lemma RecvAnnounceCollision(b: Base, msg: Message, now: real)
    requires msg.body.Announce? && !FromSelf(b, msg)
    requires NodeKey(msg.h.src, msg.body.sysName) !in KeysOf(b.nodes)
    ensures var key := NodeKey(msg.h.src, msg.body.sysName);
            var r := RecvAnnounce(b, msg, now);
            var others := Colliding(b.nodes, key);
            && (|others| > 0 <==> exists k :: k in KeysOf(b.nodes) && (k.addr == key.addr || k.name == key.name))
            && WarnsFirst(r.events, key, others)
  {
    var key := NodeKey(msg.h.src, msg.body.sysName);
    var others := Colliding(b.nodes, key);
    var tail := if FromAnnounce(msg, now).1.Some? then [] else [Connected(key)];
    CollidingAny(b.nodes, key);
    NewKeyEvents(b, msg, now);
    WarningFirst(RecvAnnounce(b, msg, now).events, key, others, tail);
  }

  /** The collision warning, when there is one, is the first event;
      otherwise no event is a collision warning. */
  predicate WarnsFirst(evs: seq<Event>, key: NodeKey, others: seq<NodeKey>) {
    && (|others| > 0 ==> |evs| > 0 && evs[0] == CollisionWarning(key, others))
    && (|others| == 0 ==> forall i :: 0 <= i < |evs| ==> !evs[i].CollisionWarning?)
  }

  /** Events that start with the collision warning, if any, followed by
      no other warning. */
  lemma WarningFirst(evs: seq<Event>, key: NodeKey, others: seq<NodeKey>, tail: seq<Event>)
    requires forall i :: 0 <= i < |tail| ==> !tail[i].CollisionWarning?
    requires evs == (if |others| > 0 then [CollisionWarning(key, others)] else []) + tail
    ensures WarnsFirst(evs, key, others)
  {
    if |others| == 0 {
      assert evs == tail;
    }
  }

  /** Some known key collides exactly when the list is not empty. */
  lemma CollidingAny<N>(t: Table<N>, key: NodeKey)
    ensures |Colliding(t, key)| > 0 <==> exists k :: k in KeysOf(t) && (k.addr == key.addr || k.name == key.name)
  {
    var others := Colliding(t, key);
    if |others| > 0 {
      assert others[0] in others;
    }
  }

  /** The events for a new key: the collision warning, if any, then the
      connect unless building the node raised. */
  lemma NewKeyEvents(b: Base, msg: Message, now: real)
    requires msg.body.Announce? && !FromSelf(b, msg)
    requires NodeKey(msg.h.src, msg.body.sysName) !in KeysOf(b.nodes)
    ensures var key := NodeKey(msg.h.src, msg.body.sysName);
            var others := Colliding(b.nodes, key);
            var warn := if |others| > 0 then [CollisionWarning(key, others)] else [];
            RecvAnnounce(b, msg, now).events == warn + (if FromAnnounce(msg, now).1.Some? then [] else [Connected(key)])
  {
    var key := NodeKey(msg.h.src, msg.body.sysName);
    assert Find(b.nodes, key).None?;
  }

  // ---------------------------------------------------------------------
  // _recv_heartbeat, _recv_entity_list, _recv_entity_info
  // ---------------------------------------------------------------------

  /** `_recv_heartbeat(msg)` received at `now`: a node resolved by the
      sender's address gets the heartbeat time; the first one is reported.
      An unknown or ambiguous sender is ignored. */
  function RecvHeartbeat(b: Base, msg: Message, now: real): Outcome {
    match Resolve(b.nodes, ByMessage(msg.h.src))
    case Err(e) => if IsKeyError(e) then Outcome(b, [], None) else Outcome(b, [], Some(e))
    case Ok(e) =>
      var first := e.node.tLastHeartbeat.None?;
      var n := e.node.(tLastHeartbeat := Some(now));
      Outcome(b.(nodes := Put(b.nodes, e.key, n)), if first then [FirstHeartbeat(e.node.key)] else [], None)
  }

  /** A heartbeat never adds or drops a node and raises nothing; when
      exactly one node has the sender's address, only that node's
      heartbeat time changes, and its first heartbeat is reported once. */
  lemma RecvHeartbeatEffect(b: Base, msg: Message, now: real)
    requires WellFormed(b)
    ensures var r := RecvHeartbeat(b, msg, now);
            var matches := KeysWithAddr(b.nodes, msg.h.src);
            && KeysOf(r.base.nodes) == KeysOf(b.nodes)
            && r.exc == None
            && (|matches| != 1 ==> r.base == b && r.events == [])
            && (|matches| == 1 ==>
                  var k := matches[0];
                  var old_ := Find(b.nodes, k).value;
                  && Find(r.base.nodes, k) == Some(old_.(tLastHeartbeat := Some(now)))
                  && (forall k' :: k' != k ==> Find(r.base.nodes, k') == Find(b.nodes, k'))
                  && (r.events == if old_.tLastHeartbeat.None? then [FirstHeartbeat(k)] else []))
            && WellFormed(r.base)
  {
    var id := ByMessage(msg.h.src);
    ResolvePartialKey(b.nodes, id);
    if Resolve(b.nodes, id).Ok? {
      var e := Resolve(b.nodes, id).value;
      var n := e.node.(tLastHeartbeat := Some(now));
      FindAllEntries(b.nodes, Keyed, e.key);
      ReplaceNode(b, n);
    }
  }

  /** `_recv_entity_list(msg)`: a REPORT from a resolvable sender replaces
      that node's entities; a malformed list raises ValueError. */
  function RecvEntityList(b: Base, msg: Message): Outcome
    requires msg.body.EntityList?
  {
    if msg.body.op != Report then Outcome(b, [], None)
    else match Resolve(b.nodes, ByMessage(msg.h.src))
      case Err(e) => if IsKeyError(e) then Outcome(b, [], None) else Outcome(b, [], Some(e))
      case Ok(e) =>
        match ParseEntityList(msg.body.list)
        case Err(x) => Outcome(b, [], Some(x))
        case Ok(es) => Outcome(b.(nodes := Put(b.nodes, e.key, e.node.(entities := es))), [], None)
  }

  /** Only a REPORT from a uniquely known sender with a well-formed list
      changes anything, and then only that node's entities; a malformed
      list from such a sender is the one error. */
  lemma RecvEntityListEffect(b: Base, msg: Message)
    requires WellFormed(b) && msg.body.EntityList?
    ensures var r := RecvEntityList(b, msg);
            var matches := KeysWithAddr(b.nodes, msg.h.src);
            var parsed := ParseEntityList(msg.body.list);
            && KeysOf(r.base.nodes) == KeysOf(b.nodes)
            && (msg.body.op != Report || |matches| != 1 ==> r == Outcome(b, [], None))
            && (msg.body.op == Report && |matches| == 1 && parsed.Err? ==> r == Outcome(b, [], Some(ValueError)))
            && (msg.body.op == Report && |matches| == 1 && parsed.Ok? ==>
                  var k := matches[0];
                  && r.exc == None
                  && Find(r.base.nodes, k) == Some(Find(b.nodes, k).value.(entities := parsed.value))
                  && (forall k' :: k' != k ==> Find(r.base.nodes, k') == Find(b.nodes, k')))
            && WellFormed(r.base)
  {
    var id := ByMessage(msg.h.src);
    ResolvePartialKey(b.nodes, id);
    if msg.body.op == Report && Resolve(b.nodes, id).Ok? && ParseEntityList(msg.body.list).Ok? {
      var e := Resolve(b.nodes, id).value;
      var n := e.node.(entities := ParseEntityList(msg.body.list).value);
      FindAllEntries(b.nodes, Keyed, e.key);
      ReplaceNode(b, n);
    }
  }

  /** `_recv_entity_info(msg)`: the sender's entity dictionary maps the
      message's label to its source entity; resolution failures are
      ignored. */
  function RecvEntityInfo(b: Base, msg: Message): Outcome
    requires msg.body.EntityInfo?
  {
    match Resolve(b.nodes, ByMessage(msg.h.src))
    case Err(e) => if IsKeyError(e) then Outcome(b, [], None) else Outcome(b, [], Some(e))
    case Ok(e) =>
      var es := SetEntity(e.node.entities, msg.body.entityLabel, msg.h.srcEnt);
      Outcome(b.(nodes := Put(b.nodes, e.key, e.node.(entities := es))), [], None)
  }

  /** Entity info from a uniquely known sender records its label among that
      node's entities and changes nothing else; otherwise it is ignored. */
  lemma RecvEntityInfoEffect(b: Base, msg: Message)
    requires WellFormed(b) && msg.body.EntityInfo?
    ensures var r := RecvEntityInfo(b, msg);
            var matches := KeysWithAddr(b.nodes, msg.h.src);
            && r.exc == None && r.events == []
            && KeysOf(r.base.nodes) == KeysOf(b.nodes)
            && (|matches| != 1 ==> r.base == b)
            && (|matches| == 1 ==>
                  var k := matches[0];
                  var old_ := Find(b.nodes, k).value;
                  var new_ := Find(r.base.nodes, k).value;
                  && new_ == old_.(entities := new_.entities)
                  && Labels(new_.entities) == Labels(old_.entities) + {msg.body.entityLabel}
                  && (forall k' :: k' != k ==> Find(r.base.nodes, k') == Find(b.nodes, k')))
            && WellFormed(r.base)
  {
    var id := ByMessage(msg.h.src);
    ResolvePartialKey(b.nodes, id);
    if Resolve(b.nodes, id).Ok? {
      var e := Resolve(b.nodes, id).value;
      var n := e.node.(entities := SetEntity(e.node.entities, msg.body.entityLabel, msg.h.srcEnt));
      FindAllEntries(b.nodes, Keyed, e.key);
      ReplaceNode(b, n);
    }
  }

  // ---------------------------------------------------------------------
  // send / send_static / add_static_transport
  // ---------------------------------------------------------------------

  /** Fills in `src` with the actor's address and, when asked, the
      timestamp with the clock reading `now`. */
  function Stamp(b: Base, msg: Message, now: real, setTimestamp: bool): (m: Message)
    ensures m.h.src == b.imcId && m.body == msg.body
    ensures m.h.timestamp == if setTimestamp then now else msg.h.timestamp
    ensures m.h.(src := msg.h.src, timestamp := msg.h.timestamp) == msg.h
  {
    var m := WithSrc(msg, b.imcId);
    if setTimestamp then WithTimestamp(m, now) else m
  }

  /** One datagram per service, in order. */
  function Datagrams(svcs: seq<Service>, m: Message): (ds: seq<Event>)
    ensures |ds| == |svcs|
    ensures forall i :: 0 <= i < |svcs| ==> ds[i] == Sent(Datagram(svcs[i].ip, svcs[i].port, m))
  {
    if |svcs| == 0 then [] else [Sent(Datagram(svcs[0].ip, svcs[0].port, m))] + Datagrams(svcs[1..], m)
  }

  /** `send_static(msg, set_timestamp)`: to the services registered for the
      message's own type, then to those registered for every message. */
  function SendStatic(b: Base, msg: Message, now: real, setTimestamp: bool): seq<Event> {
    var m := Stamp(b, msg, now, setTimestamp);
    Datagrams(Get(b.statics, KeyOf(m)), m) + Datagrams(Get(b.statics, AnyMessage), m)
  }

  /** A message without bindings has `pyimc.Message` as its own type, so it
      goes to every catch-all static destination twice. */
  lemma SendStaticUnboundTwice(b: Base, msg: Message, now: real, setTimestamp: bool)
    requires msg.body.Unbound?
    ensures var m := Stamp(b, msg, now, setTimestamp);
            var once := Datagrams(Get(b.statics, AnyMessage), m);
            SendStatic(b, msg, now, setTimestamp) == once + once
  {
  }

  /** A message with bindings goes to its own type's destinations and then
      once to each catch-all destination. */
  lemma SendStaticBound(b: Base, msg: Message, now: real, setTimestamp: bool)
    requires !msg.body.Unbound?
    ensures var m := Stamp(b, msg, now, setTimestamp);
            var own := Get(b.statics, Of(ClassOf(m).value));
            var all := Get(b.statics, AnyMessage);
            var r := SendStatic(b, msg, now, setTimestamp);
            && |r| == |own| + |all|
            && (forall i :: 0 <= i < |own| ==> r[i] == Sent(Datagram(own[i].ip, own[i].port, m)))
            && (forall i :: 0 <= i < |all| ==> r[|own| + i] == Sent(Datagram(all[i].ip, all[i].port, m)))
  {
  }

  /** `send(node_id, msg, set_timestamp)` with clock readings `now` (for
      the node) and `later` (for the static destinations, which always
      re-stamp). */
  function Send(b: Base, id: NodeId, msg: Message, now: real, later: real, setTimestamp: bool)
    : (seq<Event>, Option<Exc>)
  {
    var m := Stamp(b, msg, now, setTimestamp);
    match Resolve(b.nodes, id)
    case Err(e) => ([], Some(e))
    case Ok(e) =>
      match SendTo(e.node.services, m)
      case Err(x) => ([], Some(x))
      case Ok(d) => ([Sent(d)] + SendStatic(b, m, later, true), None)
  }

  /** Sending fails, sending nothing, exactly when the id does not resolve
      or the node has no `imc+udp` service; otherwise the node's first
      `imc+udp` service receives the message from our address, followed by
      the static destinations with a fresh timestamp. */
  lemma SendEffect(b: Base, id: NodeId, msg: Message, now: real, later: real, setTimestamp: bool)
    ensures var r := Send(b, id, msg, now, later, setTimestamp);
            var res := Resolve(b.nodes, id);
            var m := Stamp(b, msg, now, setTimestamp);
            && (res.Err? ==> r == ([], Some(res.exc)))
            && (res.Ok? && "imc+udp" !in Keys(res.value.node.services) ==> r == ([], Some(KeyError)))
            && (r.1.None? <==> res.Ok? && SendTo(res.value.node.services, m).Ok?)
            && (r.1.None? ==>
                  var svc := Get(res.value.node.services, "imc+udp")[0];
                  && r.0[0] == Sent(Datagram(svc.ip, svc.port, m))
                  && r.0[0].d.msg.h.src == b.imcId
                  && r.0[1..] == SendStatic(b, m, later, true))
            && (r.1.Some? ==> r.0 == [])
  {
    var m := Stamp(b, msg, now, setTimestamp);
    if Resolve(b.nodes, id).Ok? && SendTo(Resolve(b.nodes, id).value.node.services, m).Ok? {
      var d := SendTo(Resolve(b.nodes, id).value.node.services, m).value;
      assert ([Sent(d)] + SendStatic(b, m, later, true))[1..] == SendStatic(b, m, later, true);
    }
  }

  /** `add_static_transport(svc, types)` as written: `d[t].append(svc)` on a
      plain dict, so the first type not yet in the map raises KeyError,
      keeping the appends made before it. */
  function AddStaticTransport(st: Transports, svc: Service, types: seq<SubKey>): (Transports, Option<Exc>)
    decreases |types|
  {
    if |types| == 0 then (st, None)
    else if types[0] !in Keys(st) then (st, Some(KeyError))
    else AddStaticTransport(Append(st, types[0], svc), svc, types[1..])
  }

  /** Appending to a present key adds no key. */
  lemma AppendPresentKeys<K, V>(m: Dict<K, V>, k: K, v: V)
    requires k in Keys(m)
    ensures Keys(Append(m, k, v)) == Keys(m)
  {
    AppendKeys(m, k, v);
  }

  /** Nothing ever creates a key of `_static_transports`, so from the
      empty map of a fresh actor every call with at least one type raises
      KeyError and the map stays empty: no static transport can ever be
      set up. */
  lemma {:induction false} AddStaticTransportKeeps(st: Transports, svc: Service, types: seq<SubKey>)
    ensures Keys(AddStaticTransport(st, svc, types).0) == Keys(st)
    ensures AddStaticTransport(st, svc, types).1.None? <==> forall i :: 0 <= i < |types| ==> types[i] in Keys(st)
    ensures |st| == 0 && |types| > 0 ==> AddStaticTransport(st, svc, types) == (st, Some(KeyError))
    decreases |types|
  {
    if |types| > 0 && types[0] in Keys(st) {
      AppendPresentKeys(st, types[0], svc);
      AddStaticTransportKeeps(Append(st, types[0], svc), svc, types[1..]);
      assert forall i :: 0 < i < |types| ==> types[i] == types[1..][i - 1];
    }
  }

  /** The evidently intended `add_static_transport`: creates the list of a
      new type (`setdefault(t, []).append(svc)`). */
  function AddStaticTransportFixed(st: Transports, svc: Service, types: seq<SubKey>): Transports
    decreases |types|
  {
    if |types| == 0 then st
    else AddStaticTransportFixed(Append(st, types[0], svc), svc, types[1..])
  }

  /** After the intended version every listed type delivers to `svc`, each
      type's earlier destinations stay first, and unlisted types are
      untouched. */
  lemma {:induction false} AddStaticTransportFixedDelivers(st: Transports, svc: Service, types: seq<SubKey>, k: SubKey)
    ensures var r := AddStaticTransportFixed(st, svc, types);
            && Get(st, k) <= Get(r, k)
            && (k in types ==> svc in Get(r, k))
            && (k !in types ==> Get(r, k) == Get(st, k))
    decreases |types|
  {
    if |types| > 0 {
      var st' := Append(st, types[0], svc);
      AppendGet(st, types[0], svc, k);
      AddStaticTransportFixedDelivers(st', svc, types[1..], k);
      if k == types[0] {
        assert svc in Get(st', k);
      } else {
        assert k in types ==> k in types[1..];
      }
    }
  }
}
