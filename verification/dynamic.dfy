/** `DynamicActor` (pyimc/actors/dynamic.py): an `IMCBase` that announces
    itself with one `imc+udp` service per network interface, answers
    entity-list queries with its own entity dictionary, asks the nodes it
    knows no entities of for theirs, and sends heartbeats to a configured
    list of nodes. The registry it builds on is the `Registry` model;
    clocks, the interface lists and the multicast group are parameters. */
module Dynamic {
  import opened Prelude
  import opened Strings
  import opened Messages
  import opened ListDict
  import opened NodeTable
  import opened EntityText
  import opened StableSort
  import opened Service
  import opened Node
  import opened Announcing
  import Registry

  /** The actor: the `IMCBase` state, the header and name of its own
      announce, the service list that announce carries (`announced`, and
      the URLs it was joined from), its entity dictionary, the ids it
      heartbeats, its UDP port once bound, and its start time. */
  datatype Dyn = Dyn(
    base: Registry.Base,
    own: Header,
    sysName: string,
    announced: string,
    services: seq<string>,
    entities: Entities,
    heartbeat: seq<NodeId>,
    portImc: Option<int>,
    tStart: real)

  /** The datagrams one periodic task hands to the transport, and the
      exception it ends with, if any. */
  type Sends = (seq<Registry.Event>, Option<Exc>)

  datatype Outcome = Outcome(actor: Dyn, events: seq<Registry.Event>, exc: Option<Exc>)

  /** `self.announce` as a message. */
  function AnnounceMsg(d: Dyn): Message {
    Message(d.own, Announce(d.sysName, d.announced))
  }

  /** The registry is well formed and knows the actor's own announce. */
  predicate WellFormed(d: Dyn) {
    && Registry.WellFormed(d.base)
    && d.base.announce == Some(NodeKey(d.own.src, d.sysName))
    && d.own.src == d.base.imcId
  }

  /** `DynamicActor(imc_id)` on host `hostname` started at `tStart`: an
      announce from `imc_id` (entity 1) named after the lower-cased host
      name, the entities `Daemon` (0) and `Service Announcer` (1), no
      services, no heartbeat targets, and no port yet. */
  function Init(imcId: int, hostname: string, tStart: real): (d: Dyn)
    ensures WellFormed(d)
    ensures d.sysName == "ccu-pyimc-" + LowerStr(hostname)
    ensures d.own.src == imcId && d.own.srcEnt == 1
    ensures |d.base.nodes| == 0 && |d.base.statics| == 0
    ensures d.entities == [("Daemon", 0), ("Service Announcer", 1)]
    ensures d.services == [] && d.heartbeat == [] && d.portImc == None
  {
    var name := "ccu-pyimc-" + LowerStr(hostname);
    Dyn(Registry.Init(imcId).(announce := Some(NodeKey(imcId, name))),
        BlankHeader.(src := imcId, srcEnt := 1), name, "", [],
        [("Daemon", 0), ("Service Announcer", 1)], [], None, tStart)
  }

  /** The initial entity dictionary has distinct labels without separators,
      so it can be sent in a report and read back. */
  lemma InitEntitiesReadable(imcId: int, hostname: string, tStart: real)
    ensures GoodEntities(Init(imcId, hostname, tStart).entities)
  {
    var es := Init(imcId, hostname, tStart).entities;
    assert es[0].0 == "Daemon" && es[1].0 == "Service Announcer";
    assert es[0].0[0] != es[1].0[0];
  }

  /** Entities a report can carry: at least one, distinct labels, and no
      `=` or `;` inside a label. */
  predicate GoodEntities(es: Entities) {
    && |es| >= 1 && DistinctLabels(es)
    && forall i :: 0 <= i < |es| ==> '=' !in es[i].0 && ';' !in es[i].0
  }

  /** No static destinations sends nothing besides the node's datagram. */
  lemma NoStatics(b: Registry.Base, m: Message, later: real)
    requires b.statics == []
    ensures Registry.SendStatic(b, m, later, true) == []
  {
  }

  // ---------------------------------------------------------------------
  // reply_entity_list
  // ---------------------------------------------------------------------

  /** The report a query is answered with: the entity list ordered by id,
      from our address, stamped `now`. */
  function ReportMsg(b: Registry.Base, list: string, now: real): (m: Message)
    ensures m.body == EntityList(Report, list)
    ensures m.h.src == b.imcId && m.h.timestamp == now
  {
    Registry.Stamp(b, Fresh(EntityList(Report, list)), now, true)
  }

  /** `self.send(node, ent_lst)` inside the handler's `try`: a KeyError
      from the send (no `imc+udp` service) is swallowed. */
  function Reply(b: Registry.Base, k: NodeKey, list: string, now: real, later: real): Sends {
    var r := Registry.Send(b, ByNode(k), Fresh(EntityList(Report, list)), now, later, true);
    if r.1.Some? && IsKeyError(r.1.value) then ([], None) else r
  }

  /** A reply to a stored node raises nothing; it reaches the node's first
      `imc+udp` service, followed by the static destinations, and nothing
      is sent when the node has no such service. */
  lemma ReplyEffect(b: Registry.Base, k: NodeKey, list: string, now: real, later: real)
    requires Registry.WellFormed(b) && k in KeysOf(b.nodes)
    ensures var r := Reply(b, k, list, now, later);
            var n := Find(b.nodes, k).value;
            var m := ReportMsg(b, list, now);
            && r.1 == None
            && ("imc+udp" !in Keys(n.services) ==> r.0 == [])
            && ("imc+udp" in Keys(n.services) ==>
                  var svc := Get(n.services, "imc+udp")[0];
                  && |r.0| >= 1
                  && r.0[0] == Registry.Sent(Datagram(svc.ip, svc.port, m))
                  && r.0[1..] == Registry.SendStatic(b, m, later, true))
  {
    var n := Find(b.nodes, k).value;
    var m := Registry.Stamp(b, Fresh(EntityList(Report, list)), now, true);
    ResolveExactKey(b.nodes, k);
    FindAllEntries(b.nodes, Registry.Keyed, k);
    PresentIffNonEmpty(n.services, "imc+udp");
    Registry.SendEffect(b, ByNode(k), Fresh(EntityList(Report, list)), now, later, true);
  }

  /** `reply_entity_list(msg)`: a QUERY from a uniquely known sender is
      answered with our entity list; an unknown or ambiguous sender is
      ignored, and so is every other operation. */
  function ReplyEntityList(d: Dyn, msg: Message, now: real, later: real): Sends
    requires msg.body.EntityList?
  {
    if msg.body.op != Query then ([], None)
    else match Resolve(d.base.nodes, ByMessage(msg.h.src))
      case Err(e) => if IsKeyError(e) then ([], None) else ([], Some(e))
      case Ok(e) => Reply(d.base, e.node.key, FormatEntityList(d.entities), now, later)
  }

  /** Answering never raises; only a QUERY whose sender's address names
      exactly one known node is answered, to that node. */
  lemma ReplyEntityListEffect(d: Dyn, msg: Message, now: real, later: real)
    requires WellFormed(d) && msg.body.EntityList?
    ensures var r := ReplyEntityList(d, msg, now, later);
            var matches := KeysWithAddr(d.base.nodes, msg.h.src);
            && r.1 == None
            && (msg.body.op != Query || |matches| != 1 ==> r == ([], None))
            && (msg.body.op == Query && |matches| == 1 ==>
                  r == Reply(d.base, matches[0], FormatEntityList(d.entities), now, later))
  {
    var id := ByMessage(msg.h.src);
    ResolvePartialKey(d.base.nodes, id);
    if msg.body.op == Query && Resolve(d.base.nodes, id).Ok? {
      var e := Resolve(d.base.nodes, id).value;
      FindAllEntries(d.base.nodes, Registry.Keyed, e.key);
      ReplyEffect(d.base, e.key, FormatEntityList(d.entities), now, later);
    }
  }

  /** The requester, parsing the report it receives, gets our entity
      dictionary back, reordered by id. */
  lemma ReplyReadBack(d: Dyn, k: NodeKey, now: real, later: real, peer: NodeInfo)
    requires WellFormed(d) && k in KeysOf(d.base.nodes) && GoodEntities(d.entities)
    requires "imc+udp" in Keys(Find(d.base.nodes, k).value.services)
    ensures var r := Reply(d.base, k, FormatEntityList(d.entities), now, later);
            && |r.0| >= 1 && r.0[0].Sent?
            && r.0[0].d.msg.body.EntityList?
            && UpdateEntityList(peer, r.0[0].d.msg) == Ok(peer.(entities := SortBy(d.entities, EntityId)))
  {
    ReplyEffect(d.base, k, FormatEntityList(d.entities), now, later);
    ParseFormatRoundTrip(d.entities);
  }

  // ---------------------------------------------------------------------
  // query_entity_list
  // ---------------------------------------------------------------------

  /** `query_entity_list()` as written: it iterates `self.nodes`, an
      attribute `IMCBase` does not have (its map is `_nodes`), so every
      run raises AttributeError before sending anything. */
  function QueryEntityList(d: Dyn, now: real, later: real): (r: Sends)
    ensures r.1 == Some(AttributeError)
  {
    ([], Some(AttributeError))
  }

  /** The known nodes without entities, in map order. */
  function Unlisted(t: Table<Registry.RegNode>): (ns: seq<Registry.RegNode>)
    ensures forall i :: 0 <= i < |ns| ==> |ns[i].entities| == 0 && ns[i] in NodesOf(t)
    ensures forall i :: 0 <= i < |t| && |t[i].node.entities| == 0 ==> t[i].node in ns
  {
    if |t| == 0 then []
    else
      var rest := Unlisted(t[1..]);
      assert forall i :: 0 < i < |t| ==> t[i] == t[1..][i - 1];
      assert forall n :: n in NodesOf(t[1..]) ==> n in NodesOf(t);
      (if |t[0].node.entities| == 0 then [t[0].node] else []) + rest
  }

  function NodesOf<N>(t: Table<N>): (ns: seq<N>)
    ensures |ns| == |t|
    ensures forall i :: 0 <= i < |t| ==> ns[i] == t[i].node
  {
    if |t| == 0 then [] else [t[0].node] + NodesOf(t[1..])
  }

  /** The query sent to one node. */
  function QueryTo(b: Registry.Base, n: Registry.RegNode, now: real, later: real): Sends {
    Registry.Send(b, ByNode(n.key), Fresh(EntityList(Query, "")), now, later, true)
  }

  function Queries(b: Registry.Base, ns: seq<Registry.RegNode>, now: real, later: real): (rs: seq<Sends>)
    ensures |rs| == |ns|
    ensures forall i :: 0 <= i < |ns| ==> rs[i] == QueryTo(b, ns[i], now, later)
  {
    if |ns| == 0 then [] else [QueryTo(b, ns[0], now, later)] + Queries(b, ns[1..], now, later)
  }

  /** Runs sends in order; the first one that raises ends the task with its
      exception, after the datagrams sent before it. */
  function Chain(rs: seq<Sends>): Sends {
    if |rs| == 0 then ([], None)
    else if rs[0].1.Some? then ([], rs[0].1)
    else
      var rest := Chain(rs[1..]);
      (rs[0].0 + rest.0, rest.1)
  }

  /** Everything the successful sends hand to the transport, in order. */
  function Delivered(rs: seq<Sends>): seq<Registry.Event> {
    if |rs| == 0 then []
    else (if rs[0].1.None? then rs[0].0 else []) + Delivered(rs[1..])
  }

  /** The evidently intended `query_entity_list()`, over `_nodes`: a QUERY
      to every node with no entities, in map order; a send error ends the
      task. */
  function QueryEntityListFixed(d: Dyn, now: real, later: real): Sends {
    Chain(Queries(d.base, Unlisted(d.base.nodes), now, later))
  }

  lemma {:induction false} ChainAllOk(rs: seq<Sends>)
    requires forall i :: 0 <= i < |rs| ==> rs[i].1 == None
    ensures Chain(rs) == (Delivered(rs), None)
  {
    if |rs| > 0 {
      assert forall i :: 0 <= i < |rs[1..]| ==> rs[1..][i] == rs[i + 1];
      ChainAllOk(rs[1..]);
    }
  }

  lemma {:induction false} ChainStops(rs: seq<Sends>, j: nat)
    requires j < |rs| && rs[j].1.Some?
    requires forall i :: 0 <= i < j ==> rs[i].1 == None
    ensures Chain(rs) == (Delivered(rs[..j]), rs[j].1)
  {
    if j == 0 {
    } else {
      assert forall i :: 0 <= i < j - 1 ==> rs[1..][i] == rs[i + 1];
      ChainStops(rs[1..], j - 1);
      assert rs[..j][1..] == rs[1..][..j - 1];
    }
  }

  /** When every send yields exactly one datagram, the delivered datagrams
      are those, one per send. */
  lemma {:induction false} DeliveredSingles(rs: seq<Sends>)
    requires forall i :: 0 <= i < |rs| ==> rs[i].1 == None && |rs[i].0| == 1
    ensures |Delivered(rs)| == |rs|
    ensures forall i :: 0 <= i < |rs| ==> Delivered(rs)[i] == rs[i].0[0]
  {
    if |rs| > 0 {
      assert forall i :: 0 <= i < |rs[1..]| ==> rs[1..][i] == rs[i + 1];
      DeliveredSingles(rs[1..]);
    }
  }

  /** The query that `QueryTo` hands to a stored node. */
  function QueryMsg(b: Registry.Base, now: real): (m: Message)
    ensures m.body == EntityList(Query, "") && m.h.src == b.imcId && m.h.timestamp == now
  {
    Registry.Stamp(b, Fresh(EntityList(Query, "")), now, true)
  }

  /** One query to a stored node: KeyError without an `imc+udp` service,
      otherwise the query to the first one, then the static destinations. */
  lemma QueryToEffect(b: Registry.Base, n: Registry.RegNode, now: real, later: real)
    requires Registry.WellFormed(b) && n in NodesOf(b.nodes)
    ensures var r := QueryTo(b, n, now, later);
            && ("imc+udp" !in Keys(n.services) <==> r == ([], Some(KeyError)))
            && ("imc+udp" in Keys(n.services) ==>
                  && |Get(n.services, "imc+udp")| > 0
                  && var svc := Get(n.services, "imc+udp")[0];
                  && r.1 == None
                  && r.0 == [Registry.Sent(Datagram(svc.ip, svc.port, QueryMsg(b, now)))]
                            + Registry.SendStatic(b, QueryMsg(b, now), later, true))
  {
    var i :| 0 <= i < |b.nodes| && NodesOf(b.nodes)[i] == n;
    assert b.nodes[i].node == n;
    assert Registry.Keyed(b.nodes[i]);
    assert KeysOf(b.nodes)[i] == n.key;
    FindUnique(b.nodes, i);
    ResolveExactKey(b.nodes, n.key);
    PresentIffNonEmpty(n.services, "imc+udp");
    Registry.SendEffect(b, ByNode(n.key), Fresh(EntityList(Query, "")), now, later, true);
    if "imc+udp" in Keys(n.services) {
      var r := QueryTo(b, n, now, later);
      assert r.0 == [r.0[0]] + r.0[1..];
    }
  }

  /** What querying the nodes `ns` amounts to, with no static
      destinations: no exception exactly when every node has an `imc+udp`
      service, and then one QUERY per node, in order, at its first such
      service; otherwise KeyError. */
  predicate QueriedAll(b: Registry.Base, ns: seq<Registry.RegNode>, now: real, r: Sends) {
    && (r.1 == None <==> forall i :: 0 <= i < |ns| ==> "imc+udp" in Keys(ns[i].services))
    && (r.1.Some? ==> r.1 == Some(KeyError))
    && (r.1 == None ==>
          && |r.0| == |ns|
          && forall i :: 0 <= i < |ns| ==>
               && |Get(ns[i].services, "imc+udp")| > 0
               && var svc := Get(ns[i].services, "imc+udp")[0];
               && r.0[i] == Registry.Sent(Datagram(svc.ip, svc.port, QueryMsg(b, now))))
  }

  /** Queries to stored nodes, with no static destinations, stop at the
      first node without an `imc+udp` service. */
  lemma QueriesDeliver(b: Registry.Base, ns: seq<Registry.RegNode>, now: real, later: real)
    requires Registry.WellFormed(b) && b.statics == []
    requires forall i :: 0 <= i < |ns| ==> ns[i] in NodesOf(b.nodes)
    ensures QueriedAll(b, ns, now, Chain(Queries(b, ns, now, later)))
  {
    var rs := Queries(b, ns, now, later);
    NoStatics(b, QueryMsg(b, now), later);
    forall i | 0 <= i < |ns|
      ensures ("imc+udp" !in Keys(ns[i].services) <==> rs[i] == ([], Some(KeyError)))
      ensures "imc+udp" in Keys(ns[i].services) ==>
                && |Get(ns[i].services, "imc+udp")| > 0
                && var svc := Get(ns[i].services, "imc+udp")[0];
                && rs[i] == ([Registry.Sent(Datagram(svc.ip, svc.port, QueryMsg(b, now)))], None)
    {
      QueryToEffect(b, ns[i], now, later);
      if "imc+udp" in Keys(ns[i].services) {
        var svc := Get(ns[i].services, "imc+udp")[0];
        var e := Registry.Sent(Datagram(svc.ip, svc.port, QueryMsg(b, now)));
        assert [e] + [] == [e];
      }
    }
    if forall i :: 0 <= i < |ns| ==> "imc+udp" in Keys(ns[i].services) {
      ChainAllOk(rs);
      DeliveredSingles(rs);
    } else {
      var j := FirstMissing(ns);
      ChainStops(rs, j);
    }
  }

  /** With the fix, and no static destinations: the task raises nothing
      exactly when every node without entities has an `imc+udp` service,
      and then each of them, in map order, receives one QUERY at its first
      such service; otherwise the first node lacking one raises KeyError. */
  lemma QueryEntityListFixedDelivers(d: Dyn, now: real, later: real)
    requires WellFormed(d) && d.base.statics == []
    ensures QueriedAll(d.base, Unlisted(d.base.nodes), now, QueryEntityListFixed(d, now, later))
  {
    QueriesDeliver(d.base, Unlisted(d.base.nodes), now, later);
  }

  /** The first node without an `imc+udp` service. */
  lemma FirstMissing(ns: seq<Registry.RegNode>) returns (j: nat)
    requires exists i :: 0 <= i < |ns| && "imc+udp" !in Keys(ns[i].services)
    ensures j < |ns| && "imc+udp" !in Keys(ns[j].services)
    ensures forall i :: 0 <= i < j ==> "imc+udp" in Keys(ns[i].services)
  {
    j := 0;
    while "imc+udp" in Keys(ns[j].services)
      invariant j < |ns|
      invariant forall i :: 0 <= i < j ==> "imc+udp" in Keys(ns[i].services)
      invariant exists i :: j <= i < |ns| && "imc+udp" !in Keys(ns[i].services)
      decreases |ns| - j
    {
      j := j + 1;
    }
  }

  /** As written, a node that has announced an `imc+udp` service but no
      entities is never queried: the task raises instead, while the
      intended version sends that node a QUERY. */
  lemma QueryEntityListNeverSends(d: Dyn, now: real, later: real, i: nat)
    requires WellFormed(d) && d.base.statics == []
    requires i < |d.base.nodes| && |d.base.nodes[i].node.entities| == 0
    requires forall j :: 0 <= j < |d.base.nodes| ==> "imc+udp" in Keys(d.base.nodes[j].node.services)
    ensures QueryEntityList(d, now, later) == ([], Some(AttributeError))
    ensures var r := QueryEntityListFixed(d, now, later);
            var n := d.base.nodes[i].node;
            && r.1 == None
            && |Get(n.services, "imc+udp")| > 0
            && var svc := Get(n.services, "imc+udp")[0];
            && Registry.Sent(Datagram(svc.ip, svc.port, QueryMsg(d.base, now))) in r.0
  {
    var ns := Unlisted(d.base.nodes);
    var n := d.base.nodes[i].node;
    var j :| 0 <= j < |ns| && ns[j] == n;
    forall k | 0 <= k < |ns| ensures "imc+udp" in Keys(ns[k].services) {
      var m :| 0 <= m < |d.base.nodes| && NodesOf(d.base.nodes)[m] == ns[k];
    }
    QueryEntityListFixedDelivers(d, now, later);
    var r := QueryEntityListFixed(d, now, later);
    assert r.0[j] in r.0;
  }

  // ---------------------------------------------------------------------
  // send_announce
  // ---------------------------------------------------------------------

  /** `send_announce()` at time `now`, given the addresses of the external
      interfaces, of all interfaces (loopback included) and the multicast
      group. Nothing happens until the UDP port is known. Otherwise the
      service list is rebuilt on every call, from the external addresses
      or, when there are none, from all of them. */
  function SendAnnounce(d: Dyn, now: real, external: seq<string>, all: seq<string>, group: string): Outcome {
    if d.portImc.None? || d.portImc.value == 0 then Outcome(d, [], None)
    else
      var urls := ServiceUrls(if |external| > 0 then external else all, d.portImc.value);
      var d' := d.(services := urls, announced := Join(urls, ';'), own := d.own.(timestamp := now));
      var ds := AnnounceDatagrams(AnnounceMsg(d'), group);
      Outcome(d', seq(|ds|, i requires 0 <= i < |ds| => Registry.Sent(ds[i])), None)
  }

  /** The announce goes out on the five announce ports, stamped `now`,
      listing one `imc+udp` URL per chosen address; only the service list
      and the timestamp change, and the registry stays as it was. */
  lemma SendAnnounceEffect(d: Dyn, now: real, external: seq<string>, all: seq<string>, group: string)
    ensures var r := SendAnnounce(d, now, external, all, group);
            && r.exc == None
            && r.actor.base == d.base
            && (d.portImc.None? || d.portImc.value == 0 ==> r.actor == d && r.events == [])
            && (d.portImc.Some? && d.portImc.value != 0 ==>
                  var addrs := if |external| > 0 then external else all;
                  var urls := ServiceUrls(addrs, d.portImc.value);
                  && r.actor == d.(services := urls, announced := Join(urls, ';'), own := d.own.(timestamp := now))
                  && |urls| == |addrs|
                  && |r.events| == 5
                  && forall i :: 0 <= i < 5 ==>
                       r.events[i] == Registry.Sent(Datagram(Some(group), Some(30100 + i), AnnounceMsg(r.actor))))
  {
  }

  /** The actor's registry ignores the echo of its own announce. */
  lemma OwnAnnounceIgnored(d: Dyn, now: real)
    requires WellFormed(d)
    ensures Registry.RecvAnnounce(d.base, AnnounceMsg(d), now) == Registry.Outcome(d.base, [], None)
  {
  }

  /** A peer receiving the announce knows the actor under its own key, and
      sends to the first chosen address at the actor's port. The actor
      stays well formed, so it still ignores its own announce. */
  lemma AnnounceUnderstood(d: Dyn, now: real, external: seq<string>, all: seq<string>, group: string,
                           later: real)
    requires WellFormed(d) && d.portImc.Some? && 1 <= d.portImc.value <= 65535
    requires var addrs := if |external| > 0 then external else all;
             |addrs| >= 1 && forall i :: 0 <= i < |addrs| ==> IsInterfaceAddress(addrs[i])
    ensures var r := SendAnnounce(d, now, external, all, group);
            var addrs := if |external| > 0 then external else all;
            var u := Registry.FromAnnounce(AnnounceMsg(r.actor), later);
            var udp := Get(u.0.services, "imc+udp");
            && WellFormed(r.actor)
            && u.1 == None
            && u.0.key == NodeKey(d.base.imcId, d.sysName)
            && |udp| == |addrs|
            && forall i :: 0 <= i < |addrs| ==> udp[i] == Service(Some(addrs[i]), Some(d.portImc.value), "imc+udp", None)
  {
    var addrs := if |external| > 0 then external else all;
    var r := SendAnnounce(d, now, external, all, group);
    AnnouncedServicesParse(addrs, d.portImc.value);
    assert AnnounceMsg(r.actor).body.services == Join(ServiceUrls(addrs, d.portImc.value), ';');
  }

  // ---------------------------------------------------------------------
  // send_heartbeat
  // ---------------------------------------------------------------------

  /** One heartbeat: resolve the id, then send to the node it names. */
  function HeartbeatTo(b: Registry.Base, id: NodeId, now: real, later: real): Sends {
    match Resolve(b.nodes, id)
    case Err(e) => ([], Some(e))
    case Ok(e) => Registry.Send(b, ByNode(e.node.key), Fresh(Heartbeat), now, later, true)
  }

  function HeartbeatAttempts(b: Registry.Base, ids: seq<NodeId>, now: real, later: real): (rs: seq<Sends>)
    ensures |rs| == |ids|
    ensures forall i :: 0 <= i < |ids| ==> rs[i] == HeartbeatTo(b, ids[i], now, later)
  {
    if |ids| == 0 then [] else [HeartbeatTo(b, ids[0], now, later)] + HeartbeatAttempts(b, ids[1..], now, later)
  }

  /** The loop of `send_heartbeat`: an AmbiguousKeyError is logged and a
      KeyError passed over, and the next id is tried; any other exception
      ends the task. */
  function SkipKeyErrors(rs: seq<Sends>): Sends {
    if |rs| == 0 then ([], None)
    else if rs[0].1.Some? then
      if IsKeyError(rs[0].1.value) then SkipKeyErrors(rs[1..]) else ([], rs[0].1)
    else
      var rest := SkipKeyErrors(rs[1..]);
      (rs[0].0 + rest.0, rest.1)
  }

  /** `send_heartbeat()` with clock readings `now` and `later`. */
  function SendHeartbeat(d: Dyn, now: real, later: real): Sends {
    SkipKeyErrors(HeartbeatAttempts(d.base, d.heartbeat, now, later))
  }

  /** When no attempt raises anything but a key error, the task raises
      nothing and sends what every successful attempt sends. */
  lemma {:induction false} SkipKeyErrorsDelivers(rs: seq<Sends>)
    requires forall i :: 0 <= i < |rs| ==> rs[i].1.Some? ==> IsKeyError(rs[i].1.value)
    ensures SkipKeyErrors(rs) == (Delivered(rs), None)
  {
    if |rs| > 0 {
      assert forall i :: 0 <= i < |rs[1..]| ==> rs[1..][i] == rs[i + 1];
      SkipKeyErrorsDelivers(rs[1..]);
      if rs[0].1.Some? {
        assert [] + Delivered(rs[1..]) == Delivered(rs[1..]);
      }
    }
  }

  /** The id kinds the configuration can hold that resolve or fail with a
      key error: an address, a name, a node, a message, or a well-typed
      `(address, name)` tuple. */
  predicate PlainId(id: NodeId) {
    || id.ByAddr? || id.ByName? || id.ByNode? || id.ByMessage?
    || (id.ByTuple? && |id.items| == 2 && id.items[0].PyInt? && id.items[1].PyStr?)
  }

  /** One heartbeat to a plain id fails only with a key error; it succeeds
      exactly when the id names one node that has an `imc+udp` service,
      and then reaches that node's first such service. */
  lemma HeartbeatToEffect(b: Registry.Base, id: NodeId, now: real, later: real)
    requires Registry.WellFormed(b) && PlainId(id)
    ensures var r := HeartbeatTo(b, id, now, later);
            var res := Resolve(b.nodes, id);
            && (r.1.Some? ==> IsKeyError(r.1.value))
            && (r.1.None? <==> res.Ok? && "imc+udp" in Keys(res.value.node.services))
            && (r.1.None? ==>
                  && |Get(res.value.node.services, "imc+udp")| > 0
                  && var svc := Get(res.value.node.services, "imc+udp")[0];
                  var m := Registry.Stamp(b, Fresh(Heartbeat), now, true);
                  && |r.0| >= 1
                  && r.0[0] == Registry.Sent(Datagram(svc.ip, svc.port, m))
                  && r.0[1..] == Registry.SendStatic(b, m, later, true))
  {
    var res := Resolve(b.nodes, id);
    if id.ByAddr? || id.ByName? || id.ByMessage? {
      ResolvePartialKey(b.nodes, id);
    } else if id.ByNode? {
      ResolveExactKey(b.nodes, id.key);
    } else {
      ResolveExactKey(b.nodes, NodeKey(id.items[0].i, id.items[1].s));
      assert id.items == [PyInt(id.items[0].i), PyStr(id.items[1].s)];
    }
    if res.Ok? {
      var e := res.value;
      ResolveFinds(b.nodes, id);
      FindAllEntries(b.nodes, Registry.Keyed, e.key);
      ResolveExactKey(b.nodes, e.key);
      PresentIffNonEmpty(e.node.services, "imc+udp");
      Registry.SendEffect(b, ByNode(e.node.key), Fresh(Heartbeat), now, later, true);
    }
  }

  /** With plain ids only, `send_heartbeat` raises nothing, and a heartbeat
      reaches every node named by exactly one id that has an `imc+udp`
      service, in the order of the configured ids. */
  lemma SendHeartbeatDelivers(d: Dyn, now: real, later: real)
    requires WellFormed(d)
    requires forall i :: 0 <= i < |d.heartbeat| ==> PlainId(d.heartbeat[i])
    ensures var rs := HeartbeatAttempts(d.base, d.heartbeat, now, later);
            && SendHeartbeat(d, now, later) == (Delivered(rs), None)
            && forall i :: 0 <= i < |rs| ==>
                 (rs[i].1.None? <==> var res := Resolve(d.base.nodes, d.heartbeat[i]);
                                     res.Ok? && "imc+udp" in Keys(res.value.node.services))
  {
    var rs := HeartbeatAttempts(d.base, d.heartbeat, now, later);
    forall i | 0 <= i < |rs|
      ensures rs[i].1.Some? ==> IsKeyError(rs[i].1.value)
      ensures rs[i].1.None? <==> var res := Resolve(d.base.nodes, d.heartbeat[i]);
                                 res.Ok? && "imc+udp" in Keys(res.value.node.services)
    {
      HeartbeatToEffect(d.base, d.heartbeat[i], now, later);
    }
    SkipKeyErrorsDelivers(rs);
  }
}
