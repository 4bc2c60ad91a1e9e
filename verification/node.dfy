/** `IMCNode` (pyimc/node.py): what an actor knows about one peer — its
    last announce, the services the announce lists grouped by URL scheme,
    its entity dictionary and the timestamp of its last heartbeat. */
module Node {
  import opened Prelude
  import opened Strings
  import opened Messages
  import opened EntityText
  import opened Service
  import opened ListDict

  /** `Dict[str, List[IMCService]]`, keyed by URL scheme. */
  type ServiceMap = Dict<string, Service>

  /** The services among `svcs` whose scheme is `scheme`, in order. */
  function WithScheme(svcs: seq<Service>, scheme: string): (r: seq<Service>)
    ensures forall i :: 0 <= i < |r| ==> r[i].scheme == scheme && r[i] in svcs
  {
    if |svcs| == 0 then []
    else
      var init := WithScheme(svcs[..|svcs| - 1], scheme);
      assert forall x :: x in svcs[..|svcs| - 1] ==> x in svcs;
      init + (if svcs[|svcs| - 1].scheme == scheme then [svcs[|svcs| - 1]] else [])
  }

  /** The services `parse` builds from `entries` before the first entry it
      rejects. */
  function ParsedPrefix(parse: string -> Result<Service>, entries: seq<string>): (svcs: seq<Service>)
    ensures |svcs| <= |entries|
    ensures forall i :: 0 <= i < |svcs| ==> parse(entries[i]) == Ok(svcs[i])
    ensures |svcs| < |entries| ==> parse(entries[|svcs|]).Err?
  {
    if |entries| == 0 then []
    else match parse(entries[0])
      case Err(_) => []
      case Ok(svc) =>
        var rest := ParsedPrefix(parse, entries[1..]);
        assert forall i :: 0 <= i < |entries[1..]| ==> entries[1..][i] == entries[i + 1];
        [svc] + rest
  }

  /** When every entry parses, the prefix is all of them. */
  lemma {:induction false} ParsedPrefixAll(parse: string -> Result<Service>, entries: seq<string>, svcs: seq<Service>)
    requires |svcs| == |entries|
    requires forall i :: 0 <= i < |entries| ==> parse(entries[i]) == Ok(svcs[i])
    ensures ParsedPrefix(parse, entries) == svcs
  {
    if |entries| > 0 {
      assert forall i :: 0 <= i < |entries| - 1 ==> entries[1..][i] == entries[i + 1] && svcs[1..][i] == svcs[i + 1];
      ParsedPrefixAll(parse, entries[1..], svcs[1..]);
      assert svcs == [svcs[0]] + svcs[1..];
    }
  }

  /** Services that all have the scheme are all kept. */
  lemma {:induction false} WithSchemeAll(svcs: seq<Service>, scheme: string)
    requires forall i :: 0 <= i < |svcs| ==> svcs[i].scheme == scheme
    ensures WithScheme(svcs, scheme) == svcs
  {
    if |svcs| > 0 {
      WithSchemeAll(svcs[..|svcs| - 1], scheme);
      assert svcs[..|svcs| - 1] + [svcs[|svcs| - 1]] == svcs;
    }
  }

  /** The loop of `update_services` from map `m` on: the first entry that
      cannot be parsed stops it with its exception, keeping what was added
      before. */
  function AddAll(parse: string -> Result<Service>, entries: seq<string>, m: ServiceMap)
    : (r: (ServiceMap, Option<Exc>))
    ensures r.1.Some? <==> |ParsedPrefix(parse, entries)| < |entries|
    ensures r.1.Some? ==> r.1.value == parse(entries[|ParsedPrefix(parse, entries)|]).exc
    ensures NoEmptyLists(m) ==> NoEmptyLists(r.0)
  {
    if |entries| == 0 then (m, None)
    else
      match parse(entries[0])
      case Err(e) => (m, Some(e))
      case Ok(svc) => AddAll(parse, entries[1..], Append(m, svc.scheme, svc))
  }

  lemma AppendAssoc<T>(a: seq<T>, x: T, b: seq<T>)
    ensures a + [x] + b == a + ([x] + b)
  {
  }

  lemma {:induction false} AddAllGroups(parse: string -> Result<Service>, entries: seq<string>,
                                        m: ServiceMap, done: seq<Service>, scheme: string)
    requires Get(m, scheme) == WithScheme(done, scheme)
    ensures Get(AddAll(parse, entries, m).0, scheme)
            == WithScheme(done + ParsedPrefix(parse, entries), scheme)
  {
    if |entries| == 0 {
      assert done + [] == done;
    } else if parse(entries[0]).Ok? {
      var svc := parse(entries[0]).value;
      var m' := Append(m, svc.scheme, svc);
      assert Get(m', scheme) == WithScheme(done + [svc], scheme) by {
        AppendGet(m, svc.scheme, svc, scheme);
        assert (done + [svc])[..|done|] == done;
      }
      AddAllGroups(parse, entries[1..], m', done + [svc], scheme);
      assert AddAll(parse, entries, m) == AddAll(parse, entries[1..], m');
      assert ParsedPrefix(parse, entries) == [svc] + ParsedPrefix(parse, entries[1..]);
      AppendAssoc(done, svc, ParsedPrefix(parse, entries[1..]));
    } else {
      assert done + [] == done;
    }
  }

  /** `update_services()`: a fresh map; the result and any ValueError. */
  function UpdateServices(text: string): (ServiceMap, Option<Exc>) {
    AddAll(ParseService, Split(text, ';'), [])
  }

  /** After `update_services`, each scheme maps to exactly the services with
      that scheme, in the order they were listed, up to the first entry
      with an unreadable port, where a ValueError escapes. */
  lemma UpdateServicesGroups(text: string, scheme: string)
    ensures var entries := Split(text, ';');
            var parsed := ParsedPrefix(ParseService, entries);
            && Get(UpdateServices(text).0, scheme) == WithScheme(parsed, scheme)
            && (UpdateServices(text).1.Some? <==> |parsed| < |entries|)
            && (UpdateServices(text).1.Some? ==> UpdateServices(text).1.value == ValueError)
            && NoEmptyLists(UpdateServices(text).0)
  {
    var entries := Split(text, ';');
    AddAllGroups(ParseService, entries, [], [], scheme);
    assert [] + ParsedPrefix(ParseService, entries) == ParsedPrefix(ParseService, entries);
  }

  /** A service list whose entries all parse, to services of one scheme,
      is read back as exactly those services under that scheme. */
  lemma UpdateServicesOfAll(entries: seq<string>, svcs: seq<Service>, scheme: string)
    requires |entries| >= 1 && |svcs| == |entries|
    requires forall i :: 0 <= i < |entries| ==> ';' !in entries[i]
    requires forall i :: 0 <= i < |entries| ==> ParseService(entries[i]) == Ok(svcs[i])
    requires forall i :: 0 <= i < |svcs| ==> svcs[i].scheme == scheme
    ensures UpdateServices(Join(entries, ';')).1 == None
    ensures Get(UpdateServices(Join(entries, ';')).0, scheme) == svcs
  {
    SplitOfJoin(entries, ';');
    ParsedPrefixAll(ParseService, entries, svcs);
    WithSchemeAll(svcs, scheme);
    UpdateServicesGroups(Join(entries, ';'), scheme);
  }

  // ---------------------------------------------------------------------
  // the node
  // ---------------------------------------------------------------------

  datatype NodeInfo = NodeInfo(
    announce: Option<Message>,
    services: ServiceMap,
    entities: Entities,
    heartbeat: Option<real>)

  const EmptyNode := NodeInfo(None, [], [], None)

  predicate IsAnnounce(m: Option<Message>) {
    m.Some? ==> m.value.body.Announce?
  }

  /** `update_announce(msg)`: stores the message and, when there is one,
      rebuilds the service map from its service list (a ValueError from a
      bad port leaves the partly built map). */
  function UpdateAnnounce(n: NodeInfo, msg: Option<Message>): (r: (NodeInfo, Option<Exc>))
    requires IsAnnounce(msg)
    ensures r.0.announce == msg && r.0.entities == n.entities && r.0.heartbeat == n.heartbeat
    ensures msg.None? ==> r == (n.(announce := None), None)
    ensures msg.Some? ==> (r.0.services, r.1) == UpdateServices(msg.value.body.services)
  {
    match msg
    case None => (n.(announce := None), None)
    case Some(m) =>
      var (svcs, exc) := UpdateServices(m.body.services);
      (n.(announce := msg, services := svcs), exc)
  }

  /** `IMCNode(announce)` */
  function NewNode(announce: Option<Message>): (NodeInfo, Option<Exc>)
    requires IsAnnounce(announce)
  {
    UpdateAnnounce(EmptyNode, announce)
  }

  /** `update_heartbeat(msg)`: remembers the message's timestamp. */
  function UpdateHeartbeat(n: NodeInfo, msg: Message): (r: NodeInfo)
    ensures r.heartbeat == Some(msg.h.timestamp)
    ensures r.(heartbeat := n.heartbeat) == n
  {
    n.(heartbeat := Some(msg.h.timestamp))
  }

  /** `update_entity_list(msg)`: replaces the entities with the parsed list,
      or raises ValueError and keeps the old ones. */
  function UpdateEntityList(n: NodeInfo, msg: Message): (r: Result<NodeInfo>)
    requires msg.body.EntityList?
    ensures r.Ok? <==> ParseEntityList(msg.body.list).Ok?
    ensures r.Ok? ==> r.value == n.(entities := ParseEntityList(msg.body.list).value)
    ensures r.Err? ==> r.exc == ValueError
  {
    match ParseEntityList(msg.body.list)
    case Ok(es) => Ok(n.(entities := es))
    case Err(e) => Err(e)
  }

  /** `send(msg)`: the datagram goes to the first `imc+udp` service; without
      one, `services['imc+udp']` is a KeyError, and an empty list would be an
      IndexError (`update_services` never stores one). Only the node's
      service map takes part. */
  function SendTo(services: ServiceMap, msg: Message): (r: Result<Datagram>)
    ensures "imc+udp" !in Keys(services) ==> r == Err(KeyError)
    ensures r.Ok? <==> "imc+udp" in Keys(services) && |Get(services, "imc+udp")| > 0
    ensures "imc+udp" in Keys(services) && |Get(services, "imc+udp")| == 0 ==> r == Err(IndexError)
    ensures r.Ok? ==> var svc := Get(services, "imc+udp")[0];
                      r.value == Datagram(svc.ip, svc.port, msg)
  {
    if "imc+udp" !in Keys(services) then Err(KeyError)
    else
      var svcs := Get(services, "imc+udp");
      if |svcs| == 0 then Err(IndexError)
      else Ok(Datagram(svcs[0].ip, svcs[0].port, msg))
  }

  /** A node built from an announce can be sent to exactly when its service
      list names an `imc+udp` service, and the datagram goes to the first
      one listed. */
  lemma SendAfterAnnounce(n: NodeInfo, announce: Message, msg: Message)
    requires announce.body.Announce?
    ensures var node := UpdateAnnounce(n, Some(announce)).0.services;
            var udp := WithScheme(ParsedPrefix(ParseService, Split(announce.body.services, ';')), "imc+udp");
            && (SendTo(node, msg).Ok? <==> |udp| > 0)
            && (SendTo(node, msg).Err? ==> SendTo(node, msg).exc == KeyError)
            && (SendTo(node, msg).Ok? ==> SendTo(node, msg).value == Datagram(udp[0].ip, udp[0].port, msg))
  {
    var node := UpdateAnnounce(n, Some(announce)).0.services;
    UpdateServicesGroups(announce.body.services, "imc+udp");
    PresentIffNonEmpty(node, "imc+udp");
  }
}
