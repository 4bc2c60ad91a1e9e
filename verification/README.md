# pyimc core, modelled in Dafny

pyimc is a Python runtime for IMC, the Inter-Module Communication protocol
of the LSTS toolchain (DUNE, Neptus). It also holds the generators of the
pybind11 bindings that expose DUNE's C++ message classes to Python. This
project models the logic of that core as pure Dafny functions and proves
what it promises:

- **Nodes and services** (`pyimc/node.py`).
  - Modules: `Service`, `Node`.
  - `IMCService` parses an announced URL such as `imc+udp://192.168.1.3:6002/`, and prints it back.
  - `IMCNode` groups a peer's services by scheme, parses its entity list and picks the first `imc+udp` service to send to.
- **Node bookkeeping of `IMCBase`** (`pyimc/actors/base.py`).
  - Modules: `NodeTable`, `Registry`, `Dispatch`.
  - The insertion-ordered map of peers keyed by `(imc address, system name)`.
  - `resolve_node_id`, with its KeyError, AmbiguousKeyError and TypeError outcomes.
  - What an Announce, Heartbeat, EntityList or EntityInfo does to the map.
  - The periodic pruning of silent peers; `send` and `send_static`.
  - `post_message` dispatch, and the ordering of subscribers by class hierarchy.
- **The decorators** (`pyimc/decorators.py`, module `Decorators`).
  - `@Periodic` (a period counted from each late wake-up, so the event loop's lateness accumulates).
  - `@Subscribe` and `@RunOnce`.
- **The two actors.**
  - The older `ActorBase` (`pyimc/actor.py`, module `LegacyActor`), with the UDP dispatch of `pyimc/udp.py` (module `LegacyUdp`).
  - `DynamicActor` (`pyimc/actors/dynamic.py`, module `Dynamic`).
  - The announce both of them multicast (module `Announcing`).
- **Logs.**
  - The framing of DUNE's LSF logs (`pyimc/lsf.py`, module `Lsf`).
  - The replay of a log by `PlaybackActor` (`pyimc/actors/playback.py`, module `Playback`).
- **Binding generators.**
  - The IMC XML schema model with its dependency sort (`utils/imc_schema.py`, module `Schema`).
  - The pybind11 and `.pyi` generator (`utils/generate_bindings.py`, module `Pybind`).
  - The older DUNE-based generator (`generate_bindings.py`, module `DuneGen`).

Shared modules:

- `Prelude`: Option, Result and the Python exceptions.
- `Strings`: `split`, `join`, `int` and `str` of integers, `strip`, `capwords`.
- `StableSort`: Python's stable `sorted` with a key.
- `ListDict`: a dict of lists in insertion order.
- `Messages`: the message fields the core reads.
- `EntityText`: the `label=id;...` entity list text.

Python exceptions become `Err(exc)` results. Clocks, the list of network
interfaces and the multicast group are parameters. Sockets are replaced by
the datagrams they would be handed, and user callbacks and log warnings by
events.

## Model

| member | source | states |
|---|---|---|
| Service.ParseService | pyimc/node.py:8-17 | Parsing a service URL fails, with ValueError, exactly when the text after the host's `:` is not a number in 0..65535. On success the service keeps the scheme, the host and the port, and the path `/` gives no parameters while any other path gives its non-empty `/` segments. |
| Service.Port | pyimc/node.py:11 | The port is read exactly when the text after the `:` is empty (no port) or a number in 0..65535, and is then that number. Anything else is a ValueError. |
| Service.ServiceText | pyimc/node.py:19-22 | Printing a service fails, with IndexError, exactly when it has a single path parameter. Otherwise the text starts with `scheme://`. |
| Service.ServiceTextZeroPort | pyimc/node.py:21 | A port of 0 prints like no port at all. |
| Service.ServiceTextEmptyParam | pyimc/node.py:20 | An empty tuple of path parameters prints like none. |
| Service.ServiceTextSegments | pyimc/node.py:20-22 | With two or more path parameters, exactly the first two follow the final `/`, joined by `/`, after the text printed without parameters; later ones are ignored. |
| Service.ServiceTextHost | pyimc/node.py:22 | The host follows `scheme://`, and a service without a host prints `None` in its place. |
| Service.HostPortOfPlain | pyimc/node.py:10-11 | For `host:port`, the hostname is the host and the port is the number. |
| Service.SplitPlainUrl | pyimc/node.py:9 | `urlparse` splits `scheme://host:port/` into the lower-cased scheme, the network location `host:port` and the path `/`. |
| Service.PlainUrlRoundTrip | pyimc/node.py:7-22 | A URL `scheme://host:port/` parses to that host, port and scheme with no parameters, and prints back to the same text. |
| Service.SampleService | pyimc/node.py:76-79 | The sample `imc+udp://192.168.1.3:6002/` yields host `192.168.1.3` and port 6002. |
| Node.ParsedPrefix | pyimc/node.py:46-47 | Services are parsed in order up to the first entry that fails. The entry after the parsed prefix is the one that raised. |
| Node.AddAll | pyimc/node.py:46-51 | Adding the services stops with the exception of the first entry that does not parse. No scheme is left with an empty list. |
| Node.AddAllGroups | pyimc/node.py:46-51 | Each scheme's list holds the parsed services of that scheme, in announce order. |
| Node.UpdateServicesGroups | pyimc/node.py:44-51 | `update_services` splits the text at `;` and groups the services that parse, by scheme and in order. It raises ValueError exactly when some entry does not parse. |
| Node.UpdateServicesOfAll | pyimc/node.py:44-51 | When every `;`-separated entry parses, the services of a scheme are exactly those entries, in order. |
| Node.UpdateAnnounce | pyimc/node.py:36-39 | The node stores the announce and rebuilds its services from it. An empty announce leaves the services alone. |
| Node.UpdateHeartbeat | pyimc/node.py:41-42 | The node records the heartbeat's timestamp and nothing else changes. |
| Node.UpdateEntityList | pyimc/node.py:53-54 | The node's entities become the parsed list, and nothing else changes. A malformed list raises ValueError and changes nothing. |
| Node.SendTo | pyimc/node.py:56-66 | The send succeeds exactly when there is a non-empty `imc+udp` list, and then goes to the first such service's ip and port. No list is a KeyError; an empty one would be an IndexError, which `update_services` never leaves behind. |
| Node.SendAfterAnnounce | pyimc/node.py:36-66 | After an announce, a send succeeds exactly when the announce lists a parseable `imc+udp` service, and it goes to the first one listed. |
| Announcing.ServiceUrls | pyimc/actors/dynamic.py:75 | One `imc+udp://addr:port/` URL per interface address, in order. |
| Announcing.AnnounceDatagrams | pyimc/actors/dynamic.py:81-84 | The announce goes to the multicast group once per port 30100..30104, in order. |
| Announcing.UrlParses | pyimc/actors/dynamic.py:75 | Each announced URL has no `;` and parses back to the interface address and the IMC port. |
| Announcing.AnnouncedServicesParse | pyimc/actors/dynamic.py:75-80 | A peer that reads the joined services string gets one `imc+udp` service per interface, in order, without error. |
| NodeTable.Find | pyimc/actors/base.py:55 | A key is found exactly when it is one of the map's keys. |
| NodeTable.FindUnique | pyimc/actors/base.py:55 | In a map with distinct keys, each entry's key finds that entry's node. |
| NodeTable.PutFind | pyimc/actors/base.py:269 | After storing a node under a key, that key finds the node and every other key finds what it found before. |
| NodeTable.PutKeys | pyimc/actors/base.py:269 | Storing under an existing key keeps the key order. A new key is appended at the end, as a dict does. |
| NodeTable.PutUnique | pyimc/actors/base.py:269 | Storing keeps the keys distinct. |
| NodeTable.DeleteFind | pyimc/actors/base.py:277 | After `del`, the deleted key finds nothing and every other key is unaffected. |
| NodeTable.DropKeysOf | pyimc/actors/base.py:406-408 | After removing a list of keys, the map has exactly the old keys that are not in the list. |
| NodeTable.DropKeysWhere | pyimc/actors/base.py:398-408 | Collecting the keys that satisfy a condition, then deleting them one by one, is the same as filtering those entries out. |
| NodeTable.RemoveWhere | pyimc/actors/base.py:398-408 | The filtered map holds exactly the entries that fail the condition. |
| NodeTable.Colliding | pyimc/actors/base.py:438 | The colliding keys are exactly the known keys that share the new key's address or name. |
| NodeTable.KeysWithAddr | pyimc/actors/base.py:240-241 | The candidates are exactly the known keys with that IMC address. |
| NodeTable.KeysWithName | pyimc/actors/base.py:240-241 | The candidates are exactly the known keys with that system name. |
| NodeTable.Choose | pyimc/actors/base.py:242-247 | No candidate is a KeyError and several are an AmbiguousKeyError listing them. A single candidate resolves to its node. |
| NodeTable.Lookup | pyimc/actors/base.py:252 | Indexing by a full key succeeds exactly when the key is present, and otherwise raises KeyError. |
| NodeTable.ResolvePartialKey | pyimc/actors/base.py:236-247 | Resolving an address, a name or a message's source: it succeeds exactly when one key matches. KeyError means no key matches, and AmbiguousKeyError exactly when several match. |
| NodeTable.ResolveExactKey | pyimc/actors/base.py:248-257 | An `(int, str)` tuple or a node resolves to a dict lookup of its key. A tuple with the wrong element types is a TypeError. |
| NodeTable.ResolveFinds | pyimc/actors/base.py:223-262 | A resolved entry is the map's node under that key. |
| ListDict.PresentIffNonEmpty | pyimc/node.py:48-51 | When no list is empty, a key is present exactly when its list is non-empty. |
| ListDict.AppendGet | pyimc/actors/base.py:378-381 | Appending to a key's list (creating it if missing) extends that key's list by the value and leaves every other key's list alone. |
| ListDict.AppendKeys | pyimc/actors/base.py:378-381 | Appending keeps the key order. A missing key is added at the end. |
| Registry.Init | pyimc/actors/base.py:40-59 | A new actor has no announce, no nodes and no static transports. |
| Registry.AddNodeKeepsWellFormed | pyimc/actors/base.py:264-269 | `add_node` keeps keys distinct and every node stored under its own key, and the node can then be found. |
| Registry.RemoveNodeExact | pyimc/actors/base.py:271-277 | `remove_node` raises whatever resolution raises. Otherwise it removes exactly the resolved key. |
| Registry.RemoveEachDrops | pyimc/actors/base.py:406-414 | Removing the collected keys one at a time raises nothing and reports a disconnect for each key, in order. |
| Registry.PruneRemovesStale | pyimc/actors/base.py:392-414 | Pruning removes exactly the nodes with neither a heartbeat nor an announce in the last 60 seconds, except fixed nodes. It reports one disconnect per removed key, in map order. |
| Registry.FromAnnounce | pyimc/actors/base.py:443 | A node created from an announce is keyed by the announce's source and system name and stamped with the receipt time. It has no heartbeat yet and is not fixed. |
| Registry.ReAnnounce | pyimc/actors/base.py:435 | A repeated announce refreshes the node's services and announce time only. |
| Registry.RecvAnnounceSelf | pyimc/actors/base.py:426-430 | An announce carrying the actor's own address changes nothing. It warns exactly when the system name differs. |
| Registry.RecvAnnounceKnown | pyimc/actors/base.py:433-435 | An announce from a known key updates that node only and keeps the key order. |
| Registry.RecvAnnounceNew | pyimc/actors/base.py:436-448 | An announce from a new key appends the new node and ends with a connect event. An unparseable service list raises ValueError and leaves the map alone. |
| Registry.RecvAnnounceCollision | pyimc/actors/base.py:437-440 | A new key warns first, listing the known keys that share its address or name. It warns exactly when such a key exists. |
| Registry.RecvHeartbeatEffect | pyimc/actors/base.py:450-463 | A heartbeat from a uniquely resolved source stamps that node alone, and reports the first heartbeat only once. A missing or ambiguous source changes nothing. |
| Registry.RecvEntityListEffect | pyimc/actors/base.py:465-476 | Only a REPORT from a uniquely resolved source replaces that node's entities, and a malformed list raises ValueError. Anything else changes nothing. |
| Registry.RecvEntityInfoEffect | pyimc/actors/base.py:478-487 | EntityInfo adds its label to the resolved node's entities and changes nothing else. |
| Registry.Stamp | pyimc/actors/base.py:296-299 | Sending sets the source to the actor's IMC id, and the timestamp when asked to. Every other field is unchanged. |
| Registry.SendStaticUnboundTwice | pyimc/actors/base.py:301-306 | A message without bindings is itself of type `pyimc.Message`, so the catch-all static destinations receive it twice. |
| Registry.SendStaticBound | pyimc/actors/base.py:301-306 | A bound message goes first to its own type's static destinations, then to the catch-all ones, in order. |
| Registry.SendEffect | pyimc/actors/base.py:308-328 | A failed resolution or a missing `imc+udp` service sends nothing and raises. A successful send delivers the stamped message to the node first, then to the static destinations. |
| Registry.AddStaticTransportKeeps | pyimc/actors/base.py:279-287 | As written, `add_static_transport` never creates a key. It succeeds exactly when every type already has a list; on an empty table it raises KeyError. |
| Registry.AddStaticTransportFixedDelivers | pyimc/actors/base.py:279-287 | The corrected version adds the service to every listed type's destinations and leaves the other types alone. |
| EntityText.SetEntity | pyimc/actors/base.py:485 | Setting an entity adds its label. A new label is appended in insertion order. |
| EntityText.ParsePair | pyimc/node.py:54 | A `k=v` pair parses exactly when it has one `=` and an integer after it. Otherwise it raises ValueError. |
| EntityText.Collect | pyimc/node.py:54 | Parsing the entity list raises ValueError exactly when some pair is malformed. |
| EntityText.ParseEmptyList | pyimc/node.py:54 | An empty entity list is a ValueError, because `''` does not unpack into `k, v`. |
| EntityText.FormatPairParses | pyimc/actors/dynamic.py:50 | A formatted `label=id` pair parses back to the same pair. |
| EntityText.CollectFormatted | pyimc/node.py:54 | Parsing formatted pairs with distinct labels rebuilds them in order. |
| EntityText.SortKeepsDistinct | pyimc/actors/dynamic.py:47 | Sorting the entities by id keeps the labels distinct. |
| EntityText.ParseFormatRoundTrip | pyimc/actors/dynamic.py:47-50 | A peer that parses the actor's entity report gets back the actor's entities sorted by id, which is a permutation of them. |
| Dispatch.RunEach | pyimc/actors/base.py:203-207 | Every handler is called once, in order. The steps that raised are exactly the handlers that raise, with their exception passed on to `on_exception`. |
| Dispatch.RunEachInvokesAll | pyimc/actors/base.py:203-207 | One handler raising does not stop the others: all of them are invoked. |
| Dispatch.PostMessageReaches | pyimc/actors/base.py:190-221 | A bound message reaches its own type's handlers and then the catch-all handlers. A message without bindings warns and reaches only the catch-all handlers. A non-message reaches none. Only invoked handlers raise. |
| Dispatch.AppendAllGet | pyimc/actors/base.py:377-381 | Subscribing a method to a list of types appends it once per occurrence of each type. |
| Dispatch.AddDecoratorsGet | pyimc/actors/base.py:372-381 | The decorators of a method contribute its subscriptions in decorator order. |
| Dispatch.AddMethodsGet | pyimc/actors/base.py:370-381 | At setup each type's handler list is the methods subscribed to it, in member order. |
| Dispatch.IndexOf | pyimc/actors/base.py:386 | `list.index` returns the first position of the element. |
| Dispatch.SortHandlersOrder | pyimc/actors/base.py:384-386 | Sorting a handler list fails with ValueError exactly when some handler's owner is not in the class hierarchy. Otherwise the result is a permutation, ordered from base class to subclass and stable among handlers of the same class. |
| Dispatch.SortAll | pyimc/actors/base.py:385-386 | Sorting every handler list keeps the message types and their order. |
| Dispatch.SortAllGet | pyimc/actors/base.py:385-386 | Each sorted list is the sort of the collected list. |
| Dispatch.SetupHandlers | pyimc/actors/base.py:362-386 | After setup, each type's handlers are its subscribers, base classes first and in stable order. |
| Decorators.ApplyAllOrder | pyimc/decorators.py:32-37 | Decorators are appended to the function's list in application order. The signature is untouched. |
| Decorators.NewSubscribe | pyimc/decorators.py:71-80 | `Subscribe(*types)` keeps the types in order. A non-IMC argument is a TypeError, and no argument leaves `subs` unset. |
| Decorators.SubscribeCallEffect | pyimc/decorators.py:82-101 | Decorating asserts at least one parameter besides `self` and at most one required one, and passes once both hold and a type was subscribed. The first parameter, when unannotated, is annotated with the last subscribed type; other annotations are kept. |
| Decorators.PeriodicSleep | pyimc/decorators.py:61 | The sleep is never negative and at most one period. It is zero exactly when the period has already elapsed; otherwise it ends one period after the last start. |
| Decorators.PeriodicRun | pyimc/decorators.py:53-61 | The first call happens at the start time, and there is at most one call per cycle. Each wake-up may come late by the cycle's lateness. |
| Decorators.PeriodicStopsOnException | pyimc/decorators.py:58-61 | The loop ends only when the body raises, and with that exception. |
| Decorators.PeriodicGap | pyimc/decorators.py:58-61 | Successive starts are one period apart, or one body duration apart when the body overran, plus however late the loop woke. |
| Decorators.PeriodicDrift | pyimc/decorators.py:58-61 | When each call fits in the period, the k-th start is k periods after the first plus the lateness of the first k wake-ups: lateness is never made up. |
| Decorators.PeriodicNoDrift | pyimc/decorators.py:58-61 | When each call fits in the period and the loop is never late, the k-th start is exactly k periods after the first. |
| Decorators.PeriodicTask | pyimc/decorators.py:39-63 | A function with a required parameter besides `self` is refused with AssertionError before it ever runs. Otherwise it runs on the periodic schedule from the start time. |
| Decorators.RunOnceTask | pyimc/decorators.py:123-145 | The function runs exactly once, after the delay (none when it is negative) and the loop's lateness. It fails with AssertionError exactly when there is a required parameter besides `self`. |
| LegacyUdp.RunUntil | pyimc/udp.py:58-61 | Handlers run in order until one raises, and that exception ends the loop. |
| LegacyUdp.DatagramSkipsWildcards | pyimc/udp.py:56-63 | When the message's type has no subscribers, the KeyError also skips the catch-all handlers. The same holds when its class does not derive directly from `pyimc.Message`. |
| LegacyUdp.DatagramMatchesPostWhenQuiet | pyimc/udp.py:53-72 | When no handler raises and the type is subscribed, the old receive path invokes the same handlers as `post_message`. |
| LegacyUdp.DatagramStopsAtException | pyimc/udp.py:57-63 | A handler's exception stops the remaining handlers. Only a KeyError is swallowed. |
| LegacyActor.Init | pyimc/actor.py:17-32 | A new actor announces address 0x3334 under `ccu-pyimc-` plus the lower-cased host name. Its entities are `Daemon=0`, and it knows no nodes and sends no heartbeats. |
| LegacyActor.ResolveKnown | pyimc/actor.py:53-55 | A stored node resolves to itself through the `(src, sys_name)` of its announce. |
| LegacyActor.SendEffect | pyimc/actor.py:62-77 | A send raises what resolution raises, or KeyError without an `imc+udp` service. Otherwise the message, with the actor's source and the current time, goes to the node's first `imc+udp` service. |
| LegacyActor.Warn | pyimc/actor.py:94-96 | A new key warns once exactly when a known key shares its address or name, and the warning lists those keys. |
| LegacyActor.AddNewEffect | pyimc/actor.py:92-104 | A new node is stored under its key and nothing else changes. Since it has no entities yet, an EntityList query is sent to it, and a missing `imc+udp` service makes that a KeyError. |
| LegacyActor.RecvAnnounceSelf | pyimc/actor.py:83-86 | The actor's own announce, with the same address and name, changes nothing. |
| LegacyActor.UpdatedAnnounced | pyimc/actor.py:91 | A node updated by an announce is keyed by that announce's source and name. |
| LegacyActor.StoreNode | pyimc/actor.py:99 | Storing a node keeps the map well formed and changes only that key. |
| LegacyActor.QueryIfEmptyEffect | pyimc/actor.py:101-104 | A node without entities is sent one EntityList query, from the actor, to its first `imc+udp` service. A node with entities is sent nothing. |
| LegacyActor.RecvAnnounceKnown | pyimc/actor.py:88-91 | A known key's node gets the new announce and its services, and only that key changes. An unparseable service list raises; a node that has entities triggers no query. |
| LegacyActor.RecvAnnounceNew | pyimc/actor.py:92-104 | A new key first warns about collisions, then stores the node and queries its entities. An unparseable service list raises ValueError and leaves the map alone. |
| LegacyActor.NewNodeFacts | pyimc/node.py:26-34 | `IMCNode(msg)` holds the announce, its parsed services, no entities and no heartbeat. |
| LegacyActor.RecvEntityListReport | pyimc/actor.py:106-111 | A REPORT from a uniquely resolved source replaces that node's entities, and a malformed list raises ValueError. An unresolved source changes nothing. |
| LegacyActor.ReplyEffect | pyimc/actor.py:113-121 | The reply goes to the requester's first `imc+udp` service. Without one, the KeyError is swallowed and nothing is sent. |
| LegacyActor.RecvEntityListQuery | pyimc/actor.py:112-121 | A QUERY is answered with the actor's entities. The requester, parsing the reply, gets them sorted by id. |
| LegacyActor.ReportParses | pyimc/actor.py:114-117 | The formatted report parses back into the entities sorted by id. |
| LegacyActor.RecvHeartbeatEffect | pyimc/actor.py:124-127 | A heartbeat stores its timestamp on the uniquely resolved node. An unknown source raises KeyError, and several matches raise AmbiguousKeyError. |
| LegacyActor.Multicast | pyimc/actor.py:141-144 | The announce goes to the multicast group on each of the five announce ports, in order. |
| LegacyActor.SendAnnounceEffect | pyimc/actor.py:129-146 | Without a bound IMC port nothing happens. Otherwise the service list is generated once, from the interfaces, and the timestamped announce goes to the five ports. |
| LegacyActor.Attempts | pyimc/actor.py:154-157 | One send attempt per heartbeat target, in order. |
| LegacyActor.QuietIds | pyimc/actor.py:155-157 | For an address, name, node or message target, the heartbeat attempt either delivers to the node's first `imc+udp` service or raises only a KeyError. |
| LegacyActor.HeartbeatStopsAtAmbiguity | pyimc/actor.py:158-159 | As written, an ambiguous target ends the heartbeat loop with AttributeError, because AmbiguousKeyError has no `msg`, and later targets get nothing. The corrected loop goes on past it. |
| LegacyActor.HeartbeatAmbiguousName | pyimc/actor.py:153-161 | Two nodes announcing the same name make the heartbeat task raise as written, but not when corrected. |
| LegacyActor.HeartbeatFixedDelivers | pyimc/actor.py:153-161 | The corrected loop delivers every heartbeat that resolves and skips unknown targets. |
| LegacyActor.NodesWhereKeys | pyimc/actor.py:170-175 | The silent nodes collected are keyed by their own announces, in map order. |
| LegacyActor.RemoveNodesDrops | pyimc/actor.py:177-182 | Deleting the collected nodes by their announce keys removes exactly those keys, without error. |
| LegacyActor.PruneRemovesSilent | pyimc/actor.py:163-182 | Pruning removes exactly the nodes with neither a float heartbeat nor an announce timestamp within 60 seconds. |
| Dynamic.Init | pyimc/actors/dynamic.py:18-34 | A new dynamic actor announces its IMC id from entity 1, under `ccu-pyimc-` plus the lower-cased host name. Its entities are `Daemon=0` and `Service Announcer=1`; it has no services, heartbeat targets or nodes. |
| Dynamic.InitEntitiesReadable | pyimc/actors/dynamic.py:31 | The initial entities have distinct labels that contain neither `=` nor `;`, so their report can be parsed back. |
| Dynamic.ReportMsg | pyimc/actors/dynamic.py:48-51 | The reply is a REPORT with the formatted list, stamped with the actor's id and the current time. |
| Dynamic.ReplyEffect | pyimc/actors/dynamic.py:51-53 | The reply goes to the node's first `imc+udp` service and then to the static destinations. A missing service's KeyError is swallowed. |
| Dynamic.ReplyEntityListEffect | pyimc/actors/dynamic.py:36-53 | Only a QUERY from a uniquely resolved source is answered, with the entities formatted in id order. Nothing else sends anything or raises. |
| Dynamic.ReplyReadBack | pyimc/actors/dynamic.py:47-51 | The requester, parsing the reply, gets the actor's entities sorted by id. |
| Dynamic.QueryEntityList | pyimc/actors/dynamic.py:55-64 | As written, the query task always raises AttributeError, because the actor has no `nodes` attribute. |
| Dynamic.QueryEntityListNeverSends | pyimc/actors/dynamic.py:60-64 | Even when a node lacks entities and could be reached, the periodic task as written sends nothing. The corrected one sends that node a query. |
| Dynamic.Unlisted | pyimc/actors/dynamic.py:60-61 | The nodes selected are exactly the known nodes without entities. |
| Dynamic.Queries | pyimc/actors/dynamic.py:60-64 | One query attempt per selected node, in order. |
| Dynamic.ChainAllOk | pyimc/actors/dynamic.py:60-64 | When no send raises, every datagram is delivered. |
| Dynamic.ChainStops | pyimc/actors/dynamic.py:60-64 | The first send that raises ends the periodic task with its exception, after the earlier deliveries. |
| Dynamic.QueryToEffect | pyimc/actors/dynamic.py:62-64 | A query to a node without `imc+udp` is a KeyError. Otherwise it goes, stamped by the actor, to the first such service and then to the static destinations. |
| Dynamic.QueriesDeliver | pyimc/actors/dynamic.py:60-64 | The periodic task succeeds exactly when every selected node has an `imc+udp` service, and then each node receives one query. |
| Dynamic.QueryEntityListFixedDelivers | pyimc/actors/dynamic.py:55-64 | The corrected task, reading the actor's node map, queries every node without entities. |
| Dynamic.SendAnnounceEffect | pyimc/actors/dynamic.py:66-86 | Without a bound port nothing happens. Otherwise the services are rebuilt from the external interfaces, or from all of them when there are none. The timestamped announce goes to the five ports. |
| Dynamic.OwnAnnounceIgnored | pyimc/actors/base.py:426-430 | The actor's own announce, coming back, changes nothing and warns nothing. |
| Dynamic.AnnounceUnderstood | pyimc/actors/dynamic.py:72-84 | A peer receiving the announce keys it by the actor's id and name, and reads one `imc+udp` service per interface address with the actor's port. |
| Dynamic.HeartbeatAttempts | pyimc/actors/dynamic.py:94-97 | One heartbeat attempt per target, in order. |
| Dynamic.SkipKeyErrorsDelivers | pyimc/actors/dynamic.py:94-101 | When every failure is a KeyError, the failures are logged or skipped and every other heartbeat is delivered. |
| Dynamic.HeartbeatToEffect | pyimc/actors/dynamic.py:95-97 | A heartbeat attempt fails only with a KeyError. It succeeds exactly when the target resolves to a node with `imc+udp`, and then goes there first. |
| Dynamic.SendHeartbeatDelivers | pyimc/actors/dynamic.py:88-101 | The heartbeat task never raises. It sends to exactly the targets that resolve to a node with an `imc+udp` service. |
| Lsf.U16At | pyimc/lsf.py:9-20 | A little-endian 16-bit field reads as a value in 0..65535. |
| Lsf.U16Bytes | pyimc/lsf.py:9-20 | Writing a 16-bit value gives two bytes that read back as the value. |
| Lsf.EncodeHeader | pyimc/lsf.py:9-20 | A packed header is 20 bytes. |
| Lsf.DecodeHeader | pyimc/lsf.py:9-20 | Every 20-byte buffer decodes to fields that fit their C types. |
| Lsf.EncodeHeaderLayout | pyimc/lsf.py:9-20 | With `_pack_ = 1` the fields sit at offsets 0, 2, 4, 6, 14, 16, 17 and 19, little-endian. |
| Lsf.DecodeEncodeHeader | pyimc/lsf.py:9-20 | Decoding an encoded header gives back the header. |
| Lsf.EncodeDecodeHeader | pyimc/lsf.py:9-20 | Encoding a decoded buffer gives back the bytes. |
| Lsf.RecordLength | pyimc/lsf.py:59-61 | A record spans at least the header and at most the rest of the file. |
| Lsf.Walk | pyimc/lsf.py:46-62 | Each message read comes with the offset it started at. |
| Lsf.SizeField | pyimc/lsf.py:53-59 | The `size` of the header read into the buffer is the 16-bit field at offset 4. |
| Lsf.WalkStartsInside | pyimc/lsf.py:51-52 | The first record starts where reading began, and every record starts inside the file. |
| Lsf.WalkStartsStep | pyimc/lsf.py:52-61 | Each record starts right after the previous one: header, `size` bytes of payload and the footer. |
| Lsf.WalkFails | pyimc/lsf.py:53-55 | Reading fails, with RuntimeError, exactly when a tail shorter than a header is left. |
| Lsf.Leftover | pyimc/lsf.py:51-55 | What is left after the last whole header is shorter than a header. |
| Lsf.Frame | pyimc/lsf.py:59 | A record is the header, the payload and the footer, in that order. |
| Lsf.WalkOneFrame | pyimc/lsf.py:51-62 | A well-framed record at the front is parsed and reading continues right after it. |
| Lsf.WalkFrames | pyimc/lsf.py:46-62 | A file made of well-framed records reads without error, yielding one parsed message per record, in order and at their offsets. |
| Lsf.FrameIsFrame | pyimc/lsf.py:59-61 | A record whose header announces its payload's length is framed by that length. |
| Lsf.ReadLog | pyimc/lsf.py:46-62 | Reading a log of well-formed records yields the parse of each record, in order, with no error. |
| Playback.MsgTypes | pyimc/actors/playback.py:45-46 | The type filter is absent when some subscribed type is not a direct message class, such as `pyimc.Message` itself. Otherwise it is the subscribed types followed by LoggingControl. |
| Playback.Retimed | pyimc/actors/playback.py:55-58 | With time offsetting, a message keeps its distance from its source's first message, now measured from the playback start. Without it the message is unchanged. |
| Playback.SleepFor | pyimc/actors/playback.py:73-74 | The sleep is never negative. It is zero when the speed is not positive or the time has passed; otherwise it is the remaining time divided by the speed. |
| Playback.Handle | pyimc/actors/playback.py:60-77 | A message before the start time goes only to the registry, and only if it is an Announce, EntityList or EntityInfo. Any other message sleeps, then is posted. |
| Playback.PlayFrom | pyimc/actors/playback.py:48-77 | No sleep is negative. |
| Playback.FirstSeenStep | pyimc/actors/playback.py:49-52 | The per-source table always holds the timestamp of each source's first message so far. |
| Playback.PlayFromPlanned | pyimc/actors/playback.py:48-77 | The replay equals the plan computed from each source's first message in the log. |
| Playback.PlayIsPlanned | pyimc/actors/playback.py:40-77 | Playback from the start follows that plan. |
| Playback.PlannedPosts | pyimc/actors/playback.py:60-77 | The posted messages are the retimed messages that are not skipped, in log order. |
| Playback.PlayPosts | pyimc/actors/playback.py:40-77 | Playback posts exactly the retimed messages at or after the start time, in log order. |
| Playback.PlayPostsAll | pyimc/actors/playback.py:40-77 | Without offsetting and without a start time, every logged message is posted unchanged, in order. |
| Playback.FirstAtStart | pyimc/actors/playback.py:50-58 | With offsetting, each source's first message is replayed at the playback start time. |
| Playback.OriginStable | pyimc/actors/playback.py:49-52 | A source's first timestamp never changes once seen. |
| Playback.OriginSeen | pyimc/actors/playback.py:49-52 | Every message's source has a first timestamp. |
| Playback.SameSourceSpacing | pyimc/actors/playback.py:55-58 | With offsetting, messages from one source keep their spacing in time. |
| Schema.Validate | utils/imc_schema.py:56-68 | Validation passes exactly when the ids and the abbreviations are all distinct. Otherwise it reports the first message, in order, whose id or abbreviation was already seen, checking the id first. |
| Schema.LastListing | utils/imc_schema.py:110-113 | The last message group that lists the abbreviation, or none when no group lists it. |
| Schema.ParentIsLastListing | utils/imc_schema.py:110-113 | Assigning the parent group by group leaves the last listing group's supertype, or the default when no group lists the message. |
| Schema.AssignParents | utils/imc_schema.py:110-113 | Parent assignment changes nothing but the parents, and keeps the messages and their order. |
| Schema.ParsedParent | utils/imc_schema.py:109-113 | A message's parent after parsing is the supertype of the last group that lists it, or `Message` if none does. |
| Schema.GetSize | utils/imc_schema.py:9-26 | A field's minimum size is 1, 2, 4 or 8 bytes. Every variable type takes 2, and an unknown type is a KeyError. |
| Schema.AnyVariable | utils/imc_schema.py:178-179 | A message is variable-sized exactly when one of its fields is. |
| Schema.GetInlineEnum | utils/imc_schema.py:259-271 | A field has an inline enumeration exactly when it has values. The enumeration carries the field's name, abbreviation, prefix, unit, type and values, and is marked inline. |
| Schema.EnumIsBitfield | utils/imc_schema.py:289-291 | `is_bitfield` is `None` without a unit, true for `Bitfield` in any case, and false for `Enumerated`. |
| Schema.InlineEnumKind | utils/imc_schema.py:250-271 | An inline enumeration of a Bitfield field is a bitfield, and one of an Enumerated field is not. |
| Schema.MarkBitfields | utils/imc_schema.py:88-91 | Every global bitfield definition gets the unit `Bitfield` and is a bitfield, with nothing else changed. |
| Schema.DepsOf | utils/imc_schema.py:124 | A message's dependencies are exactly the non-empty message types of its fields. |
| Schema.Dependents | utils/imc_schema.py:123-130 | The messages are split, in order, into those with dependencies and those without. |
| Schema.DependentsSplit | utils/imc_schema.py:123-130 | Together the two parts hold exactly the messages. |
| Schema.FirstReady | utils/imc_schema.py:139-144 | The first pending message, in insertion order, none of whose dependencies is still pending; none when every message waits. |
| Schema.RoundsNeverFail | utils/imc_schema.py:131-137 | As written the loop never raises: `last_size` stays -1 and never equals the number of keys. |
| Schema.RoundsSorted | utils/imc_schema.py:132-144 | When the loop ends, the pending messages are appended as a permutation, each after every pending message it depends on. |
| Schema.RoundsSpin | utils/imc_schema.py:132-144 | When the loop cannot make progress, the messages it is stuck on all wait on each other. |
| Schema.CircularBlocks | utils/imc_schema.py:132-144 | Messages that all depend on each other can never be sorted. |
| Schema.SortByDepsResult | utils/imc_schema.py:115-144 | The sort never raises. When it ends, the output is a permutation: the messages without dependencies in their order, then each dependent message after what it needs. When it does not end, it is stuck on a circular set. |
| Schema.SortByDepsSpins | utils/imc_schema.py:132-144 | A circular set of messages makes the sort spin forever. |
| Schema.RoundsFixed | utils/imc_schema.py:131-137 | With `last_size` updated each round, the loop gives the same result whenever the original ends, and raises where it would spin. |
| Schema.SortByDepsFixedResult | utils/imc_schema.py:131-137 | The corrected sort always ends. It agrees with the original whenever that one ends, and raises exactly where it would spin. |
| Schema.SelfReferenceSpins | utils/imc_schema.py:131-137 | A message that refers to itself makes the original sort spin, while the corrected sort raises RuntimeError. |
| Pybind.Selected | utils/generate_bindings.py:119-121 | The messages written are exactly those whose lower-cased abbreviation is in the whitelist, or all of them when the whitelist is empty. Order is kept. |
| Pybind.SelectedAll | utils/generate_bindings.py:120 | An empty whitelist keeps every message. |
| Pybind.SelectedCount | utils/generate_bindings.py:119-121 | The filter keeps each listed message as often as it occurs and drops the others. |
| Pybind.StubsMatchBindings | utils/generate_bindings.py:229-233 | The stub generator sorts the messages by dependency, yet it writes the same messages as the binding generator for any whitelist. It is stated for the corrected sort, which agrees with the one as written whenever that ends. |
| Pybind.SelectedPermutes | utils/generate_bindings.py:279-281 | Filtering commutes with reordering: permuted inputs give permuted outputs. |
| Pybind.SelectedDistinct | utils/generate_bindings.py:119-121 | Filtering keeps the abbreviations distinct. |
| Pybind.EntryPoints | utils/generate_bindings.py:185-186 | The generated header declares one entry point for each written message, plus the three fixed ones. |
| Pybind.EntryPointsDistinct | utils/generate_bindings.py:185-187 | With distinct abbreviations that avoid the three fixed names, no entry point is declared twice. |
| Pybind.MessageListTypes | utils/generate_bindings.py:193-196 | `MessageList` is instantiated exactly for `Message` and for every type some field of any message names, whitelisted or not. |
| Pybind.EmittedEnums | utils/generate_bindings.py:83-85 | Every global enumeration except `Boolean` is emitted. |
| Pybind.InlineEnumFields | utils/generate_bindings.py:149 | Inline enumerations are written for exactly the fields with values whose unit is Enumerated or Bitfield. |
| Pybind.StubName | utils/generate_bindings.py:304-309 | The stub's class name has no spaces and ends in `Bits` or `Enum`, by kind. |
| Pybind.BindingName | utils/generate_bindings.py:154-158 | The Python name in the bindings is the stub's name, prefixed with `_` exactly when that starts with a digit. |
| Pybind.CppName | utils/generate_bindings.py:159 | The C++ name has no spaces and ends in `Bits` or `Enum`, by kind. |
| Pybind.InlineEnumNames | utils/generate_bindings.py:149-159 | All three names of an inline enumeration end in `Bits` exactly when its field is a Bitfield. |
| Pybind.ValueName | utils/generate_bindings.py:163 | A value's Python name is its abbreviation, prefixed with `_` exactly when that starts with a digit. An empty abbreviation is an IndexError. |
| Pybind.FieldBinding | utils/generate_bindings.py:135-146 | `rawdata` fields become bytes properties and `message` fields properties of their inline type: the message type, or `Message` when it is missing or empty. Everything else is read-write. |
| Pybind.PyiType | utils/generate_bindings.py:212-227 | The stub type of a field fails with KeyError exactly for types outside the table, which includes `vector`. A message-list is `MessageList[T]`, and an inline message has the type the bindings give it. |
| Pybind.ParseWhitelist | utils/generate_bindings.py:328-332 | The whitelist is the stripped, lower-cased lines that are not blank and do not start with `#`. |
| Pybind.EntryShape | utils/generate_bindings.py:332 | Each kept entry is non-empty, without surrounding space and without upper-case letters. |
| Pybind.WhitelistEntries | utils/generate_bindings.py:332 | Every whitelist entry has that shape. |
| Pybind.IndentedHashKept | utils/generate_bindings.py:332 | Only a `#` in the first column makes a comment. An indented `#Ab` is kept, as `#ab`. |
| DuneGen.CxxScalarMatchesPybind | generate_bindings.py:32-44 | Outside inline messages DUNE's C++ type and the stub type agree: `std::string` and `str`, `std::vector<char>` and bytes, and each fixed-size number type keeps its IMC name in C++ and is an `int` or a `float` in the stubs. |
| DuneGen.CxxTypeMatchesPybind | generate_bindings.py:39-42 | For a field with a non-empty message type, both generators agree on the inline type of messages and message lists. |
| DuneGen.EmptyMessageTypeDiffers | generate_bindings.py:34 | An explicitly empty `message-type` is kept by this generator, giving `InlineMessage<>`. The other generator falls back to `Message`. |
| DuneGen.FirstListing | generate_bindings.py:156-158 | The first message group that lists the message, or none when no group does. |
| DuneGen.BaseClass | generate_bindings.py:155-161 | A class derives from the first group that lists it, or from `Message` when none does. |
| DuneGen.BaseMatchesParser | generate_bindings.py:155-161 | When at most one group lists a message, its base class is the parent the schema parser assigns. |
| DuneGen.BaseDiffersFromParser | generate_bindings.py:179 | When two groups list a message, this generator uses the first group and the schema parser the last. |
| DuneGen.ValueNames | generate_bindings.py:109-110 | Each value is named by the definition's prefix, `_` and its abbreviation. A definition with values but no prefix is a TypeError. |
| DuneGen.ValueNameSuffix | generate_bindings.py:110 | The prefix and the abbreviation can be read back from a value name. |
| DuneGen.ValueNamesDistinct | generate_bindings.py:109-112 | Distinct abbreviations under one prefix give distinct value names. |
| DuneGen.GlobalEnums | generate_bindings.py:101-117 | Writing the global enumerations fails, with TypeError, exactly when some definition other than `Boolean` cannot name its values. |
| DuneGen.GlobalEnumsDeclared | generate_bindings.py:101-145 | Each declared enumeration corresponds, in order, to one the other generator emits, and carries that definition's value names. |
| DuneGen.InlineFields | generate_bindings.py:194-198 | The inline enumerations of a class are exactly its Enumerated fields without `enum-def`. The inline bitfields are its Bitfield fields without `bitfield-def`. |
| DuneGen.InlineFieldsMatchPybind | generate_bindings.py:194-216 | When a field has values exactly when it has no global definition, both generators write the same inline enumerations and bitfields. |
| DuneGen.InlineValues | generate_bindings.py:203-204 | The value names of all inline definitions, failing with TypeError exactly when one cannot be named. |
| DuneGen.Lookup | generate_bindings.py:152 | The message with the given abbreviation, or none when no message has it. |
| DuneGen.ClassOf | generate_bindings.py:163-227 | A class is named after its message and derives from its base. It has one member per field, of that field's C++ type, and one inline declaration per inline field. Naming an inline value can fail. |
| DuneGen.Resolve | generate_bindings.py:149-152 | Each abbreviation in the dependency order resolves to its message, unless one is missing. |
| DuneGen.Classes | generate_bindings.py:151-230 | The class loop fails only with AttributeError or TypeError and writes at most one class per abbreviation. |
| DuneGen.ClassesMissing | generate_bindings.py:152-157 | An abbreviation with no message fails the loop. |
| DuneGen.ClassesFail | generate_bindings.py:163-227 | When every abbreviation resolves, the loop fails with TypeError exactly when some whitelisted message cannot be written. |
| DuneGen.Bound | generate_bindings.py:165 | Only whitelisted messages get classes. |
| DuneGen.BoundIsSelected | generate_bindings.py:165 | The messages bound are those the other generator selects from the same order. |
| DuneGen.BoundContains | generate_bindings.py:165 | Every whitelisted message in the order is bound. |
| DuneGen.ClassesAreBound | generate_bindings.py:163-179 | A successful loop writes one class per bound message, in order, named after it and deriving from its base. |
| DuneGen.TableKeys | generate_bindings.py:150 | The keys of the message-list table, in insertion order. |
| DuneGen.Find | generate_bindings.py:150 | A lookup in the message-list table misses exactly for absent keys. |
| DuneGen.Put | generate_bindings.py:191 | Assigning to a key adds an entry exactly when the key is new. |
| DuneGen.PutFind | generate_bindings.py:191 | After an assignment the key gives the new value and every other key is unchanged. |
| DuneGen.PutKeys | generate_bindings.py:191 | A reassigned key keeps its place, and a new key is appended. |
| DuneGen.PutDistinct | generate_bindings.py:191 | Assignment keeps the keys distinct. |
| DuneGen.AllFields | generate_bindings.py:183 | The fields of all the messages, every one of them. |
| DuneGen.LastNaming | generate_bindings.py:189-191 | The last field naming a given message type, or none. |
| DuneGen.FieldDepsAppend | generate_bindings.py:183-191 | A message type is named by two field lists together exactly when one of them names it. |
| DuneGen.MessageListsDistinct | generate_bindings.py:249 | Every instantiated type is instantiated once. |
| DuneGen.MessageListsKeys | generate_bindings.py:189-191 | A type is instantiated exactly when some field names it. |
| DuneGen.MessageListsLast | generate_bindings.py:189-191 | The table keeps, for each type, the last field that names it. |
| DuneGen.AllFieldsDeps | generate_bindings.py:183-191 | A type is named by the fields of the messages exactly when one message depends on it. |
| DuneGen.InstantiationsMatchPybind | generate_bindings.py:249 | Without a whitelist, this generator instantiates `MessageList` for exactly the types the other generator does. The exception is `Message`, which is instantiated here only when a field names it. |
| DuneGen.Generate | generate_bindings.py:70-256 | A run fails exactly when an enumeration, bitfield or class cannot be written. Otherwise it registers one super type per group, the three fixed entry points, and then `pb` plus each class's name, in order. |
| DuneGen.PrefixedDistinct | generate_bindings.py:166 | Distinct class names give distinct entry points. |
| DuneGen.ClassNamesInOrder | generate_bindings.py:151-166 | Every class comes from the dependency order. |
| DuneGen.ClassNamesDistinct | generate_bindings.py:151-166 | A dependency order without repeats gives classes with distinct names. |
| DuneGen.EntryPointsDistinct | generate_bindings.py:74-166 | The fixed entry points and those of distinctly named classes are all distinct. |
| DuneGen.FunctionsDistinct | generate_bindings.py:242 | A successful run declares no function twice. |
| DuneGen.InstantiatedFromBound | generate_bindings.py:183-191 | Every message type a bound message's field names is instantiated. |
| DuneGen.MessageListFieldInstantiated | generate_bindings.py:186-191 | A message-list field of a bound message has C++ type `MessageList<T>`, and `T` is instantiated. |

## Left out

- The revision of `IMCNode` that `pyimc/actors/base.py` uses (with `src`, `sys_name`, `t_last_*`, `is_fixed`, `from_announce`) is not part of this model. The `Registry` module rebuilds the fields it needs, and every time it records is the receipt time passed in as `now`.
- Sockets, asyncio tasks and event loops, `logging`, `log_fh` and the message codec (serialisation of IMC messages) are left out. Datagrams are values, send outcomes are parameters, and log calls are dropped.
- Clocks are parameters: a handler reads the time once. A periodic or run-once task is given each body's duration and how late the event loop resumes it after each sleep; the loop never resumes early.
- `pyimc/network_utils.py` (`get_interfaces`) reads the host's interfaces. The resulting address list is an input.
- The C++ sources under `src/`, the XML parsing, file and directory creation, and the generated C++ and `.pyi` text are left out. The generators are modelled by what they declare: classes, bases, members, enumeration values, entry points and instantiations.
- `imcutils.get_name`, `get_enum_name`, `get_bfield_name` and `imcdeps.Dependencies.get_list` come from DUNE, which is not part of this model. The dependency order is an input of `DuneGen.Generate`, and inline declarations are counted, not named.
- The whitelist parse at `generate_bindings.py:267-271` is the same comprehension as `utils/generate_bindings.py:328-332`, and `Pybind.ParseWhitelist` models both.
- URL parsing keeps only what `IMCService` reads from `urlparse`: scheme, host, port and path. User information up to the last `@` is dropped, as urllib drops it. Query strings and IPv6 brackets are not modelled.
- `urlsplit` first strips leading control characters and spaces and deletes tab, carriage return and line feed anywhere in the URL. The model does not, so a URL with a leading space gets no scheme here.
- `hostname` lower-cases the host but keeps the case of a `%zone` suffix. The model lower-cases all of it.
- `str.isdigit`, `str.lower`, `str.isspace` and `string.capwords` are modelled on ASCII. Whitespace is Python's ASCII set: tab through carriage return, the separators 0x1C to 0x1F, and space. `int()` accepts optional surrounding whitespace, an optional sign and decimal digits. Underscores and non-ASCII digits are not modelled.
- `IMCService` compares the path with `is not '/'`. This is modelled as string inequality, which is how CPython behaves for the interned one-character string.
- LegacyActor: `pyimc/actor.py:13` subclasses `IMCBase`, which neither its imports nor `pyimc/decorators.py` define, so that module as written fails at import with NameError. The model treats it as the working actor its body describes, with the bookkeeping of its own methods.
- Playback: `pyimc/actors/playback.py` imports an `ActorBase` from `base.py`, which that file does not define. It also calls `LSFReader.read(path, types=...)`, a signature `pyimc/lsf.py` does not offer. The model takes the log's messages as input and the registry updates as effects.
- `LSFReader.read` never checks a header's sync word, and neither does the model. Its `msg_types` argument is never used and is not modelled.
- A record's payload is opaque bytes handed to the codec's parser, which is a parameter. The header's timestamp, a C double, is kept as its eight bytes.
- `IMCGroup` and its range test (`utils/imc_schema.py:147-160`) are used by neither generator and are left out.
- Schema.SortByDeps requires distinct abbreviations, as `validate` establishes before any sort.
- Floating-point time is modelled as `real`. Rounding of `time.time()` arithmetic is not modelled.

## Findings

| source | as written | input that shows it | evidently intended | confidence | as-written member | corrected member |
|---|---|---|---|---|---|---|
| pyimc/actors/base.py:286-287 | `add_static_transport` appends to `self._static_transports[msg_type]` on a plain dict, raising KeyError for a type with no transport yet | an empty transport table and one message type | create the list for a new type and append the service | not executed | Registry.AddStaticTransportKeeps | Registry.AddStaticTransportFixedDelivers |
| pyimc/actors/dynamic.py:60 | `query_entity_list` iterates `self.nodes`, an attribute `IMCBase` does not have (it has `_nodes`), so the periodic task dies with AttributeError and never queries | a peer with an `imc+udp` service and no entities | iterate `self._nodes` and query each peer without entities | not executed | Dynamic.QueryEntityListNeverSends | Dynamic.QueryEntityListFixedDelivers |
| pyimc/actor.py:158-159 | the AmbiguousKeyError handler reads `e.msg`, which that exception does not have, so the heartbeat loop ends with AttributeError | two peers with the same system name and a heartbeat target given by that name | log the choices and go on to the next target | not executed | LegacyActor.HeartbeatAmbiguousName | LegacyActor.HeartbeatFixedDelivers |
| utils/imc_schema.py:131-137 | `last_size` is never updated, so the circular-dependency guard never fires and a cycle spins forever | one message with a field whose message type is itself | raise RuntimeError when a round pops nothing | not executed | Schema.SelfReferenceSpins | Schema.SortByDepsFixedResult |
