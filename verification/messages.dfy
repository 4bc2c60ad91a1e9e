/** The IMC messages the core reads and writes. The codec that turns them
    into bytes is external; a message here is its header fields plus the
    payload fields the core inspects. */
module Messages {
  import opened Prelude

  /** A message class: its name, and whether its direct base class is
      `pyimc.Message` (false for messages whose base is a message-group
      supertype). */
  datatype MsgClass = MsgClass(name: string, directlyDerived: bool)

  /** A key of the subscription table: one message class, or
      `pyimc.Message` itself, which stands for every message. */
  datatype SubKey = Of(cls: MsgClass) | AnyMessage

  /** `EntityList.OperationEnum` */
  datatype EntityOp = Report | Query | OtherOp(code: int)

  datatype Header = Header(src: int, srcEnt: int, dst: int, dstEnt: int, timestamp: real)

  datatype Body =
    | Announce(sysName: string, services: string)
    | Heartbeat
    | EntityList(op: EntityOp, list: string)
    | EntityInfo(entityLabel: string)
    | LoggingControl
      /** any other message type that has Python bindings */
    | Bound(cls: MsgClass)
      /** a type the codec knows but that has no bindings: it arrives as a
          plain `pyimc.Message` */
    | Unbound(id: int)

  datatype Message = Message(h: Header, body: Body)

  /** An object handed to the dispatcher: an IMC message, or anything else. */
  datatype Posted = Imc(msg: Message) | Foreign

  const AnnounceClass := MsgClass("Announce", true)
  const HeartbeatClass := MsgClass("Heartbeat", true)
  const EntityListClass := MsgClass("EntityList", true)
  const EntityInfoClass := MsgClass("EntityInfo", true)
  const LoggingControlClass := MsgClass("LoggingControl", true)

  /** `type(msg)`: its class, or `None` when it is a plain `pyimc.Message`. */
  function ClassOf(m: Message): Option<MsgClass> {
    match m.body
    case Announce(_, _) => Some(AnnounceClass)
    case Heartbeat => Some(HeartbeatClass)
    case EntityList(_, _) => Some(EntityListClass)
    case EntityInfo(_) => Some(EntityInfoClass)
    case LoggingControl => Some(LoggingControlClass)
    case Bound(c) => Some(c)
    case Unbound(_) => None
  }

  /** The subscription key of a message's own type (`pyimc.Message` for a
      message without bindings). */
  function KeyOf(m: Message): SubKey {
    match ClassOf(m)
    case Some(c) => Of(c)
    case None => AnyMessage
  }

  function WithSrc(m: Message, src: int): Message {
    m.(h := m.h.(src := src))
  }

  function WithDst(m: Message, dst: int): Message {
    m.(h := m.h.(dst := dst))
  }

  function WithTimestamp(m: Message, t: real): Message {
    m.(h := m.h.(timestamp := t))
  }

  /** The header of a freshly constructed message. The codec's defaults
      are not part of this model: these are placeholders, and every send
      overwrites `src` and `timestamp`, the only fields the core reads. */
  const BlankHeader := Header(0xFFFF, 0xFF, 0xFFFF, 0xFF, 0.0)

  /** A new message of the given kind, e.g. `pyimc.Heartbeat()`. */
  function Fresh(body: Body): Message {
    Message(BlankHeader, body)
  }

  /** One datagram handed to the transport: destination host and port and
      the message it carries (serialised by the codec). */
  datatype Datagram = Datagram(host: Option<string>, port: Option<int>, msg: Message)
}
