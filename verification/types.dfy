/**
  Values shared by every part of a node of the peer-to-peer music store:
  socket addresses, names, file instructions and the notification contents
  that nodes exchange.  Sockets, threads and the JSON wire encoding are not
  modelled; a notification is a value of `Content` addressed to a node.
 */
module Types {

  /** A socket address.  Only the port takes part in ordering. */
  datatype Addr = Addr(host: string, port: nat)

  /** A peer name (a key of the membership table). */
  type Name = string

  /** The name of a stored song (a key of the local database). */
  type Key = string

  /** The content of a stored song. */
  type Bytes = seq<bv8>

  /**
    A request id.  The node uses the wall-clock time at which a request is
    opened; here it is any value the caller supplies.
   */
  type RequestId = nat

  /** What the user wants done with a song. */
  datatype FileInstruction = Get | Order | Play | Remove

  datatype Option<T> = None | Some(value: T)
  {
    function GetOr(default: T): T
    {
      match this
      case Some(v) => v
      case None => default
    }
  }

  /** `Result<(), String>`: success, or failure with a message. */
  datatype Outcome = Pass | Fail(error: string)

  /**
    The `from` text carried by a push.  A node writes its own address with
    `to_string`; what arrives either parses back to that address or is text
    that does not parse as a socket address.
   */
  datatype AddrText = Rendered(addr: Addr) | Garbled(text: string)

  /** Parsing the `from` text of a push. */
  function ParseAddr(t: AddrText): Option<Addr>
  {
    match t
    case Rendered(a) => Some(a)
    case Garbled(_) => None
  }

  /**
    The payload of a table message: the bytes of a JSON-encoded membership
    table, or bytes that are not valid UTF-8.
   */
  datatype TablePayload = Utf8Table(entries: map<Name, Addr>) | NotUtf8(raw: Bytes)

  /** `String::from_utf8` followed by `json_string_to_network_table`. */
  function DecodeTable(v: TablePayload): Option<map<Name, Addr>>
  {
    match v
    case Utf8Table(t) => Some(t)
    case NotUtf8(_) => None
  }

  /** The kinds of notification nodes send to each other. */
  datatype Content =
    | PushToDB(key: Key, value: Bytes, from: AddrText)
    | RedundantPushToDB(key: Key, value: Bytes, from: AddrText)
    | ChangePeerName(newName: Name)
    | SendNetworkTable(table: TablePayload)
    | SendNetworkUpdateTable(table: TablePayload)
    | RequestForTable(name: Name)
    | FindFile(instr: FileInstruction, key: Key)
    | ExistFile(key: Key, id: RequestId)
    | ExistFileResponse(key: Key, id: RequestId)
    | GetFile(instr: FileInstruction, key: Key)
    | GetFileResponse(instr: FileInstruction, key: Key, value: Bytes)
    | DeleteFromNetwork(name: Name)
    | DeleteFile(key: Key)
    | OrderSong(key: Key)
    | DroppedPeer(addr: Addr)
    | ExitPeer(addr: Addr)
    | SelfStatusRequest
    | StatusRequest
    | StatusResponse(files: seq<Key>, name: Name)
    | PlayAudioRequest(name: Name)
    | Response(key: Key)

  /** An inbound notification: its content and the sender's address. */
  datatype Notification = Notification(content: Content, from: Addr)

  /** An outbound message: the node connects to `to` and writes `content`. */
  datatype Outbound = Outbound(to: Addr, content: Content)
}
