/**
  `handle_notification` of mod.rs: one inbound notification, one transition
  of the node's state.  Each arm is routed to the handler of request.rs for
  the same content kind.
 */
module Dispatch {
  import opened Types
  import opened PeerState
  import opened Network
  import opened Requests

  /** Everything a node's state holds, as one value. */
  datatype PeerView = PeerView(
    name: Name,
    networkTable: map<Name, Addr>,
    database: map<Key, Bytes>,
    openRequestTable: map<RequestId, FileInstruction>,
    redundancyTable: map<Addr, seq<Key>>)

  ghost function View(p: Peer): PeerView
    reads p
  {
    PeerView(p.name, p.networkTable, p.database, p.openRequestTable, p.redundancyTable)
  }

  /**
    The arms that leave the state alone and whose messages are not modelled:
    acknowledgements, status display, playback and leaving the network.
   */
  predicate Unmodelled(c: Content)
  {
    c.Response? || c.ExitPeer? || c.SelfStatusRequest? || c.StatusRequest? ||
    c.StatusResponse? || c.PlayAudioRequest?
  }

  /**
    The notification can be handled without the target choice running into
    a table with no other address (where the source never returns).
   */
  ghost predicate CanHandle(n: Notification, p: Peer)
    reads p
  {
    match n.content
    case PushToDB(key, _, _) =>
      key !in p.database ==> |p.networkTable| == 1 || HasOtherAddress(p.networkTable, p.ipAddress)
    case OrderSong(key) =>
      key in p.database ==> |p.networkTable| == 1 || HasOtherAddress(p.networkTable, p.ipAddress)
    case DroppedPeer(addr) =>
      var rest := WithoutAddress(p.networkTable, addr);
      NeedsTarget(addr, rest, p.redundancyTable) ==> HasOtherAddress(rest, p.ipAddress)
    case _ => true
  }

  /**
    The transition one notification causes on a node at address `own` whose
    state goes from `s` to `t` while it sends `out`.  `id` is the clock
    reading a FindFile uses as its request id.
   */
  ghost predicate Handled(
    n: Notification, own: Addr, id: RequestId, s: PeerView, t: PeerView, out: seq<Outbound>)
  {
    match n.content
    case PushToDB(key, value, _) =>
      if key in s.database then t == s && out == []
      else
        && t.(redundancyTable := s.redundancyTable) == s.(database := s.database[key := value])
        && if |s.networkTable| == 1 then t.redundancyTable == s.redundancyTable && out == []
           else
             && |out| == 1
             && out[0].content == RedundantPushToDB(key, value, Rendered(own))
             && IsOtherTarget(s.networkTable, own, out[0].to)
             && t.redundancyTable == AppendKey(s.redundancyTable, out[0].to, key)
    case RedundantPushToDB(key, value, from) =>
      && out == []
      && t == s.(database := s.database[key := value],
                 redundancyTable := (match ParseAddr(from)
                   case None => s.redundancyTable
                   case Some(a) => AppendKey(s.redundancyTable, a, key)))
    case ChangePeerName(value) =>
      && t == s.(name := value, networkTable := (s.networkTable - {s.name})[value := own])
      && out == [Outbound(n.from, Content.RequestForTable(value))]
    case SendNetworkTable(value) =>
      (match DecodeTable(value)
       case None => t == s && out == []
       case Some(incoming) =>
         && t == s.(networkTable := Merged(s.networkTable, incoming))
         && exists order :: IsBroadcast(out, order, t.networkTable, t.name,
                                        Content.SendNetworkUpdateTable(Utf8Table(t.networkTable))))
    case SendNetworkUpdateTable(value) =>
      && out == []
      && t == (match DecodeTable(value)
               case None => s
               case Some(incoming) => s.(networkTable := Merged(s.networkTable, incoming)))
    case RequestForTable(value) =>
      && t == s
      && out == [Outbound(n.from, if value in s.networkTable
                                  then Content.ChangePeerName(RenameSuggestion(value))
                                  else Content.SendNetworkTable(Utf8Table(s.networkTable)))]
    case FindFile(instr, key) =>
      if key in s.database && instr == Remove then
        && t == s.(database := s.database - {key}, openRequestTable := s.openRequestTable[id := instr])
        && exists order :: IsBroadcast(out, order, s.networkTable, s.name, DeleteFile(key))
      else if key in s.database then
        t == s && out == []
      else
        && t == s.(openRequestTable := s.openRequestTable[id := instr])
        && exists order :: IsBroadcast(out, order, s.networkTable, s.name, Content.ExistFile(key, id))
    case ExistFile(key, requestId) =>
      && t == s
      && out == if key in s.database then [Outbound(n.from, Content.ExistFileResponse(key, requestId))] else []
    case ExistFileResponse(key, requestId) =>
      if requestId in s.openRequestTable then
        && t == s.(openRequestTable := s.openRequestTable - {requestId})
        && out == [Outbound(n.from, Content.GetFile(s.openRequestTable[requestId], key))]
      else
        t == s && out == []
    case GetFile(instr, key) =>
      && t == s
      && out == if key in s.database then [Outbound(n.from, Content.GetFileResponse(instr, key, s.database[key]))] else []
    case GetFileResponse(instr, key, value) =>
      && out == []
      && t == if instr == Order then s.(database := s.database[key := value]) else s
    case DeleteFromNetwork(name) =>
      t == s.(networkTable := s.networkTable - {name}) && out == []
    case DeleteFile(key) =>
      t == s.(database := s.database - {key}) && out == []
    case OrderSong(key) =>
      && t == s
      && if key !in s.database then out == [Outbound(own, Content.FindFile(Order, key))]
         else if |s.networkTable| == 1 then out == []
         else |out| == 1 && out[0].content == OrderSong(key) && IsOtherTarget(s.networkTable, own, out[0].to)
    case DroppedPeer(addr) =>
      && t.(redundancyTable := s.redundancyTable) == s.(networkTable := WithoutAddress(s.networkTable, addr))
      && Redistributed(addr, t.networkTable, s.database, own, s.redundancyTable, t.redundancyTable, out)
    case _ =>
      Unmodelled(n.content) && t == s && out == []
  }

  /**
    What one notification does to the ledger invariants, from a state where
    both hold.  One redundant copy per song is then kept by every
    notification except a redundant push, which records under its sender
    whatever the ledger already holds.  Every recorded song stays in the
    store except after a REMOVE find or a file deletion, which delete from
    the store and leave the ledger alone.  A user push keeps one copy per
    song only because the second invariant holds: `push_to_db` tests the
    store, not the ledger (see `RemoveThenPushCanBreakSingleCopy`).
   */
  lemma HandledKeepsLedgerInvariants(
    n: Notification, own: Addr, id: RequestId, s: PeerView, t: PeerView, out: seq<Outbound>)
    requires Handled(n, own, id, s, t, out)
    requires SingleCopy(s.redundancyTable) && LedgerWithinStore(s.redundancyTable, s.database)
    ensures !n.content.RedundantPushToDB? ==> SingleCopy(t.redundancyTable)
    ensures !n.content.DeleteFile? && !(n.content.FindFile? && n.content.instr == Remove) ==>
      LedgerWithinStore(t.redundancyTable, t.database)
  {
    match n.content
    case PushToDB(key, value, _) =>
      if key !in s.database && |s.networkTable| != 1 {
        PushKeepsSingleCopy(s.redundancyTable, s.database, out[0].to, key, value);
      }
    case RedundantPushToDB(key, value, from) =>
      if ParseAddr(from).Some? {
        AppendKeepsWithinStore(s.redundancyTable, s.database, ParseAddr(from).value, key, value);
      }
    case DroppedPeer(addr) =>
      RedistributedKeepsLedger(addr, t.networkTable, s.database, own,
                               s.redundancyTable, t.redundancyTable, out);
    case _ =>
  }

  /**
    A user push alone can record a song twice once a REMOVE find has deleted
    a recorded song: the find leaves the ledger alone, and the push, seeing
    the song missing from the store, records it again.  Both ledger
    invariants hold before the find, and one copy per song fails after the
    push.
   */
  lemma RemoveThenPushCanBreakSingleCopy(
    own: Addr, id: RequestId, r: PeerView, s: PeerView, t: PeerView,
    removeOut: seq<Outbound>, pushOut: seq<Outbound>,
    from: Addr, key: Key, value: Bytes, pushFrom: AddrText, holder: Addr)
    requires r.redundancyTable == map[holder := [key]] && key in r.database && |r.networkTable| != 1
    requires Handled(Notification(Content.FindFile(Remove, key), from), own, id, r, s, removeOut)
    requires Handled(Notification(PushToDB(key, value, pushFrom), from), own, id, s, t, pushOut)
    ensures SingleCopy(r.redundancyTable) && LedgerWithinStore(r.redundancyTable, r.database)
    ensures !SingleCopy(t.redundancyTable)
  {
    assert s.redundancyTable == r.redundancyTable && key !in s.database;
    RedundantPushCanBreakSingleCopy(holder, pushOut[0].to, key);
  }

  /** The own name is in the membership table and maps to the own address. */
  ghost predicate OwnEntry(v: PeerView, own: Addr)
  {
    v.name in v.networkTable && v.networkTable[v.name] == own
  }

  /** A decoded incoming table does not map `name` to an address other than `own`. */
  predicate AgreesOnOwnEntry(decoded: Option<map<Name, Addr>>, name: Name, own: Addr)
  {
    decoded.Some? && name in decoded.value ==> decoded.value[name] == own
  }

  /**
    The notifications that leave the own entry in place: all but a deletion
    of the own name, a drop of the own address, and a merged table that
    maps the own name elsewhere.
   */
  predicate KeepsOwnEntry(c: Content, name: Name, own: Addr)
  {
    match c
    case DeleteFromNetwork(x) => x != name
    case DroppedPeer(a) => a != own
    case SendNetworkTable(v) => AgreesOnOwnEntry(DecodeTable(v), name, own)
    case SendNetworkUpdateTable(v) => AgreesOnOwnEntry(DecodeTable(v), name, own)
    case _ => true
  }

  /**
    The own-entry invariant, which a newly created network sets up: a rename
    restores it from any state, and from a state where it holds a
    notification keeps it exactly when `KeepsOwnEntry` says so.  Deleting the
    own name, dropping the own address and merging a table that maps the own
    name to another address each break it.
   */
  lemma HandledOwnEntry(
    n: Notification, own: Addr, id: RequestId, s: PeerView, t: PeerView, out: seq<Outbound>)
    requires Handled(n, own, id, s, t, out)
    requires OwnEntry(s, own) || n.content.ChangePeerName?
    ensures OwnEntry(t, own) <==> KeepsOwnEntry(n.content, s.name, own)
  {
    match n.content
    case SendNetworkTable(v) =>
      if DecodeTable(v).Some? {
        MergedEntries(s.networkTable, DecodeTable(v).value);
      }
    case SendNetworkUpdateTable(v) =>
      if DecodeTable(v).Some? {
        MergedEntries(s.networkTable, DecodeTable(v).value);
      }
    case _ =>
  }

  /**
    Handles one notification.  `id` is the clock reading a FindFile would use
    as its request id; `ioResult` is what the player or disk writer reports
    for a GetFileResponse (its result is only logged).
   */
  method HandleNotification(n: Notification, p: Peer, id: RequestId, ioResult: Outcome)
    returns (out: seq<Outbound>)
    requires CanHandle(n, p)
    modifies p
    ensures Handled(n, p.ipAddress, id, old(View(p)), View(p), out)
  {
    out := [];
    match n.content
    case PushToDB(key, value, _) =>
      out := Requests.PushToDb(key, value, p);
    case RedundantPushToDB(key, value, from) =>
      Requests.RedundantPushToDb(key, value, p, from);
    case ChangePeerName(value) =>
      out := Requests.ChangePeerName(value, n.from, p);
    case SendNetworkTable(value) =>
      ghost var order;
      out, order := Requests.SendNetworkTable(value, p);
    case SendNetworkUpdateTable(value) =>
      Requests.SendNetworkUpdateTable(value, p);
    case RequestForTable(value) =>
      out := Requests.RequestForTable(value, n.from, p);
    case FindFile(instr, key) =>
      ghost var order;
      out, order := Requests.FindFile(instr, key, p, id);
    case ExistFile(key, requestId) =>
      out := Requests.ExistFile(key, requestId, n.from, p);
    case ExistFileResponse(key, requestId) =>
      out := Requests.ExistFileResponse(key, requestId, n.from, p);
    case GetFile(instr, key) =>
      out := Requests.GetFile(instr, key, n.from, p);
    case GetFileResponse(instr, key, value) =>
      var _ := Requests.GetFileResponse(instr, key, value, p, ioResult);
    case DeleteFromNetwork(name) =>
      Requests.DeleteFromNetwork(name, p);
    case DeleteFile(key) =>
      Requests.DeleteFileRequest(key, p);
    case OrderSong(key) =>
      out := Requests.OrderSongRequest(key, p);
    case DroppedPeer(addr) =>
      out := Requests.DroppedPeer(addr, p);
    case ExitPeer(_) =>
    case SelfStatusRequest =>
    case StatusRequest =>
    case StatusResponse(_, _) =>
    case PlayAudioRequest(_) =>
    case Response(_) =>
  }
}
