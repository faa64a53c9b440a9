/**
  Short runs of the protocol between two or three nodes, each a sequence of
  handler calls whose outcome follows from the handlers' contracts alone:
  joining, a name collision, replication, a drop, and a request round trip.
 */
module Scenarios {
  import opened Types
  import opened PeerState
  import opened Network
  import opened Requests

  const addrA := Addr("10.0.0.1", 4000)
  const addrB := Addr("10.0.0.2", 4001)
  const addrC := Addr("10.0.0.3", 4002)
  const song: Key := "song"
  const music: Bytes := [1, 2, 3]

  /** In a two-member table a broadcast reaches exactly the other member. */
  lemma BroadcastToTheOther(
    out: seq<Outbound>, order: seq<Name>, table: map<Name, Addr>, own: Name, other: Name, content: Content)
    requires IsBroadcast(out, order, table, own, content)
    requires table.Keys == {own, other} && own != other
    ensures out == [Outbound(table[other], content)]
  {
    BroadcastCount(out, order, table, own, content);
    assert table.Keys - {own} == {other};
  }

  /**
    A node that is alone stores a song and pushes no redundant copy.  Its
    table has no other address, so the push can only go through the
    lone-node case of the target choice.
   */
  method AloneStoresWithoutCopy() returns (store: map<Key, Bytes>, ledger: map<Addr, seq<Key>>, out: seq<Outbound>)
    ensures store == map[song := music] && ledger == map[] && out == []
  {
    var p := CreatePeer("A", addrA);
    assert p.networkTable["A"] == addrA;
    SingletonHasNoOther(p.networkTable, p.ipAddress);
    assert !HasOtherAddress(p.networkTable, p.ipAddress);
    out := Requests.PushToDb(song, music, p);
    store, ledger := p.database, p.redundancyTable;
  }

  /**
    B joins through A: B asks A for the table, A sends it, B merges it and
    sends the merged table on to A, and A merges that.  Both end with the
    same two-member table.
   */
  method TwoNodeJoin() returns (tableA: map<Name, Addr>, tableB: map<Name, Addr>)
    ensures tableA == tableB == map["A" := addrA, "B" := addrB]
  {
    var a := CreatePeer("A", addrA);
    var b := CreatePeer("B", addrB);
    var reply := Requests.RequestForTable("B", addrB, a);
    assert reply[0].content == Content.SendNetworkTable(Utf8Table(map["A" := addrA]));
    var gossip, order := Requests.SendNetworkTable(reply[0].content.table, b);
    assert b.networkTable == map["A" := addrA, "B" := addrB];
    BroadcastToTheOther(gossip, order, b.networkTable, "B", "A",
                        Content.SendNetworkUpdateTable(Utf8Table(b.networkTable)));
    assert gossip[0] == Outbound(addrA, Content.SendNetworkUpdateTable(Utf8Table(b.networkTable)));
    Requests.SendNetworkUpdateTable(gossip[0].content.table, a);
    tableA, tableB := a.networkTable, b.networkTable;
  }

  /**
    A newcomer whose name is taken is told to rename itself to name+"+1",
    drops its old name, asks again under the new one and receives the table.
   */
  method RenameOnCollision() returns (name: Name, table: map<Name, Addr>)
    ensures name == "Alice+1"
    ensures table == map["Alice+1" := addrB, "Alice" := addrA]
  {
    var a := CreatePeer("Alice", addrA);
    var b := CreatePeer("Alice", addrB);
    var reply := Requests.RequestForTable("Alice", addrB, a);
    assert reply[0].content.newName == "Alice+1";
    var again := Requests.ChangePeerName(reply[0].content.newName, addrA, b);
    assert map["Alice" := addrB] - {"Alice"} == map[];
    assert b.networkTable == map["Alice+1" := addrB];
    var answer := Requests.RequestForTable(again[0].content.name, addrB, a);
    var gossip, order := Requests.SendNetworkTable(answer[0].content.table, b);
    name, table := b.name, b.networkTable;
  }

  /**
    In a two-member network the redundant copy of a new song can only go to
    the other member, and the ledger records it there.
   */
  method PushReplicatesToOtherMember() returns (ledger: map<Addr, seq<Key>>, out: seq<Outbound>)
    ensures out == [Outbound(addrB, RedundantPushToDB(song, music, Rendered(addrA)))]
    ensures ledger == map[addrB := [song]]
  {
    var p := new Peer.Create(addrA, "A", map["A" := addrA, "B" := addrB], map[]);
    out := PushReplicatesToOther(p);
    ledger := p.redundancyTable;
  }

  /**
    When the holder of the redundant copy drops and the node is left alone,
    nothing is pushed and the ledger keeps the entry for the dropped address.
   */
  method DropLeavingNodeAlone() returns (table: map<Name, Addr>, ledger: map<Addr, seq<Key>>, out: seq<Outbound>)
    ensures table == map["A" := addrA]
    ensures ledger == map[addrB := [song]] && out == []
  {
    var p := new Peer.Create(addrA, "A", map["A" := addrA, "B" := addrB], map[]);
    var pushed := PushReplicatesToOther(p);
    assert WithoutAddress(p.networkTable, addrB) == map["A" := addrA];
    out := Requests.DroppedPeer(addrB, p);
    table, ledger := p.networkTable, p.redundancyTable;
  }

  /** The push of `PushReplicatesToOtherMember` on a given two-member node. */
  method PushReplicatesToOther(p: Peer) returns (out: seq<Outbound>)
    requires p.ipAddress == addrA && p.networkTable == map["A" := addrA, "B" := addrB]
    requires p.database == map[] && p.redundancyTable == map[]
    modifies p
    ensures p.networkTable == old(p.networkTable)
    ensures p.database == map[song := music] && p.redundancyTable == map[addrB := [song]]
    ensures out == [Outbound(addrB, RedundantPushToDB(song, music, Rendered(addrA)))]
  {
    assert p.networkTable["B"] != addrA;
    out := Requests.PushToDb(song, music, p);
    assert out[0].to == addrB by {
      var n :| n in p.networkTable && p.networkTable[n] == out[0].to;
    }
    assert Recorded(map[], addrB) + [song] == [song];
  }

  /**
    In a three-member network, when the holder of the redundant copy drops,
    the song is pushed again to the one remaining other member and the entry
    for the dropped address is cleared.
   */
  method DropRedistributesToSurvivor() returns (ledger: map<Addr, seq<Key>>, lost: Addr, out: seq<Outbound>)
    ensures lost == addrB || lost == addrC
    ensures ledger == map[]
    ensures |out| == 1 && out[0].to != lost && out[0].to != addrA
    ensures out[0].content == RedundantPushToDB(song, music, Rendered(addrA))
  {
    var table := map["A" := addrA, "B" := addrB, "C" := addrC];
    var p := new Peer.Create(addrA, "A", table, map[]);
    assert p.networkTable["B"] != addrA;
    var pushed := Requests.PushToDb(song, music, p);
    lost := pushed[0].to;
    var survivor := if lost == addrB then "C" else "B";
    assert lost == addrB || lost == addrC by {
      var n :| n in table && table[n] == lost;
    }
    var rest := WithoutAddress(table, lost);
    assert rest == map["A" := addrA, survivor := table[survivor]];
    assert survivor in rest && rest[survivor] != addrA;
    assert HasOtherAddress(rest, p.ipAddress);
    out := Requests.DroppedPeer(lost, p);
    ledger := p.redundancyTable;
    assert |out| == 1;
    assert out[0].to != addrA;
  }

  /**
    A asks for a song it does not hold; B holds it and answers the existence
    query; A closes the request and asks B for the file; B sends it.  A second
    answer to the same request is ignored.
   */
  method FetchRoundTrip() returns (pending: map<RequestId, FileInstruction>, file: seq<Outbound>, late: seq<Outbound>)
    ensures pending == map[]
    ensures file == [Outbound(addrA, Content.GetFileResponse(Get, song, music))]
    ensures late == []
  {
    var table := map["A" := addrA, "B" := addrB];
    var a := new Peer.Create(addrA, "A", table, map[]);
    var b := new Peer.Create(addrB, "B", table, map[]);
    b.ProcessStoreRequest(song, music);
    var query, order := Requests.FindFile(Get, song, a, 7);
    BroadcastToTheOther(query, order, table, "A", "B", Content.ExistFile(song, 7));
    var found := Requests.ExistFile(query[0].content.key, query[0].content.id, addrA, b);
    var request := Requests.ExistFileResponse(found[0].content.key, found[0].content.id, addrB, a);
    file := Requests.GetFile(request[0].content.instr, request[0].content.key, addrA, b);
    late := Requests.ExistFileResponse(song, 7, addrB, a);
    pending := a.openRequestTable;
  }
}
