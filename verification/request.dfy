/**
  The message handlers of request.rs.  Each is a transition on a node's
  state plus the messages it sends; a send becomes an `Outbound` value in
  the returned list, in the order the source issues it.
 */
module Requests {
  import opened Types
  import opened PeerState
  import opened Network

  /**
    `out` sends `content` once to the address of every member whose name is
    not `ownName`, in the order `order` of the table's iteration.
   */
  ghost predicate IsBroadcast(
    out: seq<Outbound>, order: seq<Name>, table: map<Name, Addr>, ownName: Name, content: Content)
  {
    && |out| == |order|
    && (forall i, j :: 0 <= i < j < |order| ==> order[i] != order[j])
    && (forall n :: n in order <==> n in table && n != ownName)
    && (forall i :: 0 <= i < |order| ==> order[i] in table && out[i] == Outbound(table[order[i]], content))
  }

  /**
    The loop `for (key, value) in &peer.network_table { if key != &peer.name
    { send(value, ...) } }`, with the iteration order left open.
   */
  method BroadcastExcept(table: map<Name, Addr>, ownName: Name, content: Content)
    returns (out: seq<Outbound>, ghost order: seq<Name>)
    ensures IsBroadcast(out, order, table, ownName, content)
    ensures |out| == |table.Keys - {ownName}|
    ensures forall i :: 0 <= i < |out| ==> out[i].content == content && out[i].to in table.Values
  {
    out, order := [], [];
    var todo := table.Keys;
    while todo != {}
      invariant todo <= table.Keys
      invariant |out| == |order|
      invariant forall i, j :: 0 <= i < j < |order| ==> order[i] != order[j]
      invariant forall n :: n in order <==> n in table && n !in todo && n != ownName
      invariant forall i :: 0 <= i < |order| ==>
        order[i] in table && out[i] == Outbound(table[order[i]], content)
      decreases |todo|
    {
      var k :| k in todo;
      if k != ownName {
        out := out + [Outbound(table[k], content)];
        order := order + [k];
      }
      todo := todo - {k};
    }
    BroadcastCount(out, order, table, ownName, content);
  }

  /** A sequence of distinct names is as long as the set of its names. */
  lemma {:induction false} DistinctNamesCount(s: seq<Name>)
    requires forall i, j :: 0 <= i < j < |s| ==> s[i] != s[j]
    ensures |(set n | n in s)| == |s|
  {
    if s != [] {
      var rest := s[1..];
      DistinctNamesCount(rest);
      assert s[0] !in rest by {
        forall k | 0 <= k < |rest| ensures rest[k] != s[0] {
          assert rest[k] == s[k + 1];
        }
      }
      assert (set n | n in s) == (set n | n in rest) + {s[0]} by {
        assert s == [s[0]] + rest;
      }
    }
  }

  /** A broadcast sends one message to each member other than the node itself. */
  lemma BroadcastCount(out: seq<Outbound>, order: seq<Name>, table: map<Name, Addr>, ownName: Name, content: Content)
    requires IsBroadcast(out, order, table, ownName, content)
    ensures |out| == |table.Keys - {ownName}|
  {
    DistinctNamesCount(order);
    assert (set n | n in order) == table.Keys - {ownName};
  }

  // ---------------------------------------------------------------------
  // Redundancy ledger

  /** The songs the ledger records for `a` (none when it has no entry). */
  function Recorded(ledger: map<Addr, seq<Key>>, a: Addr): seq<Key>
  {
    if a in ledger then ledger[a] else []
  }

  /** The ledger after `key` is pushed onto the list of `target`. */
  function AppendKey(ledger: map<Addr, seq<Key>>, target: Addr, key: Key): map<Addr, seq<Key>>
  {
    ledger[target := Recorded(ledger, target) + [key]]
  }

  /**
    Appending touches only the entry of `target`: it gains `key` at its end
    and keeps what it had, and every other entry stays as it was.
   */
  lemma AppendKeyEffect(ledger: map<Addr, seq<Key>>, target: Addr, key: Key)
    ensures var r := AppendKey(ledger, target, key);
      && r.Keys == ledger.Keys + {target}
      && |r[target]| == |Recorded(ledger, target)| + 1
      && r[target][|r[target]| - 1] == key
      && r[target][..|r[target]| - 1] == Recorded(ledger, target)
      && forall a :: a in ledger && a != target ==> r[a] == ledger[a]
  {
    var r := AppendKey(ledger, target, key);
    assert r[target][..|r[target]| - 1] == Recorded(ledger, target);
  }

  /** Every song appears at most once in the whole ledger: one redundant copy per song. */
  ghost predicate SingleCopy(ledger: map<Addr, seq<Key>>)
  {
    forall a, b, i, j ::
      (a in ledger && b in ledger && 0 <= i < |ledger[a]| && 0 <= j < |ledger[b]| &&
       ledger[a][i] == ledger[b][j]) ==> a == b && i == j
  }

  /** Every song the ledger records is held in the local store. */
  ghost predicate LedgerWithinStore(ledger: map<Addr, seq<Key>>, database: map<Key, Bytes>)
  {
    forall a, i :: a in ledger && 0 <= i < |ledger[a]| ==> ledger[a][i] in database
  }

  /** A position of the appended ledger is the new key or an old position. */
  lemma AppendKeyAt(ledger: map<Addr, seq<Key>>, target: Addr, key: Key, a: Addr, i: int)
    requires var r := AppendKey(ledger, target, key); a in r && 0 <= i < |r[a]|
    ensures var r := AppendKey(ledger, target, key);
      || (a == target && i == |Recorded(ledger, target)| && r[a][i] == key)
      || (a in ledger && i < |ledger[a]| && r[a][i] == ledger[a][i])
  {
  }

  /**
    Pushing a song the store did not hold keeps one redundant copy per song,
    and keeps every recorded song in the store.
   */
  lemma PushKeepsSingleCopy(
    ledger: map<Addr, seq<Key>>, database: map<Key, Bytes>, target: Addr, key: Key, value: Bytes)
    requires SingleCopy(ledger) && LedgerWithinStore(ledger, database) && key !in database
    ensures SingleCopy(AppendKey(ledger, target, key))
    ensures LedgerWithinStore(AppendKey(ledger, target, key), database[key := value])
  {
    var r := AppendKey(ledger, target, key);
    forall a, b, i, j |
      a in r && b in r && 0 <= i < |r[a]| && 0 <= j < |r[b]| && r[a][i] == r[b][j]
      ensures a == b && i == j
    {
      AppendKeyAt(ledger, target, key, a, i);
      AppendKeyAt(ledger, target, key, b, j);
    }
    forall a, i | a in r && 0 <= i < |r[a]| ensures r[a][i] in database[key := value] {
      AppendKeyAt(ledger, target, key, a, i);
    }
  }

  /** The number of leading songs of `songs` that the store holds. */
  function HeldPrefix(songs: seq<Key>, database: map<Key, Bytes>): (r: nat)
    ensures r <= |songs|
    ensures forall i :: 0 <= i < r ==> songs[i] in database
    ensures r < |songs| ==> songs[r] !in database
  {
    if songs == [] || songs[0] !in database then 0
    else 1 + HeldPrefix(songs[1..], database)
  }

  /**
    `redistribute_files(addr)` picks a redundant target only when the node is
    not alone and recorded at least one song for `addr`.
   */
  predicate NeedsTarget(addr: Addr, table: map<Name, Addr>, ledger: map<Addr, seq<Key>>)
  {
    |table| > 1 && addr in ledger && ledger[addr] != []
  }

  /**
    The outcome of `redistribute_files(addr)` on a node whose table,
    store and own address are given, whose ledger goes from `before` to
    `after`, and which sends `out`.  Nothing happens when the node is alone
    or recorded nothing for `addr`.  Otherwise each recorded song is pushed,
    in order, to some other member, until the first song the store no longer
    holds; the entry for `addr` is cleared only if every song was pushed.
   */
  ghost predicate Redistributed(
    addr: Addr, table: map<Name, Addr>, database: map<Key, Bytes>, own: Addr,
    before: map<Addr, seq<Key>>, after: map<Addr, seq<Key>>, out: seq<Outbound>)
  {
    if |table| <= 1 || addr !in before then
      after == before && out == []
    else
      var songs := before[addr];
      var held := HeldPrefix(songs, database);
      && |out| == held
      && (forall j :: 0 <= j < held ==>
            && out[j].content == RedundantPushToDB(songs[j], database[songs[j]], Rendered(own))
            && IsOtherTarget(table, own, out[j].to))
      && after == if held == |songs| then before - {addr} else before
  }

  /**
    When the node is not alone and still holds every song it recorded for
    `addr`, redistribution leaves no entry for `addr`, changes no other entry
    and re-pushes every recorded song.
   */
  lemma RedistributedClearsEntry(
    addr: Addr, table: map<Name, Addr>, database: map<Key, Bytes>, own: Addr,
    before: map<Addr, seq<Key>>, after: map<Addr, seq<Key>>, out: seq<Outbound>)
    requires Redistributed(addr, table, database, own, before, after, out)
    requires |table| > 1 && addr in before
    requires forall i :: 0 <= i < |before[addr]| ==> before[addr][i] in database
    ensures addr !in after && |out| == |before[addr]|
    ensures forall a :: a in before && a != addr ==> a in after && after[a] == before[a]
  {
  }

  /** Removing a whole ledger entry keeps one redundant copy per song. */
  lemma RemoveEntryKeepsSingleCopy(ledger: map<Addr, seq<Key>>, addr: Addr)
    requires SingleCopy(ledger)
    ensures SingleCopy(ledger - {addr})
  {
  }

  /**
    Recording a song that the store now holds keeps every recorded song in
    the store, whatever the ledger already recorded.
   */
  lemma AppendKeepsWithinStore(
    ledger: map<Addr, seq<Key>>, database: map<Key, Bytes>, target: Addr, key: Key, value: Bytes)
    requires LedgerWithinStore(ledger, database)
    ensures LedgerWithinStore(AppendKey(ledger, target, key), database[key := value])
  {
    var r := AppendKey(ledger, target, key);
    forall a, i | a in r && 0 <= i < |r[a]| ensures r[a][i] in database[key := value] {
      AppendKeyAt(ledger, target, key, a, i);
    }
  }

  /**
    Redistribution keeps both ledger invariants: it removes the entry of the
    dropped address or changes nothing, and the store stays as it was.
   */
  lemma RedistributedKeepsLedger(
    addr: Addr, table: map<Name, Addr>, database: map<Key, Bytes>, own: Addr,
    before: map<Addr, seq<Key>>, after: map<Addr, seq<Key>>, out: seq<Outbound>)
    requires Redistributed(addr, table, database, own, before, after, out)
    ensures SingleCopy(before) ==> SingleCopy(after)
    ensures LedgerWithinStore(before, database) ==> LedgerWithinStore(after, database)
  {
    if after != before {
      assert after == before - {addr};
      if SingleCopy(before) {
        RemoveEntryKeepsSingleCopy(before, addr);
      }
    }
  }

  /**
    `redundant_push_to_db` appends under the sender without looking at what
    the ledger already records: a song already recorded under `x` and pushed
    again by `y` (or by `x` itself) is then recorded twice.
   */
  lemma RedundantPushCanBreakSingleCopy(x: Addr, y: Addr, song: Key)
    ensures SingleCopy(map[x := [song]])
    ensures !SingleCopy(AppendKey(map[x := [song]], y, song))
  {
    var r := AppendKey(map[x := [song]], y, song);
    if x == y {
      assert r[x] == [song, song];
      assert r[x][0] == r[x][1];
    } else {
      assert r[x] == [song] && r[y] == [song];
      assert r[x][0] == r[y][0];
    }
  }

  /**
    Deleting a song from the store (a REMOVE in `find_file`, or
    `delete_file_request`) leaves the ledger as it was, so a recorded song
    may no longer be held.
   */
  lemma DeletingRecordedSongBreaksWithinStore(x: Addr, song: Key, value: Bytes)
    ensures LedgerWithinStore(map[x := [song]], map[song := value])
    ensures !LedgerWithinStore(map[x := [song]], map[song := value] - {song})
  {
    var ledger := map[x := [song]];
    assert ledger[x][0] !in map[song := value] - {song};
  }

  /** The `get_mut`/`insert` of the ledger: appends `key` to the list of `target`. */
  method RecordRedundantCopy(p: Peer, target: Addr, key: Key)
    modifies p`redundancyTable
    ensures p.redundancyTable == AppendKey(old(p.redundancyTable), target, key)
  {
    if target in p.redundancyTable {
      p.redundancyTable := p.redundancyTable[target := p.redundancyTable[target] + [key]];
    } else {
      assert Recorded(p.redundancyTable, target) + [key] == [key];
      p.redundancyTable := p.redundancyTable[target := [key]];
    }
  }

  // ---------------------------------------------------------------------
  // Handlers

  /**
    `push_to_db`: a song already in the store is left alone.  A new song is
    stored; unless the node is alone, one redundant copy is pushed to another
    member and recorded in the ledger under that member's address.
   */
  method PushToDb(key: Key, value: Bytes, p: Peer) returns (out: seq<Outbound>)
    requires key !in p.database ==>
      |p.networkTable| == 1 || HasOtherAddress(p.networkTable, p.ipAddress)
    modifies p`database, p`redundancyTable
    ensures key in old(p.database) ==>
      && p.database == old(p.database)
      && p.redundancyTable == old(p.redundancyTable)
      && out == []
    ensures key !in old(p.database) ==> p.database == old(p.database)[key := value]
    ensures key !in old(p.database) && |p.networkTable| == 1 ==>
      p.redundancyTable == old(p.redundancyTable) && out == []
    ensures key !in old(p.database) && |p.networkTable| != 1 ==>
      && |out| == 1
      && out[0].content == RedundantPushToDB(key, value, Rendered(p.ipAddress))
      && IsOtherTarget(p.networkTable, p.ipAddress, out[0].to)
      && p.redundancyTable == AppendKey(old(p.redundancyTable), out[0].to, key)
    ensures SingleCopy(old(p.redundancyTable)) &&
            LedgerWithinStore(old(p.redundancyTable), old(p.database)) ==>
      SingleCopy(p.redundancyTable) && LedgerWithinStore(p.redundancyTable, p.database)
  {
    out := [];
    if key in p.database {
      return;
    }
    ghost var ledger, database := p.redundancyTable, p.database;
    p.ProcessStoreRequest(key, value);
    var target := OtherRandomTarget(p.networkTable, p.ipAddress);
    match target
    case Some(t) =>
      out := [Outbound(t, RedundantPushToDB(key, value, Rendered(p.ipAddress)))];
      RecordRedundantCopy(p, t, key);
      if SingleCopy(ledger) && LedgerWithinStore(ledger, database) {
        PushKeepsSingleCopy(ledger, database, t, key, value);
      }
    case None =>
      if LedgerWithinStore(ledger, database) {
        assert LedgerWithinStore(ledger, p.database);
      }
  }

  /**
    `redundant_push_to_db`: stores the song, then records it under the
    sender's address; when the sender text does not parse, the ledger is
    left as it was.
   */
  method RedundantPushToDb(key: Key, value: Bytes, p: Peer, from: AddrText)
    modifies p`database, p`redundancyTable
    ensures p.database == old(p.database)[key := value]
    ensures ParseAddr(from).None? ==> p.redundancyTable == old(p.redundancyTable)
    ensures ParseAddr(from).Some? ==>
      p.redundancyTable == AppendKey(old(p.redundancyTable), ParseAddr(from).value, key)
  {
    p.ProcessStoreRequest(key, value);
    var fromAddress := ParseAddr(from);
    if fromAddress.None? {
      return;
    }
    RecordRedundantCopy(p, fromAddress.value, key);
  }

  /**
    `change_peer_name`: the node drops its old name from the table, adopts
    `value` and enters itself under it, then asks the sender for its table
    again.
   */
  method ChangePeerName(value: Name, sender: Addr, p: Peer) returns (out: seq<Outbound>)
    modifies p`name, p`networkTable
    ensures p.name == value
    ensures p.networkTable == (old(p.networkTable) - {old(p.name)})[value := p.ipAddress]
    ensures old(p.name) != value ==> old(p.name) !in p.networkTable
    ensures value in p.networkTable && p.networkTable[value] == p.ipAddress
    ensures out == [Outbound(sender, Content.RequestForTable(value))]
  {
    p.networkTable := p.networkTable - {p.name};
    p.name := value;
    p.networkTable := p.networkTable[p.name := p.ipAddress];
    out := [Outbound(sender, Content.RequestForTable(p.name))];
  }

  /** The membership table after merging `incoming` into `table`. */
  function Merged(table: map<Name, Addr>, incoming: map<Name, Addr>): map<Name, Addr>
  {
    table + incoming
  }

  /**
    A merge inserts or overwrites every incoming entry and keeps the entries
    whose names are not incoming.
   */
  lemma MergedEntries(table: map<Name, Addr>, incoming: map<Name, Addr>)
    ensures Merged(table, incoming).Keys == table.Keys + incoming.Keys
    ensures forall n :: n in incoming ==> Merged(table, incoming)[n] == incoming[n]
    ensures forall n :: n in table && n !in incoming ==> Merged(table, incoming)[n] == table[n]
  {
  }

  /** Merging the same table twice is merging it once. */
  lemma MergeIdempotent(table: map<Name, Addr>, incoming: map<Name, Addr>)
    ensures Merged(Merged(table, incoming), incoming) == Merged(table, incoming)
  {
    var once := Merged(table, incoming);
    assert Merged(once, incoming).Keys == once.Keys;
  }

  /** Merges of tables with disjoint names commute. */
  lemma MergeCommutesOnDisjointNames(
    table: map<Name, Addr>, first: map<Name, Addr>, second: map<Name, Addr>)
    requires first.Keys !! second.Keys
    ensures Merged(Merged(table, first), second) == Merged(Merged(table, second), first)
  {
    var a := Merged(Merged(table, first), second);
    var b := Merged(Merged(table, second), first);
    assert a.Keys == b.Keys;
    forall n | n in a ensures a[n] == b[n] {
      if n in first {
        assert n !in second;
      }
    }
  }

  /** The loop `for (key, addr) in table { peer.network_table.insert(key, addr) }`. */
  method InsertEntries(p: Peer, incoming: map<Name, Addr>)
    modifies p`networkTable
    ensures p.networkTable == Merged(old(p.networkTable), incoming)
  {
    var todo := incoming.Keys;
    while todo != {}
      invariant todo <= incoming.Keys
      invariant p.networkTable == old(p.networkTable) + (incoming - todo)
      decreases |todo|
    {
      var k :| k in todo;
      assert old(p.networkTable) + (incoming - (todo - {k}))
          == (old(p.networkTable) + (incoming - todo))[k := incoming[k]];
      p.networkTable := p.networkTable[k := incoming[k]];
      todo := todo - {k};
    }
    assert incoming - {} == incoming;
  }

  /**
    `send_network_table`: a payload that is not UTF-8 is dropped.  Otherwise
    the table is merged in and the merged table is sent to every other
    member.
   */
  method SendNetworkTable(value: TablePayload, p: Peer)
    returns (out: seq<Outbound>, ghost order: seq<Name>)
    modifies p`networkTable
    ensures DecodeTable(value).None? ==> p.networkTable == old(p.networkTable) && out == []
    ensures DecodeTable(value).Some? ==>
      && p.networkTable == Merged(old(p.networkTable), DecodeTable(value).value)
      && IsBroadcast(out, order, p.networkTable, p.name,
                     Content.SendNetworkUpdateTable(Utf8Table(p.networkTable)))
  {
    out, order := [], [];
    var table := DecodeTable(value);
    if table.None? {
      return;
    }
    InsertEntries(p, table.value);
    out, order := BroadcastExcept(p.networkTable, p.name,
                                  Content.SendNetworkUpdateTable(Utf8Table(p.networkTable)));
  }

  /** `send_network_update_table`: merges the table in, without sending anything. */
  method SendNetworkUpdateTable(value: TablePayload, p: Peer)
    modifies p`networkTable
    ensures DecodeTable(value).None? ==> p.networkTable == old(p.networkTable)
    ensures DecodeTable(value).Some? ==>
      p.networkTable == Merged(old(p.networkTable), DecodeTable(value).value)
  {
    var table := DecodeTable(value);
    if table.None? {
      return;
    }
    InsertEntries(p, table.value);
  }

  /** The rename a node suggests to a newcomer whose name is taken. */
  function RenameSuggestion(value: Name): (r: Name)
    ensures |r| == |value| + 2 && r[..|value|] == value
  {
    value + "+1"
  }

  /**
    `request_for_table`: a newcomer whose name is already taken is told to
    rename itself; otherwise it receives the table.  The state is not changed.
   */
  method RequestForTable(value: Name, sender: Addr, p: Peer) returns (out: seq<Outbound>)
    ensures |out| == 1 && out[0].to == sender
    ensures value in p.networkTable <==> out[0].content.ChangePeerName?
    ensures value in p.networkTable ==>
      out[0].content.newName == RenameSuggestion(value) && out[0].content.newName != value
    ensures value !in p.networkTable ==>
      out[0].content == Content.SendNetworkTable(Utf8Table(p.networkTable))
  {
    if value in p.networkTable {
      var name := RenameSuggestion(value);
      out := [Outbound(sender, Content.ChangePeerName(name))];
    } else {
      out := [Outbound(sender, Content.SendNetworkTable(Utf8Table(p.networkTable)))];
    }
  }

  /**
    `find_file`.  With a local copy: REMOVE deletes it, opens request `id`
    and tells every other member to delete the song; GET hands the copy to the
    disk writer (no state change); other instructions do nothing.  Without a
    local copy: opens request `id` and asks every other member whether it
    holds the song.
   */
  method FindFile(instr: FileInstruction, song: Key, p: Peer, id: RequestId)
    returns (out: seq<Outbound>, ghost order: seq<Name>)
    modifies p`database, p`openRequestTable
    ensures song in old(p.database) && instr == Remove ==>
      && p.database == old(p.database) - {song}
      && p.openRequestTable == old(p.openRequestTable)[id := instr]
      && IsBroadcast(out, order, p.networkTable, p.name, DeleteFile(song))
    ensures song in old(p.database) && instr != Remove ==>
      && p.database == old(p.database)
      && p.openRequestTable == old(p.openRequestTable)
      && out == []
    ensures song !in old(p.database) ==>
      && p.database == old(p.database)
      && p.openRequestTable == old(p.openRequestTable)[id := instr]
      && IsBroadcast(out, order, p.networkTable, p.name, Content.ExistFile(song, id))
  {
    out, order := [], [];
    if song in p.database {
      if instr == Remove {
        p.DeleteFileFromDatabase(song);
        p.AddNewRequest(id, instr);
        out, order := BroadcastExcept(p.networkTable, p.name, DeleteFile(song));
      } else if instr == Get {
        // the copy goes to the disk writer, which is not part of this model
      }
    } else {
      p.AddNewRequest(id, instr);
      out, order := BroadcastExcept(p.networkTable, p.name, Content.ExistFile(song, id));
    }
  }

  /** `get_file`: replies with the content of a song the store holds, otherwise stays silent. */
  method GetFile(instr: FileInstruction, key: Key, sender: Addr, p: Peer) returns (out: seq<Outbound>)
    ensures key in p.database ==>
      out == [Outbound(sender, Content.GetFileResponse(instr, key, p.database[key]))]
    ensures key !in p.database ==> out == []
  {
    match p.FindFile(key)
    case Some(music) =>
      out := [Outbound(sender, Content.GetFileResponse(instr, key, music))];
    case None =>
      out := [];
  }

  /**
    `get_file_response`: ORDER stores the received copy; PLAY and GET hand
    it to the player or the disk writer, whose result `ioResult` is passed
    through (GET with its own message); any other instruction is an error.
   */
  method GetFileResponse(
    instr: FileInstruction, key: Key, value: Bytes, p: Peer, ioResult: Outcome)
    returns (r: Outcome)
    modifies p`database
    ensures instr == Order ==> p.database == old(p.database)[key := value] && r == Pass
    ensures instr != Order ==> p.database == old(p.database)
    ensures instr == Play ==> r == ioResult
    ensures instr == Get ==> r == if ioResult.Pass? then Pass else Fail("Could not save music to disk")
    ensures instr == Remove ==> r == Fail("Unknown command")
  {
    match instr
    case Play =>
      r := ioResult;
    case Get =>
      if ioResult.Fail? {
        return Fail("Could not save music to disk");
      }
      r := Pass;
    case Order =>
      p.ProcessStoreRequest(key, value);
      r := Pass;
    case Remove =>
      r := Fail("Unknown command");
  }

  /** `exist_file`: answers an existence query only when the store holds the song. */
  method ExistFile(song: Key, id: RequestId, sender: Addr, p: Peer) returns (out: seq<Outbound>)
    ensures p.DoesFileExist(song) ==> out == [Outbound(sender, Content.ExistFileResponse(song, id))]
    ensures !p.DoesFileExist(song) ==> out == []
  {
    out := [];
    if p.DoesFileExist(song) {
      out := [Outbound(sender, Content.ExistFileResponse(song, id))];
    }
  }

  /**
    `exist_file_response`: the first answer to a pending request closes it and
    asks the responder for the song with the request's instruction; an answer
    to a request that is not pending is ignored.
   */
  method ExistFileResponse(song: Key, id: RequestId, sender: Addr, p: Peer)
    returns (out: seq<Outbound>)
    modifies p`openRequestTable
    ensures id in old(p.openRequestTable) ==>
      && p.openRequestTable == old(p.openRequestTable) - {id}
      && out == [Outbound(sender, Content.GetFile(old(p.openRequestTable)[id], song))]
    ensures id !in old(p.openRequestTable) ==>
      p.openRequestTable == old(p.openRequestTable) && out == []
    ensures id !in p.openRequestTable
  {
    out := [];
    var pending := p.openRequestTable;
    if id in pending {
      var instr := pending[id];
      p.DeleteHandledRequest(id);
      out := [Outbound(sender, Content.GetFile(instr, song))];
    }
  }

  /** `delete_from_network`: removes the member called `name`, if there is one. */
  method DeleteFromNetwork(name: Name, p: Peer)
    modifies p`networkTable
    ensures p.networkTable == old(p.networkTable) - {name}
  {
    if name in p.networkTable {
      p.networkTable := p.networkTable - {name};
    }
  }

  /** `delete_file_request`: removes the song from the store, if it is there. */
  method DeleteFileRequest(song: Key, p: Peer)
    modifies p`database
    ensures p.database == old(p.database) - {song}
  {
    if song in p.database {
      p.DeleteFileFromDatabase(song);
    }
  }

  /**
    `order_song_request`: a song the store holds is offered to another member
    (nothing is sent when the node is alone); a song it does not hold is
    looked up in the network with instruction ORDER, through a FindFile
    notification to the node itself.  The state is not changed.
   */
  method OrderSongRequest(song: Key, p: Peer) returns (out: seq<Outbound>)
    requires song in p.database ==>
      |p.networkTable| == 1 || HasOtherAddress(p.networkTable, p.ipAddress)
    ensures song in p.database && |p.networkTable| == 1 ==> out == []
    ensures song in p.database && |p.networkTable| != 1 ==>
      && |out| == 1
      && out[0].content == OrderSong(song)
      && IsOtherTarget(p.networkTable, p.ipAddress, out[0].to)
    ensures song !in p.database ==> out == [Outbound(p.ipAddress, Content.FindFile(Order, song))]
  {
    if song in p.database {
      var target := OtherRandomTarget(p.networkTable, p.ipAddress);
      match target
      case None =>
        out := [];
      case Some(t) =>
        out := [Outbound(t, OrderSong(song))];
    } else {
      out := [Outbound(p.ipAddress, Content.FindFile(Order, song))];
    }
  }

  /**
    `redistribute_files`: when the node is not alone and recorded songs for
    `addr`, pushes each of them to a freshly chosen other member, stops at the
    first song no longer held, and clears the entry only after the last one.
   */
  method RedistributeFiles(addr: Addr, p: Peer) returns (out: seq<Outbound>)
    requires NeedsTarget(addr, p.networkTable, p.redundancyTable) ==>
      HasOtherAddress(p.networkTable, p.ipAddress)
    modifies p`redundancyTable
    ensures Redistributed(addr, p.networkTable, p.database, p.ipAddress,
                          old(p.redundancyTable), p.redundancyTable, out)
  {
    out := [];
    if |p.networkTable| > 1 {
      if addr !in p.redundancyTable {
        return;
      }
      var songList := p.redundancyTable[addr];
      var i := 0;
      while i < |songList|
        invariant 0 <= i <= |songList|
        invariant forall j :: 0 <= j < i ==> songList[j] in p.database
        invariant |out| == i
        invariant forall j :: 0 <= j < i ==>
          && out[j].content == RedundantPushToDB(songList[j], p.database[songList[j]], Rendered(p.ipAddress))
          && IsOtherTarget(p.networkTable, p.ipAddress, out[j].to)
        invariant p.redundancyTable == old(p.redundancyTable)
      {
        var target := OtherRandomTarget(p.networkTable, p.ipAddress);
        var file := p.FindFile(songList[i]);
        if file.None? {
          assert HeldPrefix(songList, p.database) == i;
          return;
        }
        out := out + [Outbound(target.value, RedundantPushToDB(songList[i], file.value, Rendered(p.ipAddress)))];
        i := i + 1;
      }
      assert HeldPrefix(songList, p.database) == |songList|;
      p.redundancyTable := p.redundancyTable - {addr};
    }
  }

  /**
    `dropped_peer`: removes every member at `addr`, then redistributes what
    was recorded for it.  No song is pushed back to `addr`.
   */
  method DroppedPeer(addr: Addr, p: Peer) returns (out: seq<Outbound>)
    requires var rest := WithoutAddress(p.networkTable, addr);
      NeedsTarget(addr, rest, p.redundancyTable) ==> HasOtherAddress(rest, p.ipAddress)
    modifies p`networkTable, p`redundancyTable
    ensures p.networkTable == WithoutAddress(old(p.networkTable), addr)
    ensures Redistributed(addr, p.networkTable, p.database, p.ipAddress,
                          old(p.redundancyTable), p.redundancyTable, out)
    ensures forall j :: 0 <= j < |out| ==> out[j].to != addr
  {
    p.DropPeerByIp(addr);
    out := RedistributeFiles(addr, p);
    WithoutAddressValues(old(p.networkTable), addr);
  }
}
