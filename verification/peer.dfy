/**
  The state of one node (`Peer`) and the operations of peer.rs on it: the
  local store, the pending-request ledger, the membership table, and the
  port-ordered address list used by the heartbeat.
 */
module PeerState {
  import opened Types

  /** The names of the members whose address is `a`. */
  function NamesAt(table: map<Name, Addr>, a: Addr): set<Name>
  {
    set n | n in table && table[n] == a
  }

  /**
    `s` lists the values of `table`: each address occurs in `s` as many times
    as there are members at that address.
   */
  ghost predicate ListsValues(s: seq<Addr>, table: map<Name, Addr>)
  {
    && |s| == |table|
    && forall a :: multiset(s)[a] == |NamesAt(table, a)|
  }

  /** A list of the table's values holds only addresses of the table. */
  lemma ListedAreValues(s: seq<Addr>, table: map<Name, Addr>)
    requires ListsValues(s, table)
    ensures forall i :: 0 <= i < |s| ==> s[i] in table.Values
  {
    forall i | 0 <= i < |s| ensures s[i] in table.Values {
      assert multiset(s)[s[i]] > 0;
      var n :| n in NamesAt(table, s[i]);
    }
  }

  /** The addresses are in non-decreasing port order. */
  ghost predicate SortedByPort(s: seq<Addr>)
  {
    forall i, j :: 0 <= i < j < |s| ==> s[i].port <= s[j].port
  }

  /** The membership table without the members at `addr`. */
  function WithoutAddress(table: map<Name, Addr>, addr: Addr): (r: map<Name, Addr>)
    ensures forall n :: n in r <==> n in table && table[n] != addr
    ensures forall n :: n in r ==> r[n] == table[n]
  {
    map n | n in table && table[n] != addr :: table[n]
  }

  /** Dropping an address removes it from the table's values and nothing else. */
  lemma WithoutAddressValues(table: map<Name, Addr>, addr: Addr)
    ensures WithoutAddress(table, addr).Values == table.Values - {addr}
  {
    var r := WithoutAddress(table, addr);
    forall a | a in table.Values - {addr} ensures a in r.Values {
      var n :| n in table && table[n] == a;
      assert r[n] == a;
    }
  }

  /** Inserts `a` before the first element whose port is not smaller (a stable insertion). */
  function InsertByPort(a: Addr, s: seq<Addr>): seq<Addr>
  {
    if s == [] then [a]
    else if a.port <= s[0].port then [a] + s
    else [s[0]] + InsertByPort(a, s[1..])
  }

  /** `addresses.sort_by(|a, b| a.port().cmp(&b.port()))`, a stable sort by port. */
  function SortByPort(s: seq<Addr>): seq<Addr>
  {
    if s == [] then [] else InsertByPort(s[0], SortByPort(s[1..]))
  }

  lemma {:induction false} InsertByPortCorrect(a: Addr, s: seq<Addr>)
    requires SortedByPort(s)
    ensures SortedByPort(InsertByPort(a, s))
    ensures multiset(InsertByPort(a, s)) == multiset(s) + multiset{a}
  {
    if s == [] {
    } else if a.port <= s[0].port {
    } else {
      InsertByPortCorrect(a, s[1..]);
      assert s == [s[0]] + s[1..];
      var t := InsertByPort(a, s[1..]);
      forall k | 0 <= k < |t| ensures s[0].port <= t[k].port {
        assert t[k] in multiset(t);
      }
    }
  }

  /** Sorting returns a permutation of its input in non-decreasing port order. */
  lemma {:induction false} SortByPortCorrect(s: seq<Addr>)
    ensures SortedByPort(SortByPort(s))
    ensures multiset(SortByPort(s)) == multiset(s)
  {
    if s != [] {
      SortByPortCorrect(s[1..]);
      InsertByPortCorrect(s[0], SortByPort(s[1..]));
      assert s == [s[0]] + s[1..];
    }
  }

  /** One more member taken out of `todo` adds one to the count at its own address. */
  lemma NamesAtStep(table: map<Name, Addr>, todo: set<Name>, k: Name, a: Addr)
    requires k in todo && k in table
    ensures |NamesAt(table, a) - (todo - {k})|
      == |NamesAt(table, a) - todo| + if table[k] == a then 1 else 0
  {
    if table[k] == a {
      assert NamesAt(table, a) - (todo - {k}) == (NamesAt(table, a) - todo) + {k};
    } else {
      assert NamesAt(table, a) - (todo - {k}) == NamesAt(table, a) - todo;
    }
  }

  /**
    Pushes every value of the table into a fresh vector, in the table's
    iteration order (any order of the names).
   */
  method CollectValues(table: map<Name, Addr>) returns (values: seq<Addr>)
    ensures ListsValues(values, table)
  {
    values := [];
    var todo := table.Keys;
    while todo != {}
      invariant todo <= table.Keys
      invariant |values| + |todo| == |table|
      invariant forall a :: multiset(values)[a] == |NamesAt(table, a) - todo|
      decreases |todo|
    {
      var k :| k in todo;
      forall a
        ensures multiset(values + [table[k]])[a] == |NamesAt(table, a) - (todo - {k})|
      {
        NamesAtStep(table, todo, k, a);
        assert multiset(values + [table[k]]) == multiset(values) + multiset{table[k]};
      }
      values := values + [table[k]];
      todo := todo - {k};
    }
    assert forall a :: NamesAt(table, a) - {} == NamesAt(table, a);
  }

  /** `iter().position(...)`: the first index at which `x` occurs. */
  function IndexOf(s: seq<Addr>, x: Addr): (r: Option<nat>)
    ensures r.None? <==> x !in s
    ensures r.Some? ==> r.value < |s| && s[r.value] == x
    ensures r.Some? ==> forall j :: 0 <= j < r.value ==> s[j] != x
  {
    if s == [] then None
    else if s[0] == x then Some(0)
    else match IndexOf(s[1..], x)
      case None => None
      case Some(i) => Some(i + 1)
  }

  /**
    How many heartbeat successors a list of `len` addresses yields when the
    own index is `ownIndex`: one per k in 1..3 while ownIndex + k stays below
    twice the length.
   */
  function SuccessorCount(len: nat, ownIndex: nat): nat
  {
    if 2 * len <= ownIndex + 1 then 0
    else if 2 * len - ownIndex - 1 < 3 then 2 * len - ownIndex - 1
    else 3
  }

  /**
    The element at position i of the list read cyclically once: the element
    at i, or at i - len past the end.
   */
  function CyclicAt(addresses: seq<Addr>, i: nat): Addr
    requires i < 2 * |addresses|
  {
    if i < |addresses| then addresses[i] else addresses[i - |addresses|]
  }

  lemma CyclicAtIsModulo(addresses: seq<Addr>, i: nat)
    requires i < 2 * |addresses|
    ensures CyclicAt(addresses, i) == addresses[i % |addresses|]
  {
    var len := |addresses|;
    if i >= len {
      assert i == 1 * len + (i - len);
    }
  }

  /**
    The loop of `get_heartbeat_successors`: for i in ownIndex+1 .. ownIndex+4,
    take the element at i, or at i - len once i passes the end, and stop when
    that index is out of range too.
   */
  method Successors(addresses: seq<Addr>, ownIndex: nat) returns (successors: seq<Addr>)
    ensures |successors| == SuccessorCount(|addresses|, ownIndex) <= 3
    ensures forall k :: 0 <= k < |successors| ==>
      0 < |addresses| && successors[k] == addresses[(ownIndex + 1 + k) % |addresses|]
  {
    var len := |addresses|;
    successors := [];
    var i := ownIndex + 1;
    while i < ownIndex + 4
      invariant ownIndex + 1 <= i <= ownIndex + 4
      invariant |successors| == i - ownIndex - 1
      invariant i == ownIndex + 1 || i <= 2 * len
      invariant forall k :: 0 <= k < |successors| ==>
        ownIndex + 1 + k < 2 * len && successors[k] == CyclicAt(addresses, ownIndex + 1 + k)
    {
      if i >= len {
        var j := i - len;
        if j >= len {
          break;
        }
        successors := successors + [addresses[j]];
      } else {
        successors := successors + [addresses[i]];
      }
      i := i + 1;
    }
    forall k | 0 <= k < |successors|
      ensures 0 < len && successors[k] == addresses[(ownIndex + 1 + k) % len]
    {
      CyclicAtIsModulo(addresses, ownIndex + 1 + k);
    }
  }

  /** The state of a node. */
  class Peer {
    var name: Name
    const ipAddress: Addr
    /** Membership: peer name to address. */
    var networkTable: map<Name, Addr>
    /** The local store: song name to content. */
    var database: map<Key, Bytes>
    /** Pending requests: request id to the instruction that opened it. */
    var openRequestTable: map<RequestId, FileInstruction>
    /** Redundancy ledger: peer address to the songs recorded for it. */
    var redundancyTable: map<Addr, seq<Key>>

    /** `Peer::create`: an empty store and an empty redundancy ledger. */
    constructor Create(
      ipAddress: Addr,
      ownName: Name,
      networkTable: map<Name, Addr>,
      openRequestTable: map<RequestId, FileInstruction>)
      ensures this.name == ownName && this.ipAddress == ipAddress
      ensures this.networkTable == networkTable && this.openRequestTable == openRequestTable
      ensures database == map[] && redundancyTable == map[]
    {
      name := ownName;
      this.ipAddress := ipAddress;
      this.networkTable := networkTable;
      database := map[];
      this.openRequestTable := openRequestTable;
      redundancyTable := map[];
    }

    /** Stores `value` under `key`, overwriting any earlier value. */
    method ProcessStoreRequest(key: Key, value: Bytes)
      modifies this`database
      ensures database == old(database)[key := value]
    {
      database := database[key := value];
    }

    /** Looks a song up in the local store. */
    function FindFile(key: Key): (r: Option<Bytes>)
      reads this
      ensures r.Some? <==> key in database
      ensures r.Some? ==> r.value == database[key]
    {
      if key in database then Some(database[key]) else None
    }

    /** Whether the local store holds the song; agrees with `FindFile`. */
    function DoesFileExist(key: Key): (b: bool)
      reads this
      ensures b <==> FindFile(key).Some?
    {
      key in database
    }

    /** Records a pending request, replacing one with the same id. */
    method AddNewRequest(id: RequestId, instr: FileInstruction)
      modifies this`openRequestTable
      ensures openRequestTable == old(openRequestTable)[id := instr]
    {
      openRequestTable := openRequestTable[id := instr];
    }

    /** Forgets a pending request. */
    method DeleteHandledRequest(id: RequestId)
      modifies this`openRequestTable
      ensures openRequestTable == old(openRequestTable) - {id}
    {
      openRequestTable := openRequestTable - {id};
    }

    /** Removes a song from the local store. */
    method DeleteFileFromDatabase(key: Key)
      modifies this`database
      ensures database == old(database) - {key}
    {
      database := database - {key};
    }

    /**
      Removes, one by one, every member whose address is `addr`, iterating
      over a copy of the table.
     */
    method DropPeerByIp(addr: Addr)
      modifies this`networkTable
      ensures networkTable == WithoutAddress(old(networkTable), addr)
    {
      var tmp := networkTable;
      var dropped := set k | k in tmp && tmp[k] == addr;
      var todo := dropped;
      while todo != {}
        invariant todo <= dropped
        invariant networkTable == tmp - (dropped - todo)
        decreases |todo|
      {
        var k :| k in todo;
        assert tmp - (dropped - (todo - {k})) == (tmp - (dropped - todo)) - {k};
        networkTable := networkTable - {k};
        todo := todo - {k};
      }
      assert dropped - {} == dropped;
      assert tmp - dropped == WithoutAddress(tmp, addr);
    }

    /** The table's values, one per member, in non-decreasing port order. */
    method GetAllSocketaddrFromPeers() returns (addresses: seq<Addr>)
      ensures SortedByPort(addresses) && ListsValues(addresses, networkTable)
    {
      var values := CollectValues(networkTable);
      SortByPortCorrect(values);
      addresses := SortByPort(values);
      assert |multiset(addresses)| == |multiset(values)|;
    }

    /**
      Up to three addresses that follow the node's own address in the
      port-ordered address list, wrapping around once.  The own index is the
      first position of the own address, or 0 when it is missing.
     */
    method GetHeartbeatSuccessors() returns (successors: seq<Addr>, ghost sorted: seq<Addr>)
      ensures |successors| <= 3 && |successors| <= 2 * |networkTable|
      ensures forall k :: 0 <= k < |successors| ==> successors[k] in networkTable.Values
      ensures SortedByPort(sorted) && ListsValues(sorted, networkTable)
      ensures var own := IndexOf(sorted, ipAddress).GetOr(0);
        && |successors| == SuccessorCount(|sorted|, own) <= 3
        && forall k :: 0 <= k < |successors| ==>
             0 < |sorted| && successors[k] == sorted[(own + 1 + k) % |sorted|]
    {
      var addresses := GetAllSocketaddrFromPeers();
      sorted := addresses;
      var ownIndex := IndexOf(addresses, ipAddress).GetOr(0);
      successors := Successors(addresses, ownIndex);
      ListedAreValues(addresses, networkTable);
    }
  }

  /**
    `create_peer` once the own address is known: the table holds exactly the
    node itself, and no request is pending.
   */
  method CreatePeer(ownName: Name, ownAddr: Addr) returns (p: Peer)
    ensures fresh(p)
    ensures p.name == ownName && p.ipAddress == ownAddr
    ensures p.networkTable == map[ownName := ownAddr]
    ensures p.database == map[] && p.openRequestTable == map[] && p.redundancyTable == map[]
  {
    p := new Peer.Create(ownAddr, ownName, map[ownName := ownAddr], map[]);
  }
}
