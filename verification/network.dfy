/**
  Decisions taken in mod.rs: the choice of a redundant target and which
  members the heartbeat probes.
 */
module Network {
  import opened Types
  import opened PeerState

  /** Some member of the table has an address other than `own`. */
  ghost predicate HasOtherAddress(table: map<Name, Addr>, own: Addr)
  {
    exists n :: n in table && table[n] != own
  }

  /** `a` is a possible redundant target: a table address other than `own`. */
  ghost predicate IsOtherTarget(table: map<Name, Addr>, own: Addr, a: Addr)
  {
    a in table.Values && a != own
  }

  /**
    `other_random_target`: no target when the node is the only member,
    otherwise a table address other than the own one.  The source samples
    uniformly at random until it hits such an address; here the pick is a
    nondeterministic choice.  An empty table makes the sampling panic and a
    table whose every address is `own` makes it loop forever, so both are
    excluded.
   */
  method OtherRandomTarget(table: map<Name, Addr>, own: Addr) returns (target: Option<Addr>)
    requires |table| == 1 || HasOtherAddress(table, own)
    ensures target.None? <==> |table| == 1
    ensures target.Some? ==> IsOtherTarget(table, own, target.value)
  {
    if |table| == 1 {
      return None;
    }
    var n :| n in table && table[n] != own;
    target := Some(table[n]);
  }

  /**
    A table of one member holding the own address has no other address, so
    for it the requires of `OtherRandomTarget` holds only through its size-1
    case: without the early return the sampling would never end.  A newly
    created network is such a table (`Scenarios.AloneStoresWithoutCopy`).
   */
  lemma SingletonHasNoOther(table: map<Name, Addr>, own: Addr)
    requires |table| == 1 && own in table.Values
    ensures !HasOtherAddress(table, own)
  {
    var n :| n in table && table[n] == own;
    forall m | m in table ensures m == n {
      var rest := table.Keys - {n};
      assert |rest| == 0;
      assert m !in rest;
    }
  }

  /** What one heartbeat tick does. */
  datatype HeartbeatAction =
    | Skip          // the node is alone
    | ProbeAll      // probe every member
    | NotYetDone    // larger networks: the branch is still a TODO in the source

  /** The size thresholds of `start_heartbeat`. */
  function HeartbeatDecision(networkSize: nat): (a: HeartbeatAction)
    ensures a == Skip <==> networkSize == 1
    ensures a == ProbeAll <==> networkSize != 1 && networkSize < 4
    ensures a == NotYetDone <==> networkSize >= 4
  {
    if networkSize == 1 then Skip
    else if networkSize < 4 then ProbeAll
    else NotYetDone
  }

  /**
    The addresses one heartbeat tick connects to: every member (the node
    itself included) when the table has fewer than four members and more
    than one; none otherwise.
   */
  method HeartbeatProbes(table: map<Name, Addr>) returns (probes: seq<Addr>)
    ensures HeartbeatDecision(|table|) == ProbeAll ==> ListsValues(probes, table)
    ensures HeartbeatDecision(|table|) != ProbeAll ==> probes == []
  {
    match HeartbeatDecision(|table|)
    case Skip =>
      probes := [];
    case ProbeAll =>
      probes := CollectValues(table);
    case NotYetDone =>
      probes := [];
  }
}
