/**
 The node directory of the onion-routing simulation: a table of
 `{nodeId, pubKey}` records that starts empty, is updated by an
 insert-or-update keyed on `nodeId`, and is handed out whole on request.
 The HTTP handlers around the table are not modelled; `NodeRegistry`
 is the table itself and its two operations.
 */
module Registry {

  /** One registered relay: its identifier and its public key (base64 text). */
  datatype Node = Node(nodeId: int, pubKey: string)

  /** What the registration reports back: an existing entry was updated,
      or a new entry was appended. */
  datatype Outcome = NodeUpdated | NodeRegistered

  // ---------------------------------------------------------------------
  // Specification of the table
  // ---------------------------------------------------------------------

  /** The index of the first node whose `nodeId` is `nodeId`, or -1 when
      there is none (the meaning of `Array.prototype.findIndex`). */
  function FirstIndex(nodes: seq<Node>, nodeId: int): (r: int)
    ensures -1 <= r < |nodes|
    ensures r == -1 <==> forall i :: 0 <= i < |nodes| ==> nodes[i].nodeId != nodeId
    ensures r != -1 ==> nodes[r].nodeId == nodeId
    ensures r != -1 ==> forall i :: 0 <= i < r ==> nodes[i].nodeId != nodeId
    decreases |nodes|
  {
    if |nodes| == 0 then -1
    else if nodes[0].nodeId == nodeId then 0
    else
      var k := FirstIndex(nodes[1..], nodeId);
      if k == -1 then -1 else k + 1
  }

  /** The table after registering `(nodeId, pubKey)`: the first entry with
      that id gets the new key, or a new record is appended at the end. */
  function Upsert(nodes: seq<Node>, nodeId: int, pubKey: string): (r: seq<Node>)
    ensures FirstIndex(nodes, nodeId) != -1 ==>
      |r| == |nodes| && r[FirstIndex(nodes, nodeId)] == Node(nodeId, pubKey)
    ensures FirstIndex(nodes, nodeId) == -1 ==>
      |r| == |nodes| + 1 && r[|nodes|] == Node(nodeId, pubKey)
    ensures forall j :: 0 <= j < |nodes| && j != FirstIndex(nodes, nodeId) ==> r[j] == nodes[j]
  {
    var index := FirstIndex(nodes, nodeId);
    if index != -1 then nodes[index := nodes[index].(pubKey := pubKey)]
    else nodes + [Node(nodeId, pubKey)]
  }

  /** No two entries share a `nodeId`. */
  ghost predicate DistinctIds(nodes: seq<Node>) {
    forall i, j :: 0 <= i < j < |nodes| ==> nodes[i].nodeId != nodes[j].nodeId
  }

  /** The identifiers present in the table. */
  ghost function Ids(nodes: seq<Node>): set<int> {
    set i | 0 <= i < |nodes| :: nodes[i].nodeId
  }

  /** The table read as a dictionary from id to key, where the first entry
      with a given id is the one that counts (as a lookup by `findIndex` sees it). */
  ghost function ToMap(nodes: seq<Node>): map<int, string>
    decreases |nodes|
  {
    if |nodes| == 0 then map[]
    else ToMap(nodes[1..])[nodes[0].nodeId := nodes[0].pubKey]
  }

  // ---------------------------------------------------------------------
  // Properties of the upsert
  // ---------------------------------------------------------------------

  /** After registering, the first entry carrying `nodeId` sits where the old
      one did (or at the end when there was none) and carries `pubKey`. */
  lemma UpsertFirstMatch(nodes: seq<Node>, nodeId: int, pubKey: string)
    ensures var r := Upsert(nodes, nodeId, pubKey);
            var old_index := FirstIndex(nodes, nodeId);
            FirstIndex(r, nodeId) == (if old_index != -1 then old_index else |nodes|) &&
            r[FirstIndex(r, nodeId)].pubKey == pubKey
  {
  }

  /** Registering the same `(nodeId, pubKey)` twice leaves the table as the
      first registration left it. */
  lemma UpsertIdempotent(nodes: seq<Node>, nodeId: int, pubKey: string)
    ensures Upsert(Upsert(nodes, nodeId, pubKey), nodeId, pubKey) == Upsert(nodes, nodeId, pubKey)
  {
  }

  /** An entry is added only for an id not yet present, so distinct ids stay distinct. */
  lemma UpsertPreservesDistinctIds(nodes: seq<Node>, nodeId: int, pubKey: string)
    requires DistinctIds(nodes)
    ensures DistinctIds(Upsert(nodes, nodeId, pubKey))
  {
  }

  /** Registration adds exactly `nodeId` to the set of known ids. */
  lemma UpsertIds(nodes: seq<Node>, nodeId: int, pubKey: string)
    ensures Ids(Upsert(nodes, nodeId, pubKey)) == Ids(nodes) + {nodeId}
  {
  }

  /** When the head does not carry `nodeId`, the upsert happens in the tail. */
  lemma UpsertTail(nodes: seq<Node>, nodeId: int, pubKey: string)
    requires |nodes| > 0 && nodes[0].nodeId != nodeId
    ensures Upsert(nodes, nodeId, pubKey) == [nodes[0]] + Upsert(nodes[1..], nodeId, pubKey)
  {
  }

  /** Read as a dictionary, the table after registration maps `nodeId` to
      `pubKey` and every other id to what it mapped to before. */
  lemma {:induction false} UpsertAsMap(nodes: seq<Node>, nodeId: int, pubKey: string)
    ensures ToMap(Upsert(nodes, nodeId, pubKey)) == ToMap(nodes)[nodeId := pubKey]
    decreases |nodes|
  {
    if |nodes| == 0 {
    } else if nodes[0].nodeId == nodeId {
      var r := Upsert(nodes, nodeId, pubKey);
      assert r == [Node(nodeId, pubKey)] + nodes[1..];
      assert r[1..] == nodes[1..];
    } else {
      var r := Upsert(nodes, nodeId, pubKey);
      UpsertTail(nodes, nodeId, pubKey);
      assert r[1..] == Upsert(nodes[1..], nodeId, pubKey);
      UpsertAsMap(nodes[1..], nodeId, pubKey);
      assert ToMap(r) == ToMap(nodes[1..])[nodeId := pubKey][nodes[0].nodeId := nodes[0].pubKey];
    }
  }

  // ---------------------------------------------------------------------
  // The table as the source keeps it
  // ---------------------------------------------------------------------

  /** The search `findIndex` performs: a left-to-right scan for the first match. */
  method FindIndex(nodes: seq<Node>, nodeId: int) returns (index: int)
    ensures index == FirstIndex(nodes, nodeId)
  {
    index := 0;
    while index < |nodes|
      invariant 0 <= index <= |nodes|
      invariant forall j :: 0 <= j < index ==> nodes[j].nodeId != nodeId
    {
      if nodes[index].nodeId == nodeId {
        return;
      }
      index := index + 1;
    }
    index := -1;
  }

  /** The module-level registry table, updated in place by registrations. */
  class NodeRegistry {
    var nodes: seq<Node>

    /** Every id appears at most once: registration alone can never create
        a duplicate. */
    ghost predicate Valid()
      reads this
    {
      DistinctIds(nodes)
    }

    /** The table starts empty. */
    constructor ()
      ensures Valid()
      ensures nodes == []
    {
      nodes := [];
    }

    /** Registers `(nodeId, pubKey)`: updates the key of the first entry with
        that id in place, or appends a new record. */
    method Register(nodeId: int, pubKey: string) returns (outcome: Outcome)
      requires Valid()
      modifies this
      ensures Valid()
      ensures outcome == (if nodeId in Ids(old(nodes)) then NodeUpdated else NodeRegistered)
      ensures nodes == Upsert(old(nodes), nodeId, pubKey)
      ensures |nodes| == |old(nodes)| + (if outcome == NodeRegistered then 1 else 0)
      ensures ToMap(nodes) == ToMap(old(nodes))[nodeId := pubKey]
    {
      UpsertPreservesDistinctIds(nodes, nodeId, pubKey);
      UpsertAsMap(nodes, nodeId, pubKey);
      var index := FindIndex(nodes, nodeId);
      if index != -1 {
        assert nodes[index].nodeId == nodeId;
        nodes := nodes[index := nodes[index].(pubKey := pubKey)];
        outcome := NodeUpdated;
      } else {
        nodes := nodes + [Node(nodeId, pubKey)];
        outcome := NodeRegistered;
      }
    }

    /** The whole table, in insertion order; reading it changes nothing. */
    method GetNodes() returns (result: seq<Node>)
      ensures result == nodes
    {
      result := nodes;
    }
  }
}
