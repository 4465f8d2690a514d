/** internal/dht/dht.go: the parts of the node that replace or refill its routing table. */
module Dht {
  import opened Bytes
  import opened Value
  import opened Encoder
  import opened NodeIDs
  import opened Buckets
  import opened Tables
  import opened RoutingTables
  import opened Rebuild
  import opened CompactNodes
  import opened Persistence

  /** 15 minutes, in the unit of `lastSeen`. */
  const REFRESH_INTERVAL: int := 900

  /** Nodes with their BEP 42 flag computed anew. */
  function Revalidated(nodes: seq<Node>, bep42: bool, compliant: (NodeID, IPv4) -> bool): (r: seq<Node>)
    ensures |r| == |nodes|
    ensures forall k :: 0 <= k < |nodes| ==> r[k] == Recheck(nodes[k], bep42, compliant)
    ensures forall k :: 0 <= k < |nodes| ==>
              && r[k].id == nodes[k].id && r[k].addr == nodes[k].addr
              && r[k].lastSeen == nodes[k].lastSeen && r[k].failCount == nodes[k].failCount
              && r[k].compliant == if bep42 then compliant(nodes[k].id, nodes[k].addr.ip) else nodes[k].compliant
  {
    seq(|nodes|, k requires 0 <= k < |nodes| => Recheck(nodes[k], bep42, compliant))
  }

  function Recheck(n: Node, bep42: bool, compliant: (NodeID, IPv4) -> bool): Node {
    if bep42 then n.(compliant := compliant(n.id, n.addr.ip)) else n
  }

  /**
   * One run of `regenerateCompliantID`: the new identifier is `None` where generation fails, and `others(i)` is what
   * other goroutines do to the new table before the insertion of node `i`.
   */
  datatype Regeneration = Regeneration(ip: IPv4, newID: Option<NodeID>, bep42: bool,
                                       compliant: (NodeID, IPv4) -> bool, others: nat -> seq<Op>)

  /** The table that a regeneration fills from a snapshot. */
  function Refilled(g: Regeneration, snapshot: seq<Node>): (t: Table)
    requires g.newID.Some?
    ensures |t.buckets| == ID_BITS && t.self == g.newID.value
  {
    var nodes := Revalidated(snapshot, g.bep42, g.compliant);
    InsertAmid(Empty(g.newID.value), nodes, g.others, |nodes|)
  }

  class DHT {
    var id: NodeID
    var externalIP: Option<IPv4>
    var table: RoutingTable

    ghost predicate Valid()
      reads this, table, table.buckets
    {
      table.Valid() && table.self == id
    }

    /** `NewDHT` up to the network: random and BEP 42 identifiers are parameters, `None` where generation fails. */
    constructor Restore(randomID: NodeID, saved: Loaded, bep42: bool, configIP: Option<IPv4>, compliantID: Option<NodeID>)
      ensures Valid() && fresh(table) && fresh(table.buckets)
      ensures var nodes := if saved.State? then saved.nodes else [];
              var regenerate := nodes == [] && bep42 && configIP.Some? && compliantID.Some?;
              && id == (if regenerate then compliantID.value else if saved.State? then saved.id else randomID)
              && externalIP == (if regenerate then configIP else if saved.State? then saved.externalIP else None)
              && table.View() == InsertAll(Empty(id), nodes)
    {
      var self := randomID;
      var savedNodes: seq<Node> := [];
      var savedIP: Option<IPv4> := None;
      if saved.State? {
        self := saved.id;
        savedNodes := saved.nodes;
        savedIP := saved.externalIP;
      }
      if |savedNodes| == 0 && bep42 && configIP.Some? {
        if compliantID.Some? {
          self := compliantID.value;
          savedIP := configIP;
        }
      }
      var t := Fill(self, savedNodes);
      id := self;
      externalIP := savedIP;
      table := t;
    }

    /**
     * Identifier and external address are read after the snapshot, without a common lock: `overtaken` is a regeneration
     * in between, if there is one.
     */
    method Save(overtaken: Option<Regeneration>) returns (data: seq<byte>)
      requires Valid()
      modifies this
      ensures Valid()
      ensures overtaken.None? || overtaken.value.newID.None? ==>
                id == old(id) && externalIP == old(externalIP) && table == old(table)
      ensures overtaken.Some? && overtaken.value.newID.Some? ==>
                && id == overtaken.value.newID.value && externalIP == Some(overtaken.value.ip) && fresh(table)
                && table.View() == Refilled(overtaken.value, old(Flat(table.View().buckets, ID_BITS)))
      ensures var d := StateDict(id, old(Flat(table.View().buckets, ID_BITS)), externalIP);
              Supported(d) && data == Enc(d)
    {
      hide Inv, Supported, Enc, RoutingTable.View, Compact, Flat, Refilled;
      var nodes := table.Snapshot();
      if overtaken.Some? {
        RegenerateCompliantID(overtaken.value);
      }
      var compact := EncodeNodes(nodes);
      var d := map[KEY_ID := Str(ToBytes(id)), KEY_NODES := Str(compact)];
      if externalIP.Some? {
        d := d[KEY_EXTERNAL_IP := Str(externalIP.value)];
      }
      var r := Encode(Dict(d));
      StateSupported(id, nodes, externalIP);
      data := r.text;
    }

    /** The empty table is installed first and then filled. */
    method RegenerateCompliantID(g: Regeneration)
      requires Valid()
      modifies this
      ensures Valid()
      ensures g.newID.None? ==> id == old(id) && externalIP == old(externalIP) && table == old(table)
      ensures g.newID.Some? ==>
                && id == g.newID.value && externalIP == Some(g.ip) && fresh(table) && fresh(table.buckets)
                && table.View() == Refilled(g, old(Flat(table.View().buckets, ID_BITS)))
    {
      hide Inv, RoutingTable.View, InsertAmid, Flat, Revalidated;
      if g.newID.None? {
        return;
      }
      var nodes := table.Snapshot();
      id := g.newID.value;
      externalIP := Some(g.ip);
      table := new RoutingTable(g.newID.value);
      Refill(table, Revalidated(nodes, g.bep42, g.compliant), g.others);
    }

    /**
     * One ping; `responded` is its outcome, and `others` what other goroutines do to the table between the removal and
     * the insertion.
     */
    method ReplaceIfDead(oldest: Node, replacement: Node, now: int, responded: bool, others: seq<Op>)
      requires Valid()
      modifies table.buckets
      ensures Valid() && table == old(table) && id == old(id)
      ensures table.View() ==
                if now - oldest.lastSeen < 900 || responded then old(table.View())
                else InsertTable(Applied(RemoveTable(old(table.View()), oldest.id), others), replacement)
    {
      hide Inv, RoutingTable.View, InsertTable, RemoveTable, Applied;
      if now - oldest.lastSeen < REFRESH_INTERVAL {
        return;
      }
      if !responded {
        var _ := table.Remove(oldest);
        Interleave(table, others);
        var _, _ := table.Insert(replacement);
      }
    }
  }

  /** The loop of `regenerateCompliantID`. */
  method Refill(table: RoutingTable, nodes: seq<Node>, others: nat -> seq<Op>)
    requires table.Valid()
    modifies table.buckets
    ensures table.Valid() && table.View() == InsertAmid(old(table.View()), nodes, others, |nodes|)
  {
    hide Inv, RoutingTable.View, InsertTable, Applied;
    for i := 0 to |nodes|
      invariant table.Valid() && table.View() == InsertAmid(old(table.View()), nodes, others, i)
    {
      Interleave(table, others(i));
      var _, _ := table.Insert(nodes[i]);
    }
  }

  /** A new table and the loop that inserts every node. */
  method Fill(self: NodeID, nodes: seq<Node>) returns (t: RoutingTable)
    ensures fresh(t) && fresh(t.buckets) && t.self == self && t.Valid()
    ensures t.View() == InsertAll(Empty(self), nodes)
  {
    hide Inv, InsertTable, RoutingTable.View;
    t := new RoutingTable(self);
    assert nodes[..0] == [];
    for i := 0 to |nodes|
      invariant t.Valid() && t.View() == InsertAll(Empty(self), nodes[..i])
    {
      InsertAllStep(Empty(self), nodes, i);
      var _, _ := t.Insert(nodes[i]);
    }
    assert nodes[..|nodes|] == nodes;
  }

  /**
   * After regeneration: the table is in order for the new identifier, whatever came in between. If nothing did, it holds
   * only nodes the old one held, and a node fell out only where its new bucket is full, a compliant one only where it is
   * full of compliant ones.
   */
  lemma RegenerationKeepsBest(t: Table, g: Regeneration)
    requires Inv(t) && g.newID.Some?
    ensures var snapshot := Flat(t.buckets, ID_BITS);
            var t' := Refilled(g, snapshot);
            && Inv(t')
            && ((forall i: nat :: g.others(i) == []) ==>
                 forall i :: 0 <= i < ID_BITS ==>
                   KeepsBest(t'.self, i, Revalidated(snapshot, g.bep42, g.compliant), t'.buckets[i]))
  {
    hide BucketInv, KeepsBest, InsertAll, InsertAmid;
    var newID := g.newID.value;
    var before := Flat(t.buckets, ID_BITS);
    var nodes := Revalidated(before, g.bep42, g.compliant);
    SnapshotDistinct(t);
    assert DistinctIDs(nodes);
    EmptyInv(newID);
    InsertAmidInv(Empty(newID), nodes, g.others, |nodes|);
    if forall i: nat :: g.others(i) == [] {
      InsertAmidNothing(Empty(newID), nodes, g.others, |nodes|);
      assert nodes[..|nodes|] == nodes;
      forall i | 0 <= i < ID_BITS ensures KeepsBest(newID, i, nodes, InsertAll(Empty(newID), nodes).buckets[i]) {
        FreshTableKeepsBest(newID, nodes, i);
      }
    }
  }

  /** Unless the table changes between the two steps, the dead node is gone and the replacement is never refused. */
  lemma DeadIsReplaced(t: Table, oldest: Node, replacement: Node)
    requires Inv(t) && CommonBits(t.self, oldest.id) == CommonBits(t.self, replacement.id) < ID_BITS
    requires HasID(t.buckets[CommonBits(t.self, oldest.id)], oldest.id)
    requires oldest.id != replacement.id
    ensures var mid := RemoveTable(t, oldest.id);
            Accepts(mid, replacement)
            && var bucket := InsertTable(mid, replacement).buckets[CommonBits(t.self, oldest.id)];
               replacement in bucket && !HasID(bucket, oldest.id)
  {
    hide CommonBits, InsertNodes, Find, FindNonCompliant, Evicts, InsertOutcome;
    var nodes := t.buckets[CommonBits(t.self, oldest.id)];
    InvAt(t, CommonBits(t.self, oldest.id));
    var rest := RemoveNodes(nodes, oldest.id);
    RemoveMeaning(nodes, oldest.id);
    RoomAfterRemoval(nodes, oldest.id);
    RefusedExactly(rest, replacement);
    AcceptedExactly(rest, replacement);
  }

  lemma RoomAfterRemoval(nodes: seq<Node>, id: NodeID)
    requires HasID(nodes, id)
    ensures |RemoveNodes(nodes, id)| == |nodes| - 1
  {
    hide Find;
    assert Find(nodes, id, 0) < |nodes|;
  }
}
