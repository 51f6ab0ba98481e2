/** The node list of the router: a fixed array of slots, changed in place. */
module Router {
  import opened Wire
  import opened Seqs
  import opened RouterSpec

  class RoutingTable {
    /** nodesMap: allocated once; its length is the table capacity. */
    const slots: array<NodeEntry>

    ghost predicate Valid()
      reads slots
    {
      0 < slots.Length <= 255 && TableOk(slots[..])
    }

    /** The table as initMesh leaves it: every slot zeroed. */
    constructor (capacity: nat)
      requires 0 < capacity <= 255
      ensures Valid() && fresh(slots)
      ensures slots[..] == EmptyTable(capacity)
    {
      slots := new NodeEntry[capacity](_ => EMPTY_ENTRY);
      new;
      assert slots[..] == EmptyTable(capacity);
      EmptyTableOk(capacity);
    }

    /** deleteRoute: moves the slots after index down by one and clears the last nodeId. */
    method DeleteRoute(index: nat)
      requires index < slots.Length
      modifies slots
      ensures slots[..] == DeleteAt(old(slots[..]), index)
      ensures forall t | 0 <= t < index :: slots[t] == old(slots[t])
      ensures forall t | index <= t < slots.Length - 1 :: slots[t] == old(slots[t + 1])
      ensures slots[slots.Length - 1] == old(slots[slots.Length - 1]).(nodeId := 0)
      ensures old(Valid()) ==> Valid()
    {
      ghost var s0 := slots[..];
      var j := index;
      while j < slots.Length - 1
        invariant index <= j <= slots.Length - 1
        invariant forall t | 0 <= t < index :: slots[t] == s0[t]
        invariant forall t | index <= t < j :: slots[t] == s0[t + 1]
        invariant forall t | j <= t < slots.Length :: slots[t] == s0[t]
      {
        slots[j] := slots[j + 1];
        j := j + 1;
      }
      slots[slots.Length - 1] := slots[slots.Length - 1].(nodeId := 0);
      assert slots[..] == DeleteAt(s0, index);
      if 0 < |s0| <= 255 && TableOk(s0) {
        DeleteAtKeepsTable(s0, index);
      }
    }

    /**
     * getRoute: scans every slot for id. The caller's route keeps its other fields, and is left
     * untouched when nothing is found.
     */
    method GetRoute(id: u32, route: NodeEntry) returns (found: bool, route': NodeEntry)
      requires Valid()
      ensures found <==> FindId(slots[..], id) < slots.Length
      ensures id != 0 ==> (found <==> exists j | 0 <= j < Count(slots[..]) :: slots[j].nodeId == id)
      ensures found ==> route' == route.(nodeId := id, firstHop := slots[FindId(slots[..], id)].firstHop)
      ensures !found ==> route' == route
    {
      var idx := 0;
      while idx < slots.Length
        invariant 0 <= idx <= slots.Length
        invariant forall t | 0 <= t < idx :: slots[t].nodeId != id
      {
        if slots[idx].nodeId == id {
          FindIdAt(slots[..], id, idx);
          return true, route.(nodeId := slots[idx].nodeId, firstHop := slots[idx].firstHop);
        }
        idx := idx + 1;
      }
      FindIdAt(slots[..], id, slots.Length);
      return false, route;
    }

    /** addNode: see AddNodeSpec for the policy and its lemmas for what it means for the rows. */
    method AddNode(id: u32, hop: u32, hopNum: byte, now: int) returns (changed: bool)
      requires Valid()
      modifies slots
      ensures Valid()
      ensures AddResult(slots[..], changed) == AddNodeSpec(old(slots[..]), id, hop, hopNum, now)
    {
      ghost var s0 := slots[..];
      AddNodeKeepsTable(s0, id, hop, hopNum, now);
      var newNode := NodeEntry(id, hop, now, hopNum);
      var idx := 0;
      while idx < slots.Length && slots[idx].nodeId != id
        invariant 0 <= idx <= slots.Length
        invariant forall t | 0 <= t < idx :: slots[t].nodeId != id
      {
        idx := idx + 1;
      }
      FindIdAt(s0, id, idx);
      if idx < slots.Length {
        if slots[idx].firstHop == 0 {
          if hop == 0 {
            slots[idx] := slots[idx].(timeStamp := now);
          }
          return false;
        }
        if hop != 0 && slots[idx].numHops < hopNum {
          return false;
        }
        DeleteRoute(idx);
      }
      Store(newNode);
      changed := true;
    }

    /**
     * The tail of addNode: e goes into the first empty slot; when there is none, row 0 is
     * evicted and e takes the slot this frees, the last one.
     */
    method Store(e: NodeEntry)
      requires 0 < slots.Length
      modifies slots
      ensures slots[..] == Insert(old(slots[..]), e)
    {
      ghost var s1 := slots[..];
      var newEntry := 0;
      while newEntry < slots.Length && slots[newEntry].nodeId != 0
        invariant 0 <= newEntry <= slots.Length
        invariant forall t | 0 <= t < newEntry :: slots[t].nodeId != 0
      {
        newEntry := newEntry + 1;
      }
      FindIdAt(s1, 0, newEntry);
      if newEntry == slots.Length {
        DeleteRoute(0);
        newEntry := slots.Length - 1;
      }
      slots[newEntry] := e;
    }

    /** clearSubs: removes the rows whose first hop is id, scanning the occupied rows. */
    method ClearSubs(id: u32)
      requires Valid()
      modifies slots
      ensures Valid()
      ensures slots[..] == ClearFrom(old(slots[..]), id, 0)
    {
      ghost var s0 := slots[..];
      ClearSubsRemovesDependants(s0, id);
      var idx := 0;
      while idx < slots.Length && slots[idx].nodeId != 0
        invariant idx <= Count(slots[..])
        invariant ClearFrom(slots[..], id, idx) == ClearFrom(s0, id, 0)
        decreases Count(slots[..]) - idx
      {
        if slots[idx].firstHop == id {
          DeleteAtRows(slots[..], idx);
          DeleteRoute(idx);
        } else {
          idx := idx + 1;
        }
      }
      FindIdAt(slots[..], 0, idx);
    }

    /**
     * cleanMap at time now: drops timed-out rows, and the rows routed through a timed-out direct
     * neighbour; returns true when nothing was dropped.
     */
    method CleanMap(now: int) returns (upToDate: bool)
      requires Valid()
      modifies slots
      ensures Valid()
      ensures CleanResult(slots[..], upToDate) == CleanFrom(old(slots[..]), now, 0, true)
    {
      ghost var s0 := slots[..];
      upToDate := true;
      var idx := 0;
      while idx < slots.Length && slots[idx].nodeId != 0
        invariant Valid()
        invariant idx <= Count(slots[..])
        invariant CleanFrom(slots[..], now, idx, upToDate) == CleanFrom(s0, now, 0, true)
        decreases Count(slots[..]), slots.Length - idx
      {
        if now > slots[idx].timeStamp + INACTIVE_TIMEOUT {
          DeleteAtRows(slots[..], idx);
          if slots[idx].firstHop == 0 {
            var id := slots[idx].nodeId;
            DeleteRoute(idx);
            ClearSubs(id);
            idx := 0;
          } else {
            DeleteRoute(idx);
          }
          upToDate := false;
        } else {
          idx := idx + 1;
        }
      }
      FindIdAt(slots[..], 0, idx);
    }

    /** numOfNodes: the number of rows before the first empty slot. */
    method NumOfNodes() returns (n: byte)
      requires Valid()
      ensures n as int == Count(slots[..]) == |Rows(slots[..])|
      ensures forall j | 0 <= j < n :: slots[j].nodeId != 0
      ensures n < slots.Length ==> slots[n].nodeId == 0
    {
      var idx := 0;
      while idx < slots.Length && slots[idx].nodeId != 0
        invariant 0 <= idx <= slots.Length
        invariant forall t | 0 <= t < idx :: slots[t].nodeId != 0
      {
        idx := idx + 1;
      }
      FindIdAt(slots[..], 0, idx);
      n := idx;
    }

    /**
     * getNode: row k of the table, if k is below the row count.  The three outputs stand for
     * the caller's reference arguments, whose values come in as id0, hop0 and hops0 and are
     * left unchanged when k is out of range.
     */
    method GetNode(k: byte, id0: u32, hop0: u32, hops0: byte) returns (ok: bool, nodeId: u32, firstHop: u32, numHops: byte)
      requires Valid()
      ensures ok <==> k < Count(slots[..])
      ensures ok ==> nodeId == slots[k].nodeId && firstHop == slots[k].firstHop && numHops == slots[k].numHops
      ensures ok ==> slots[k] in Rows(slots[..])
      ensures !ok ==> nodeId == id0 && firstHop == hop0 && numHops == hops0
    {
      var n := NumOfNodes();
      if k >= n {
        return false, id0, hop0, hops0;
      }
      assert slots[k] == Rows(slots[..])[k];
      return true, slots[k].nodeId, slots[k].firstHop, slots[k].numHops;
    }

    /** nodeMap(subs, hops): the ids and hop counts of the rows, as two parallel arrays. */
    method NodeMapLists(subs: array<u32>, hops: array<byte>) returns (n: byte)
      requires Valid() && Count(slots[..]) <= subs.Length && Count(slots[..]) <= hops.Length
      modifies subs, hops
      ensures n as int == Count(slots[..])
      ensures forall j | 0 <= j < n :: subs[j] == Rows(slots[..])[j].nodeId && hops[j] == Rows(slots[..])[j].numHops
      ensures forall j | n <= j < subs.Length :: subs[j] == old(subs[j])
      ensures forall j | n <= j < hops.Length :: hops[j] == old(hops[j])
    {
      var idx := 0;
      while idx < slots.Length && slots[idx].nodeId != 0
        invariant 0 <= idx <= Count(slots[..])
        invariant forall t | 0 <= t < idx :: subs[t] == slots[t].nodeId && hops[t] == slots[t].numHops
        invariant forall t | idx <= t < subs.Length :: subs[t] == old(subs[t])
        invariant forall t | idx <= t < hops.Length :: hops[t] == old(hops[t])
      {
        hops[idx] := slots[idx].numHops;
        subs[idx] := slots[idx].nodeId;
        idx := idx + 1;
      }
      FindIdAt(slots[..], 0, idx);
      n := idx;
    }

    /**
     * nodeMap(nodes): writes the rows into the advertisement buffer from offset base, five bytes
     * each (nodeId little-endian, then numHops), and returns how many it wrote.
     */
    method NodeMap(nodes: array<byte>, base: nat) returns (n: byte)
      requires Valid() && base + ROW_SIZE * Count(slots[..]) <= nodes.Length
      modifies nodes
      ensures n as int == Count(slots[..])
      ensures nodes[..] == old(nodes[..base]) + EncodeRows(AdvertRows(Rows(slots[..])))
                           + old(nodes[base + ROW_SIZE * n as int..])
    {
      ghost var rows := Rows(slots[..]);
      ghost var o := nodes[..];
      var idx := 0;
      while idx < slots.Length && slots[idx].nodeId != 0
        invariant 0 <= idx <= Count(slots[..])
        invariant nodes[..] == o[..base] + EncodeRows(AdvertRows(rows[..idx])) + o[base + ROW_SIZE * idx..]
      {
        var e := slots[idx];
        var at := base + ROW_SIZE * idx;
        ghost var x := nodes[..];
        WriteRow(nodes, at, e);
        AdvertRowsSnoc(rows, idx);
        SpliceRow(o, base, AdvertRows(rows[..idx]), Row(e.nodeId, e.numHops), at, x);
        idx := idx + 1;
      }
      FindIdAt(slots[..], 0, idx);
      assert rows[..idx] == rows;
      n := idx;
    }
  }

  /** One advertisement row: bytes 0-3 the nodeId, least significant first, byte 4 the hop count. */
  method WriteRow(nodes: array<byte>, at: nat, e: NodeEntry)
    requires at + ROW_SIZE <= nodes.Length
    modifies nodes
    ensures nodes[..] == old(nodes[..at]) + EncodeRow(Row(e.nodeId, e.numHops)) + old(nodes[at + ROW_SIZE..])
  {
    var q1 := e.nodeId / 256;
    var q2 := q1 / 256;
    nodes[at] := e.nodeId % 256;
    nodes[at + 1] := q1 % 256;
    nodes[at + 2] := q2 % 256;
    nodes[at + 3] := q2 / 256;
    nodes[at + 4] := e.numHops;
    assert nodes[..] == old(nodes[..at]) + EncodeRow(Row(e.nodeId, e.numHops)) + old(nodes[at + ROW_SIZE..]);
  }
}
