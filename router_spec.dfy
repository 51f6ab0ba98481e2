/**
 * The routing table as a value: a fixed number of slots whose occupied rows form a prefix,
 * and the table operations of the router as functions on that value. The class in router.dfy
 * is proved against these functions; the lemmas here say what the operations mean.
 */
module RouterSpec {
  import opened Wire
  import opened Seqs

  /** One slot of the table. A nodeId of 0 marks the slot as empty; firstHop 0 marks a direct neighbour. */
  datatype NodeEntry = NodeEntry(nodeId: u32, firstHop: u32, timeStamp: int, numHops: byte)

  const EMPTY_ENTRY: NodeEntry := NodeEntry(0, 0, 0, 0)

  /** Milliseconds after which a row that was not refreshed is dropped. */
  const INACTIVE_TIMEOUT: int := 120000

  function EmptyTable(n: nat): (s: seq<NodeEntry>)
    ensures |s| == n && forall j | 0 <= j < n :: s[j] == EMPTY_ENTRY
  {
    seq(n, _ => EMPTY_ENTRY)
  }

  /** Index of the first slot holding id, scanning every slot; |s| when there is none. */
  function FindId(s: seq<NodeEntry>, id: u32): (i: nat)
    ensures i <= |s|
    ensures forall j | 0 <= j < i :: s[j].nodeId != id
    ensures i < |s| ==> s[i].nodeId == id
  {
    if s == [] then 0 else if s[0].nodeId == id then 0 else 1 + FindId(s[1..], id)
  }

  lemma FindIdAt(s: seq<NodeEntry>, id: u32, k: nat)
    requires k <= |s|
    requires forall j | 0 <= j < k :: s[j].nodeId != id
    requires k < |s| ==> s[k].nodeId == id
    ensures FindId(s, id) == k
  {
  }

  /** Number of rows: the slots before the first empty one. */
  function Count(s: seq<NodeEntry>): (n: nat)
    ensures n <= |s|
    ensures forall j | 0 <= j < n :: s[j].nodeId != 0
    ensures n < |s| ==> s[n].nodeId == 0
  {
    FindId(s, 0)
  }

  /** The occupied rows, in table order. */
  function Rows(s: seq<NodeEntry>): (rows: seq<NodeEntry>)
    ensures |rows| == Count(s) <= |s|
  {
    s[..Count(s)]
  }

  lemma RowsOccupied(s: seq<NodeEntry>)
    ensures forall x | x in Rows(s) :: x.nodeId != 0
  {
  }

  /** Every slot after the rows is empty. */
  ghost predicate Compact(s: seq<NodeEntry>)
  {
    forall j | Count(s) <= j < |s| :: s[j].nodeId == 0
  }

  function DistinctIds(a: NodeEntry, b: NodeEntry): bool
  {
    a.nodeId != b.nodeId
  }

  /** The shape every operation keeps: compact, and no node listed twice. */
  ghost predicate TableOk(s: seq<NodeEntry>)
  {
    Compact(s) && Pairwise(Rows(s), DistinctIds)
  }

  lemma EmptyTableOk(n: nat)
    ensures Count(EmptyTable(n)) == 0 && TableOk(EmptyTable(n)) && HopsFirst(Rows(EmptyTable(n)))
  {
    if n > 0 {
      FindIdAt(EmptyTable(n), 0, 0);
    }
  }

  /** The (nodeId, numHops) pairs a table advertises, one per row, in table order. */
  function AdvertRows(rows: seq<NodeEntry>): (r: seq<Row>)
    ensures |r| == |rows|
    ensures forall k | 0 <= k < |rows| :: r[k] == Row(rows[k].nodeId, rows[k].numHops)
  {
    seq(|rows|, k requires 0 <= k < |rows| => Row(rows[k].nodeId, rows[k].numHops))
  }

  /** The advertised rows of a prefix grow one row at a time. */
  lemma AdvertRowsSnoc(rows: seq<NodeEntry>, k: nat)
    requires k < |rows|
    ensures AdvertRows(rows[..k + 1]) == AdvertRows(rows[..k]) + [Row(rows[k].nodeId, rows[k].numHops)]
  {
  }

  // ---------------------------------------------------------------- deleteRoute

  /**
   * Removing slot i: the slots after it move down by one and the last slot keeps its old
   * contents except that its nodeId is cleared (its firstHop, timestamp and hop count stay).
   */
  function DeleteAt(s: seq<NodeEntry>, i: nat): (r: seq<NodeEntry>)
    requires i < |s|
    ensures |r| == |s|
    ensures forall j | 0 <= j < i :: r[j] == s[j]
    ensures forall j | i <= j < |s| - 1 :: r[j] == s[j + 1]
    ensures r[|s| - 1] == s[|s| - 1].(nodeId := 0)
  {
    s[..i] + s[i + 1..] + [s[|s| - 1].(nodeId := 0)]
  }

  /** What removing a slot does to the rows. */
  lemma DeleteAtRows(s: seq<NodeEntry>, i: nat)
    requires i < |s|
    ensures i < Count(s) ==>
      Count(DeleteAt(s, i)) == Count(s) - 1 && Rows(DeleteAt(s, i)) == Rows(s)[..i] + Rows(s)[i + 1..]
    ensures Compact(s) && Count(s) <= i ==> Count(DeleteAt(s, i)) == Count(s) && Rows(DeleteAt(s, i)) == Rows(s)
    ensures Compact(s) ==> Compact(DeleteAt(s, i))
  {
    var r := DeleteAt(s, i);
    var c := Count(s);
    if i < c {
      if c < |s| {
        assert r[c - 1] == s[c];
      }
      FindIdAt(r, 0, c - 1);
      assert Rows(r) == Rows(s)[..i] + Rows(s)[i + 1..];
    } else if Compact(s) {
      FindIdAt(r, 0, c);
      assert Rows(r) == Rows(s);
    }
  }

  lemma DeleteAtKeepsTable(s: seq<NodeEntry>, i: nat)
    requires i < |s| && TableOk(s)
    ensures TableOk(DeleteAt(s, i))
  {
    DeleteAtRows(s, i);
    if i < Count(s) {
      PairwiseDrop(Rows(s), i, DistinctIds);
    }
  }

  // ---------------------------------------------------------------- addNode

  /**
   * The insertion step of addNode: the new row goes into the first empty slot; when there is
   * none the row at index 0 is evicted and the new row takes the slot that frees at the end.
   */
  function Insert(s: seq<NodeEntry>, e: NodeEntry): (r: seq<NodeEntry>)
    requires |s| > 0
    ensures |r| == |s|
  {
    var k := FindId(s, 0);
    if k < |s| then s[k := e] else DeleteAt(s, 0)[|s| - 1 := e]
  }

  lemma InsertRows(s: seq<NodeEntry>, e: NodeEntry)
    requires |s| > 0 && Compact(s) && e.nodeId != 0
    ensures Compact(Insert(s, e))
    ensures Count(s) < |s| ==> Rows(Insert(s, e)) == Rows(s) + [e]
    ensures Count(s) == |s| ==> Rows(Insert(s, e)) == Rows(s)[1..] + [e]
  {
    var r := Insert(s, e);
    var c := Count(s);
    if c < |s| {
      FindIdAt(r, 0, c + 1);
      assert Rows(r) == Rows(s) + [e];
    } else {
      DeleteAtRows(s, 0);
      FindIdAt(r, 0, |s|);
      assert Rows(r) == Rows(s)[1..] + [e];
    }
  }

  /** Inserting a node that is not listed yet (or an empty row) keeps the table's shape. */
  lemma InsertKeepsTable(s: seq<NodeEntry>, e: NodeEntry)
    requires |s| > 0 && TableOk(s)
    requires forall j | 0 <= j < Count(s) :: s[j].nodeId != e.nodeId
    ensures TableOk(Insert(s, e))
  {
    var r := Insert(s, e);
    var c := Count(s);
    if e.nodeId != 0 {
      InsertRows(s, e);
      var rows := if c < |s| then Rows(s) else Rows(s)[1..];
      if c == |s| {
        PairwiseTail(Rows(s), DistinctIds);
      }
      assert forall j | 0 <= j < |rows| :: DistinctIds(rows[j], e) by {
        forall j | 0 <= j < |rows|
          ensures DistinctIds(rows[j], e)
        {
          if c < |s| {
            assert rows[j] == s[j];
          } else {
            assert rows[j] == s[j + 1];
          }
        }
      }
      PairwiseSnoc(rows, e, DistinctIds);
    } else if c < |s| {
      FindIdAt(r, 0, c);
      assert Rows(r) == Rows(s);
    } else {
      DeleteAtRows(s, 0);
      FindIdAt(r, 0, |s| - 1);
      assert Rows(r) == Rows(s)[1..];
      PairwiseTail(Rows(s), DistinctIds);
    }
  }

  datatype AddResult = AddResult(slots: seq<NodeEntry>, changed: bool)

  /**
   * addNode(id, hop, hopNum) at time now. A listed direct neighbour is never replaced (a direct
   * report only refreshes its timestamp); a listed indirect node is replaced when the report is
   * direct or has no more hops than the stored one; an unlisted node is inserted.
   */
  function AddNodeSpec(s: seq<NodeEntry>, id: u32, hop: u32, hopNum: byte, now: int): (r: AddResult)
    requires |s| > 0
    ensures |r.slots| == |s|
  {
    var e := NodeEntry(id, hop, now, hopNum);
    var i := FindId(s, id);
    if i < |s| && s[i].firstHop == 0 then
      AddResult(if hop == 0 then s[i := s[i].(timeStamp := now)] else s, false)
    else if i < |s| && hop != 0 && s[i].numHops < hopNum then
      AddResult(s, false)
    else if i < |s| then
      AddResult(Insert(DeleteAt(s, i), e), true)
    else
      AddResult(Insert(s, e), true)
  }

  /** A listed direct neighbour keeps its row: a direct report refreshes only its timestamp. */
  lemma AddNodeRefreshesDirect(s: seq<NodeEntry>, id: u32, hopNum: byte, now: int, j: nat)
    requires TableOk(s) && j < Count(s) && s[j].nodeId == id && s[j].firstHop == 0
    ensures !AddNodeSpec(s, id, 0, hopNum, now).changed
    ensures Rows(AddNodeSpec(s, id, 0, hopNum, now).slots) == Rows(s)[j := s[j].(timeStamp := now)]
  {
    var r := AddNodeSpec(s, id, 0, hopNum, now).slots;
    FindIdAt(s, id, j);
    FindIdAt(r, 0, Count(s));
    assert Rows(r) == Rows(s)[j := s[j].(timeStamp := now)];
  }

  /** A report through another node never changes a listed direct neighbour. */
  lemma AddNodeDirectWins(s: seq<NodeEntry>, id: u32, hop: u32, hopNum: byte, now: int, j: nat)
    requires TableOk(s) && j < Count(s) && s[j].nodeId == id && s[j].firstHop == 0 && hop != 0
    ensures AddNodeSpec(s, id, hop, hopNum, now) == AddResult(s, false)
  {
    FindIdAt(s, id, j);
  }

  /** A listed indirect node with fewer hops than the report keeps its route. */
  lemma AddNodeKeepsShorterRoute(s: seq<NodeEntry>, id: u32, hop: u32, hopNum: byte, now: int, j: nat)
    requires TableOk(s) && j < Count(s) && s[j].nodeId == id && s[j].firstHop != 0
    requires hop != 0 && s[j].numHops < hopNum
    ensures AddNodeSpec(s, id, hop, hopNum, now) == AddResult(s, false)
  {
    FindIdAt(s, id, j);
  }

  /**
   * A listed indirect node reported directly, or with no more hops than stored, is taken out of
   * its place and appended with the new route.
   */
  lemma AddNodeReroutes(s: seq<NodeEntry>, id: u32, hop: u32, hopNum: byte, now: int, j: nat)
    requires TableOk(s) && j < Count(s) && s[j].nodeId == id && s[j].firstHop != 0
    requires hop == 0 || hopNum <= s[j].numHops
    ensures AddNodeSpec(s, id, hop, hopNum, now).changed
    ensures Rows(AddNodeSpec(s, id, hop, hopNum, now).slots)
         == Rows(s)[..j] + Rows(s)[j + 1..] + [NodeEntry(id, hop, now, hopNum)]
  {
    FindIdAt(s, id, j);
    DeleteAtRows(s, j);
    var d := DeleteAt(s, j);
    InsertRows(d, NodeEntry(id, hop, now, hopNum));
  }

  /**
   * An unlisted node is appended; when every slot is taken the row at index 0 is evicted, and
   * nothing else is removed (rows that route through the evicted node stay).
   */
  lemma AddNodeAppends(s: seq<NodeEntry>, id: u32, hop: u32, hopNum: byte, now: int)
    requires |s| > 0 && TableOk(s) && id != 0
    requires forall j | 0 <= j < Count(s) :: s[j].nodeId != id
    ensures AddNodeSpec(s, id, hop, hopNum, now).changed
    ensures Count(s) < |s| ==>
      Rows(AddNodeSpec(s, id, hop, hopNum, now).slots) == Rows(s) + [NodeEntry(id, hop, now, hopNum)]
    ensures Count(s) == |s| ==>
      Rows(AddNodeSpec(s, id, hop, hopNum, now).slots) == Rows(s)[1..] + [NodeEntry(id, hop, now, hopNum)]
  {
    FindIdAt(s, id, |s|);
    InsertRows(s, NodeEntry(id, hop, now, hopNum));
  }

  /** addNode keeps the table compact and free of duplicates, whatever it is asked to add. */
  lemma AddNodeKeepsTable(s: seq<NodeEntry>, id: u32, hop: u32, hopNum: byte, now: int)
    requires |s| > 0 && TableOk(s)
    ensures TableOk(AddNodeSpec(s, id, hop, hopNum, now).slots)
  {
    var e := NodeEntry(id, hop, now, hopNum);
    var i := FindId(s, id);
    var r := AddNodeSpec(s, id, hop, hopNum, now).slots;
    if i < |s| && s[i].firstHop == 0 {
      if hop == 0 && i >= Count(s) {
        FindIdAt(r, 0, Count(s));
        assert Rows(r) == Rows(s);
      } else if hop == 0 {
        FindIdAt(r, 0, Count(s));
        assert Rows(r) == Rows(s)[i := s[i].(timeStamp := now)];
        assert Pairwise(Rows(r), DistinctIds) by {
          forall a, b | 0 <= a < b < |Rows(r)|
            ensures DistinctIds(Rows(r)[a], Rows(r)[b])
          {
            assert DistinctIds(Rows(s)[a], Rows(s)[b]);
          }
        }
      }
    } else if i < |s| && hop != 0 && s[i].numHops < hopNum {
    } else if i < |s| {
      var d := DeleteAt(s, i);
      DeleteAtKeepsTable(s, i);
      DeleteAtRows(s, i);
      if id != 0 {
        assert forall j | 0 <= j < Count(d) :: d[j].nodeId != id by {
          forall j | 0 <= j < Count(d)
            ensures d[j].nodeId != id
          {
            if j < i {
              assert DistinctIds(Rows(s)[j], Rows(s)[i]);
            } else {
              assert DistinctIds(Rows(s)[i], Rows(s)[j + 1]);
            }
          }
        }
      } else {
        assert forall j | 0 <= j < Count(d) :: d[j].nodeId != id;
      }
      InsertKeepsTable(d, e);
    } else {
      InsertKeepsTable(s, e);
    }
  }

  /**
   * addNode brings in no row but the reported one: every row afterwards was a row before or
   * is a row for id through hop. While a slot is free nothing is evicted, so every other row
   * stays and the table grows by at most one row.
   */
  lemma AddNodeRowsChange(s: seq<NodeEntry>, id: u32, hop: u32, hopNum: byte, now: int)
    requires |s| > 0 && TableOk(s)
    ensures var r := AddNodeSpec(s, id, hop, hopNum, now).slots;
      forall x | x in Rows(r) :: x in Rows(s) || (x.nodeId == id && x.firstHop == hop)
    ensures var r := AddNodeSpec(s, id, hop, hopNum, now).slots;
      Count(s) < |s| ==> Count(r) <= Count(s) + 1 && forall x | x in Rows(s) && x.nodeId != id :: x in Rows(r)
  {
    var i := FindId(s, id);
    if i < |s| && s[i].firstHop == 0 {
      if hop == 0 {
        AddNodeRefreshRows(s, id, hopNum, now);
      }
    } else if i < |s| && hop != 0 && s[i].numHops < hopNum {
    } else if i < |s| && i < Count(s) {
      AddNodeReroutes(s, id, hop, hopNum, now, i);
      MembersOfDrop(Rows(s), i);
    } else if i < |s| {
      AddNodeEmptyRows(s, id, hop, hopNum, now);
    } else if id != 0 {
      AddNodeAppends(s, id, hop, hopNum, now);
      if Count(s) == |s| {
        assert forall x | x in Rows(s)[1..] :: x in Rows(s);
      }
    } else {
      AddNodeEmptyRows(s, id, hop, hopNum, now);
    }
  }

  lemma AddNodeRefreshRows(s: seq<NodeEntry>, id: u32, hopNum: byte, now: int)
    requires |s| > 0 && TableOk(s)
    requires FindId(s, id) < |s| && s[FindId(s, id)].firstHop == 0
    ensures var r := AddNodeSpec(s, id, 0, hopNum, now).slots;
      Count(r) == Count(s)
      && (forall x | x in Rows(r) :: x in Rows(s) || (x.nodeId == id && x.firstHop == 0))
      && (forall x | x in Rows(s) && x.nodeId != id :: x in Rows(r))
  {
    var i := FindId(s, id);
    var r := AddNodeSpec(s, id, 0, hopNum, now).slots;
    FindIdAt(r, 0, Count(s));
    if i < Count(s) {
      AddNodeRefreshesDirect(s, id, hopNum, now, i);
      forall x | x in Rows(r)
        ensures x in Rows(s) || (x.nodeId == id && x.firstHop == 0)
      {
        var m :| 0 <= m < |Rows(r)| && Rows(r)[m] == x;
        if m != i {
          assert Rows(s)[m] == x;
        }
      }
      forall x | x in Rows(s) && x.nodeId != id
        ensures x in Rows(r)
      {
        var m :| 0 <= m < |Rows(s)| && Rows(s)[m] == x;
        assert Rows(r)[m] == x;
      }
    } else {
      assert Rows(r) == Rows(s);
    }
  }

  /** addNode for id 0 (which matches an empty slot) adds no row and evicts at most the oldest. */
  lemma AddNodeEmptyRows(s: seq<NodeEntry>, id: u32, hop: u32, hopNum: byte, now: int)
    requires |s| > 0 && TableOk(s)
    requires var i := FindId(s, id);
      (i < |s| && Count(s) <= i && s[i].firstHop != 0 && (hop == 0 || hopNum <= s[i].numHops))
      || (i == |s| && id == 0)
    ensures var r := AddNodeSpec(s, id, hop, hopNum, now).slots;
      (forall x | x in Rows(r) :: x in Rows(s))
      && (Count(s) < |s| ==> Rows(r) == Rows(s))
      && (Count(s) == |s| ==> Rows(r) == Rows(s)[1..])
  {
    var i := FindId(s, id);
    var e := NodeEntry(id, hop, now, hopNum);
    var r := AddNodeSpec(s, id, hop, hopNum, now).slots;
    if i < |s| {
      assert id == 0 by {
        FindIdAt(s, 0, Count(s));
      }
      DeleteAtRows(s, i);
      var d := DeleteAt(s, i);
      assert r == Insert(d, e);
      assert Count(d) == Count(s) < |d|;
      FindIdAt(r, 0, Count(s));
      assert Rows(r) == Rows(s);
    } else {
      assert Count(s) == |s|;
      DeleteAtRows(s, 0);
      FindIdAt(r, 0, |s| - 1);
      assert Rows(r) == Rows(s)[1..];
      assert forall x | x in Rows(s)[1..] :: x in Rows(s);
    }
  }

  // ---------------------------------------------------------------- clearSubs

  function NotVia(id: u32): NodeEntry -> bool
  {
    (e: NodeEntry) => e.firstHop != id
  }

  /**
   * clearSubs(id) from row k on: every row whose first hop is id is removed, and the scan
   * stays on the same index after a removal. Only the rows are scanned, not the empty slots.
   */
  function ClearFrom(s: seq<NodeEntry>, id: u32, k: nat): (r: seq<NodeEntry>)
    requires k <= Count(s)
    ensures |r| == |s| && Count(r) <= Count(s)
    ensures Compact(s) ==> Compact(r)
    decreases Count(s) - k
  {
    if k == Count(s) then s
    else if s[k].firstHop == id then
      DeleteAtRows(s, k);
      ClearFrom(DeleteAt(s, k), id, k)
    else
      ClearFrom(s, id, k + 1)
  }

  lemma {:induction false} ClearFromRows(s: seq<NodeEntry>, id: u32, k: nat)
    requires k <= Count(s)
    ensures Rows(ClearFrom(s, id, k)) == Rows(s)[..k] + Filter(Rows(s)[k..], NotVia(id))
    decreases Count(s) - k
  {
    var rows := Rows(s);
    if k == Count(s) {
      assert rows[k..] == [];
      assert rows[..k] == rows;
    } else if s[k].firstHop == id {
      ClearDeleteStep(s, id, k);
    } else {
      ClearKeepStep(s, id, k);
    }
  }

  lemma {:induction false} ClearKeepStep(s: seq<NodeEntry>, id: u32, k: nat)
    requires k < Count(s) && s[k].firstHop != id
    ensures Rows(ClearFrom(s, id, k)) == Rows(s)[..k] + Filter(Rows(s)[k..], NotVia(id))
    decreases Count(s) - k, 0
  {
    var rows := Rows(s);
    ClearFromRows(s, id, k + 1);
    assert rows[k..] == [s[k]] + rows[k + 1..];
    FilterCons(s[k], rows[k + 1..], NotVia(id));
    assert rows[..k + 1] == rows[..k] + [s[k]];
  }

  lemma {:induction false} ClearDeleteStep(s: seq<NodeEntry>, id: u32, k: nat)
    requires k < Count(s) && s[k].firstHop == id
    ensures Rows(ClearFrom(s, id, k)) == Rows(s)[..k] + Filter(Rows(s)[k..], NotVia(id))
    decreases Count(s) - k, 0
  {
    var rows := Rows(s);
    assert rows[k..] == [s[k]] + rows[k + 1..];
    FilterCons(s[k], rows[k + 1..], NotVia(id));
    DeleteAtRows(s, k);
    var d := DeleteAt(s, k);
    ClearFromRows(d, id, k);
    assert Rows(d)[..k] == Rows(s)[..k];
    assert Rows(d)[k..] == Rows(s)[k + 1..];
  }

  /** clearSubs(id) removes exactly the rows routed through id and keeps the others in order. */
  lemma ClearSubsRemovesDependants(s: seq<NodeEntry>, id: u32)
    requires TableOk(s)
    ensures Rows(ClearFrom(s, id, 0)) == Filter(Rows(s), NotVia(id))
    ensures TableOk(ClearFrom(s, id, 0))
  {
    ClearFromRows(s, id, 0);
    assert Rows(s)[0..] == Rows(s);
    PairwiseFilter(Rows(s), DistinctIds, NotVia(id));
  }

  // ---------------------------------------------------------------- cleanMap

  predicate Expired(e: NodeEntry, now: int)
  {
    now > e.timeStamp + INACTIVE_TIMEOUT
  }

  /** The direct neighbours among rows that have timed out at time now. */
  function ExpiredDirect(rows: seq<NodeEntry>, now: int): set<u32>
  {
    set e | e in rows && e.firstHop == 0 && Expired(e, now) :: e.nodeId
  }

  /** A row stays when it has not timed out and does not route through a timed-out neighbour. */
  function Survives(gone: set<u32>, now: int): NodeEntry -> bool
  {
    (e: NodeEntry) => !Expired(e, now) && e.firstHop !in gone
  }

  datatype CleanResult = CleanResult(slots: seq<NodeEntry>, upToDate: bool)

  /**
   * cleanMap from row k on. A timed-out indirect row is removed and the scan stays on its index.
   * A timed-out direct row is removed first and then the rows routed through it, and the scan
   * starts over, since that purge may also remove rows ahead of the current index.
   */
  function CleanFrom(s: seq<NodeEntry>, now: int, k: nat, upToDate: bool): (r: CleanResult)
    requires Compact(s) && k <= |s|
    ensures |r.slots| == |s|
    decreases Count(s), |s| - k
  {
    if Count(s) <= k then CleanResult(s, upToDate)
    else if !Expired(s[k], now) then CleanFrom(s, now, k + 1, upToDate)
    else if s[k].firstHop == 0 then
      DeleteAtRows(s, k);
      CleanFrom(ClearFrom(DeleteAt(s, k), s[k].nodeId, 0), now, 0, false)
    else
      DeleteAtRows(s, k);
      CleanFrom(DeleteAt(s, k), now, k, false)
  }

  /** Removing a row of a duplicate-free table from its rows. */
  lemma MembersOfDrop(rows: seq<NodeEntry>, k: nat)
    requires k < |rows| && Pairwise(rows, DistinctIds)
    ensures forall x | x in rows[..k] + rows[k + 1..] :: x in rows && x.nodeId != rows[k].nodeId
    ensures forall x | x in rows && x != rows[k] :: x in rows[..k] + rows[k + 1..]
  {
    var d := rows[..k] + rows[k + 1..];
    forall x | x in d
      ensures x in rows && x.nodeId != rows[k].nodeId
    {
      var m :| 0 <= m < |d| && d[m] == x;
      var m' := if m < k then m else m + 1;
      assert rows[m'] == x;
      if m' < k {
        assert DistinctIds(rows[m'], rows[k]);
      } else {
        assert DistinctIds(rows[k], rows[m']);
      }
    }
    forall x | x in rows && x != rows[k]
      ensures x in d
    {
      var m :| 0 <= m < |rows| && rows[m] == x;
      if m < k {
        assert d[m] == x;
      } else {
        assert d[m - 1] == x;
      }
    }
  }

  /**
   * cleanMap removes exactly the rows that timed out and the rows routed through a timed-out
   * direct neighbour, keeps the rest in order, and reports "up to date" exactly when nothing
   * from row k on had timed out.
   */
  lemma {:induction false} CleanFromSweeps(s: seq<NodeEntry>, now: int, k: nat, up: bool)
    requires TableOk(s) && k <= Count(s)
    requires forall j | 0 <= j < k :: !Expired(s[j], now)
    ensures TableOk(CleanFrom(s, now, k, up).slots)
    ensures Rows(CleanFrom(s, now, k, up).slots) == Filter(Rows(s), Survives(ExpiredDirect(Rows(s), now), now))
    ensures CleanFrom(s, now, k, up).upToDate <==> up && forall j | k <= j < Count(s) :: !Expired(s[j], now)
    decreases Count(s), |s| - k, 1
  {
    var rows := Rows(s);
    var gone := ExpiredDirect(rows, now);
    if Count(s) <= k {
      forall x | x in rows
        ensures Survives(gone, now)(x)
      {
        var m :| 0 <= m < |rows| && rows[m] == x;
        assert !Expired(s[m], now);
      }
      FilterAll(rows, Survives(gone, now));
    } else if !Expired(s[k], now) {
      CleanFromSweeps(s, now, k + 1, up);
    } else if s[k].firstHop == 0 {
      CleanDirectStep(s, now, k, up);
    } else {
      CleanIndirectStep(s, now, k, up);
    }
  }

  /** A timed-out row routed through another node is dropped on its own. */
  lemma {:induction false} CleanIndirectStep(s: seq<NodeEntry>, now: int, k: nat, up: bool)
    requires TableOk(s) && k < Count(s) && Expired(s[k], now) && s[k].firstHop != 0
    requires forall j | 0 <= j < k :: !Expired(s[j], now)
    ensures TableOk(CleanFrom(s, now, k, up).slots)
    ensures Rows(CleanFrom(s, now, k, up).slots) == Filter(Rows(s), Survives(ExpiredDirect(Rows(s), now), now))
    ensures !CleanFrom(s, now, k, up).upToDate
    decreases Count(s), |s| - k, 0
  {
    var rows := Rows(s);
    var gone := ExpiredDirect(rows, now);
    DeleteAtRows(s, k);
    DeleteAtKeepsTable(s, k);
    var d := DeleteAt(s, k);
    MembersOfDrop(rows, k);
    FilterDropRejected(rows, k, Survives(gone, now));
    CleanFromSweeps(d, now, k, false);
    assert ExpiredDirect(Rows(d), now) == gone by {
      forall y | y in gone
        ensures y in ExpiredDirect(Rows(d), now)
      {
        var x :| x in rows && x.firstHop == 0 && Expired(x, now) && x.nodeId == y;
        assert x in Rows(d);
      }
    }
  }

  /**
   * Dropping the timed-out direct row k and then the rows routed through it leaves every other
   * timed-out direct neighbour in place.
   */
  lemma ExpiredDirectAfterDrop(rows: seq<NodeEntry>, k: nat, now: int)
    requires k < |rows| && Pairwise(rows, DistinctIds) && rows[k].firstHop == 0 && Expired(rows[k], now)
    requires forall x | x in rows :: x.nodeId != 0
    ensures var c := Filter(rows[..k] + rows[k + 1..], NotVia(rows[k].nodeId));
      ExpiredDirect(c, now) == ExpiredDirect(rows, now) - {rows[k].nodeId}
  {
    var id := rows[k].nodeId;
    var d := rows[..k] + rows[k + 1..];
    var c := Filter(d, NotVia(id));
    MembersOfDrop(rows, k);
    FilterMembers(d, NotVia(id));
    forall y | y in ExpiredDirect(c, now)
      ensures y in ExpiredDirect(rows, now) && y != id
    {
      var x :| x in c && x.firstHop == 0 && Expired(x, now) && x.nodeId == y;
      assert x in d;
    }
    forall y | y in ExpiredDirect(rows, now) && y != id
      ensures y in ExpiredDirect(c, now)
    {
      var x :| x in rows && x.firstHop == 0 && Expired(x, now) && x.nodeId == y;
      assert x in d;
      assert NotVia(id)(x);
    }
  }

  /** A timed-out direct neighbour is dropped together with every row routed through it. */
  lemma {:induction false} CleanDirectStep(s: seq<NodeEntry>, now: int, k: nat, up: bool)
    requires TableOk(s) && k < Count(s) && Expired(s[k], now) && s[k].firstHop == 0
    ensures TableOk(CleanFrom(s, now, k, up).slots)
    ensures Rows(CleanFrom(s, now, k, up).slots) == Filter(Rows(s), Survives(ExpiredDirect(Rows(s), now), now))
    ensures !CleanFrom(s, now, k, up).upToDate
    decreases Count(s), |s| - k, 0
  {
    var rows := Rows(s);
    var gone := ExpiredDirect(rows, now);
    var id := s[k].nodeId;
    assert rows[k] == s[k];
    DeleteAtRows(s, k);
    DeleteAtKeepsTable(s, k);
    var d := DeleteAt(s, k);
    FilterDropRejected(rows, k, Survives(gone, now));
    var c := ClearFrom(d, id, 0);
    ClearSubsRemovesDependants(d, id);
    RowsOccupied(s);
    CleanFromSweeps(c, now, 0, false);
    assert id in gone by {
      assert s[k] in rows;
    }
    ExpiredDirectAfterDrop(rows, k, now);
    var gone' := ExpiredDirect(Rows(c), now);
    assert gone' == gone - {id};
    FilterFilter(Rows(d), NotVia(id), Survives(gone', now), Survives(gone, now));
  }

  // ---------------------------------------------------------------- route order

  /** Row a may stand ahead of row b unless b is a direct neighbour and a is routed through it. */
  function HopAhead(a: NodeEntry, b: NodeEntry): bool
  {
    !(b.firstHop == 0 && a.firstHop == b.nodeId)
  }

  /** Every route through a direct neighbour lies after that neighbour's own row. */
  ghost predicate HopsFirst(rows: seq<NodeEntry>)
  {
    Pairwise(rows, HopAhead)
  }

  /** addNode of a route through a relay (hop != 0) keeps every route after its hop's row. */
  lemma AddNodeRelayKeepsOrder(s: seq<NodeEntry>, id: u32, hop: u32, hopNum: byte, now: int)
    requires |s| > 0 && TableOk(s) && hop != 0 && HopsFirst(Rows(s))
    ensures HopsFirst(Rows(AddNodeSpec(s, id, hop, hopNum, now).slots))
  {
    var i := FindId(s, id);
    var e := NodeEntry(id, hop, now, hopNum);
    var rows := Rows(s);
    if i < |s| && (s[i].firstHop == 0 || s[i].numHops < hopNum) {
      assert AddNodeSpec(s, id, hop, hopNum, now).slots == s;
    } else if i < Count(s) {
      AddNodeReroutes(s, id, hop, hopNum, now, i);
      PairwiseDrop(rows, i, HopAhead);
      PairwiseSnoc(rows[..i] + rows[i + 1..], e, HopAhead);
    } else if i < |s| || id == 0 {
      AddNodeEmptyRows(s, id, hop, hopNum, now);
      if Count(s) == |s| {
        PairwiseTail(rows, HopAhead);
      }
    } else {
      AddNodeAppends(s, id, hop, hopNum, now);
      if Count(s) < |s| {
        PairwiseSnoc(rows, e, HopAhead);
      } else {
        PairwiseTail(rows, HopAhead);
        PairwiseSnoc(rows[1..], e, HopAhead);
      }
    }
  }

  /** Appending x's direct row and then dropping the routes through x keeps the order. */
  lemma FilterSnocDirect(d: seq<NodeEntry>, e: NodeEntry, x: u32)
    requires HopsFirst(d) && e.firstHop == 0 && e.nodeId == x && x != 0
    ensures HopsFirst(Filter(d + [e], NotVia(x)))
  {
    var p := NotVia(x);
    FilterConcat(d, [e], p);
    assert Filter([e], p) == [e];
    PairwiseFilter(d, HopAhead, p);
    var f := Filter(d, p);
    FilterMembers(d, p);
    forall k | 0 <= k < |f|
      ensures HopAhead(f[k], e)
    {
      assert f[k] in f;
    }
    PairwiseSnoc(f, e, HopAhead);
  }

  /**
   * Registering x as a direct neighbour and then clearing the routes through it, as a received
   * advertisement from x starts, leaves every route after its hop's row.
   */
  lemma RegisterKeepsOrder(s: seq<NodeEntry>, x: u32, now: int)
    requires |s| > 0 && TableOk(s) && x != 0 && HopsFirst(Rows(s))
    ensures var c := ClearFrom(AddNodeSpec(s, x, 0, 0, now).slots, x, 0);
      TableOk(c) && HopsFirst(Rows(c))
  {
    var i := FindId(s, x);
    var rows := Rows(s);
    var e := NodeEntry(x, 0, now, 0);
    var a := AddNodeSpec(s, x, 0, 0, now).slots;
    AddNodeKeepsTable(s, x, 0, 0, now);
    ClearSubsRemovesDependants(a, x);
    assert i < |s| ==> i < Count(s);
    if i < |s| && s[i].firstHop == 0 {
      AddNodeRefreshesDirect(s, x, 0, now, i);
      var ra := Rows(a);
      forall p, q | 0 <= p < q < |ra|
        ensures HopAhead(ra[p], ra[q])
      {
        assert HopAhead(rows[p], rows[q]);
      }
      PairwiseFilter(ra, HopAhead, NotVia(x));
    } else if i < |s| {
      AddNodeReroutes(s, x, 0, 0, now, i);
      PairwiseDrop(rows, i, HopAhead);
      FilterSnocDirect(rows[..i] + rows[i + 1..], e, x);
    } else {
      AddNodeAppends(s, x, 0, 0, now);
      if Count(s) < |s| {
        FilterSnocDirect(rows, e, x);
      } else {
        PairwiseTail(rows, HopAhead);
        FilterSnocDirect(rows[1..], e, x);
      }
    }
  }

  /** cleanMap only removes rows, so it keeps every route after its hop's row. */
  lemma CleanFromKeepsOrder(s: seq<NodeEntry>, now: int, up: bool)
    requires TableOk(s) && HopsFirst(Rows(s))
    ensures HopsFirst(Rows(CleanFrom(s, now, 0, up).slots))
  {
    CleanFromSweeps(s, now, 0, up);
    PairwiseFilter(Rows(s), HopAhead, Survives(ExpiredDirect(Rows(s), now), now));
  }

  /**
   * On such a table clearSubs of the direct row at index k leaves the rows up to k where they
   * were: none of the rows ahead of k is routed through it.
   */
  lemma ClearSubsKeepsPrefix(s: seq<NodeEntry>, k: nat)
    requires TableOk(s) && HopsFirst(Rows(s)) && k < Count(s) && s[k].firstHop == 0
    ensures var c := ClearFrom(s, s[k].nodeId, 0);
      k < Count(c) && Rows(c)[..k + 1] == Rows(s)[..k + 1]
  {
    var rows := Rows(s);
    var x := s[k].nodeId;
    var p := NotVia(x);
    ClearSubsRemovesDependants(s, x);
    assert rows == rows[..k + 1] + rows[k + 1..];
    FilterConcat(rows[..k + 1], rows[k + 1..], p);
    forall y | y in rows[..k + 1]
      ensures p(y)
    {
      var j :| 0 <= j < k + 1 && rows[..k + 1][j] == y;
      if j < k {
        assert HopAhead(rows[j], rows[k]);
      }
    }
    FilterAll(rows[..k + 1], p);
  }
}
