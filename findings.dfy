/**
 * Behaviour of the router and the mesh task as the source writes it, where it departs from the
 * evidently intended behaviour, with an input that shows each departure.  The rest of the model
 * uses the corrected definitions (Insert, ClearFrom, CleanFrom, SentinelPresent, and a table
 * capacity below 48).
 */
module Findings {
  import opened Wire
  import opened Seqs
  import opened RouterSpec
  import opened MeshSpec

  // ---------------------------------------------------------------- addNode on a full table

  /**
   * The slot addNode copies the new row into: the first slot whose nodeId is 0, found before
   * deleteRoute(0) runs, or the table size when every slot is taken.
   */
  function AddNodeSlotAsWritten(s: seq<NodeEntry>): (i: nat)
    ensures i <= |s|
    ensures i < |s| ==> s[i].nodeId == 0
  {
    FindId(s, 0)
  }

  /** On a full table the copy goes one slot past the end of the node list. */
  lemma AddNodeWritesPastEnd(s: seq<NodeEntry>)
    requires |s| > 0 && Count(s) == |s|
    ensures AddNodeSlotAsWritten(s) == |s|
  {
    FindIdAt(s, 0, |s|);
  }

  /** The corrected insertion puts the new row into the slot that deleteRoute(0) freed. */
  lemma InsertFullTable(s: seq<NodeEntry>, e: NodeEntry)
    requires |s| > 0 && Compact(s) && Count(s) == |s| && e.nodeId != 0
    ensures Insert(s, e)[|s| - 1] == e
    ensures Rows(Insert(s, e)) == Rows(s)[1..] + [e]
  {
    FindIdAt(s, 0, |s|);
    InsertRows(s, e);
  }

  // ---------------------------------------------------------------- clearSubs over empty slots

  /** The loop state of clearSubs: the node list and the loop index. */
  datatype ScanState = ScanState(slots: seq<NodeEntry>, idx: nat)

  /**
   * One pass of the clearSubs loop body as written: every slot up to the table size is
   * inspected, empty ones included; a match is deleted and the index stays where it is.
   */
  function ClearSubsStepAsWritten(st: ScanState, id: u32): (r: ScanState)
    requires st.idx < |st.slots|
    ensures |r.slots| == |st.slots|
  {
    if st.slots[st.idx].firstHop == id then ScanState(DeleteAt(st.slots, st.idx), st.idx)
    else ScanState(st.slots, st.idx + 1)
  }

  /**
   * Once the scan reaches the last slot and that slot's firstHop is id, the step leaves the
   * state unchanged while the loop condition still holds: the loop never ends. deleteRoute
   * clears only the nodeId of the last slot, so its stale firstHop matches again and again.
   */
  lemma ClearSubsHangs(s: seq<NodeEntry>, id: u32)
    requires |s| > 0 && s[|s| - 1].firstHop == id
    ensures var st := ClearSubsStepAsWritten(ScanState(s, |s| - 1), id);
      st.idx == |s| - 1 && ClearSubsStepAsWritten(st, id) == st
  {
    var st := ClearSubsStepAsWritten(ScanState(s, |s| - 1), id);
    assert st.slots == s[|s| - 1 := s[|s| - 1].(nodeId := 0)];
    assert DeleteAt(st.slots, |s| - 1) == st.slots;
  }

  /**
   * The hang is reachable with a two-row table: after an advertisement from a that lists b,
   * the table is full with b routed through a in the last slot, and the clearSubs(a) of a's
   * next advertisement gets stuck on that slot.
   */
  lemma ClearSubsHangsOnSecondAdvert(a: u32, b: u32, self: u32, now: int)
    requires a != 0 && b != 0 && a != b && b != self
    ensures var s := ReceiveMap(EmptyTable(2), MapMsg(0, a, [Row(b, 0)]), self, now).slots;
      s == [NodeEntry(a, 0, now, 0), NodeEntry(b, a, now, 1)]
      && ClearSubsStepAsWritten(ScanState(s, 0), a) == ScanState(s, 1)
      && s[1].firstHop == a
  {
    var e := EmptyTable(2);
    assert e == [EMPTY_ENTRY, EMPTY_ENTRY];
    FindIdAt(e, a, 2);
    FindIdAt(e, 0, 0);
    var s1 := [NodeEntry(a, 0, now, 0), EMPTY_ENTRY];
    assert AddNodeSpec(e, a, 0, 0, now) == AddResult(s1, true);
    FindIdAt(s1, 0, 1);
    assert Count(s1) == 1;
    assert ClearFrom(s1, a, 1) == s1;
    assert ClearFrom(s1, a, 0) == s1;
    FindIdAt(s1, b, 2);
    var s2 := [NodeEntry(a, 0, now, 0), NodeEntry(b, a, now, 1)];
    assert AddNodeSpec(s1, b, a, 1, now) == AddResult(s2, true);
    var rows := [Row(b, 0)];
    assert rows[1..] == [];
    assert ApplyRows(s1, a, self, rows, now, true) == ApplyRows(s2, a, self, [], now, true);
  }

  // ---------------------------------------------------------------- cleanMap deletes by a stale index

  /**
   * cleanMap as written: for a timed-out direct row at index k it runs clearSubs on that row's
   * id and then deletes index k, although clearSubs may have moved rows down; the scan then
   * continues at k. Once index k holds an empty slot the scan stops.
   */
  function CleanFromAsWritten(s: seq<NodeEntry>, now: int, k: nat, upToDate: bool): (r: CleanResult)
    requires Compact(s) && k <= |s|
    ensures |r.slots| == |s|
    decreases Count(s), |s| - k
  {
    if Count(s) <= k then CleanResult(s, upToDate)
    else if !Expired(s[k], now) then CleanFromAsWritten(s, now, k + 1, upToDate)
    else if s[k].firstHop == 0 then
      var c := ClearFrom(s, s[k].nodeId, 0);
      DeleteAtRows(c, k);
      if k < Count(c) then CleanFromAsWritten(DeleteAt(c, k), now, k, false)
      else CleanResult(DeleteAt(c, k), false)
    else
      DeleteAtRows(s, k);
      CleanFromAsWritten(DeleteAt(s, k), now, k, false)
  }

  /**
   * A table with a row b routed through x ahead of x's own direct row, x timed out at time now,
   * and a fresh direct neighbour c after it.
   */
  function StaleIndexTable(b: u32, x: u32, c: u32, now: int): (s: seq<NodeEntry>)
    requires b != 0 && x != 0 && c != 0 && b != x && x != c && b != c
    ensures |s| == 4 && TableOk(s) && Rows(s) == s[..3]
  {
    var s := [NodeEntry(b, x, now, 1), NodeEntry(x, 0, now - INACTIVE_TIMEOUT - 1, 0),
              NodeEntry(c, 0, now, 0), EMPTY_ENTRY];
    FindIdAt(s, 0, 3);
    s
  }

  /**
   * On that table cleanMap as written lets clearSubs(x) move x down to index 0, then
   * deleteRoute(1) removes the fresh c, and the timed-out x stays.
   */
  lemma CleanMapDeletesWrongRow(b: u32, x: u32, c: u32, now: int)
    requires b != 0 && x != 0 && c != 0 && b != x && x != c && b != c
    ensures var s := StaleIndexTable(b, x, c, now);
      Rows(CleanFromAsWritten(s, now, 0, true).slots) == [s[1]]
  {
    var s := StaleIndexTable(b, x, c, now);
    var c1 := DeleteAt(s, 0);
    assert c1 == [s[1], s[2], EMPTY_ENTRY, EMPTY_ENTRY];
    FindIdAt(c1, 0, 2);
    assert ClearFrom(c1, x, 2) == c1;
    assert ClearFrom(c1, x, 1) == c1;
    assert ClearFrom(c1, x, 0) == c1;
    assert ClearFrom(s, x, 0) == ClearFrom(c1, x, 0);
    var d := DeleteAt(c1, 1);
    assert d == [s[1], EMPTY_ENTRY, EMPTY_ENTRY, EMPTY_ENTRY];
    FindIdAt(d, 0, 1);
    assert CleanFromAsWritten(d, now, 1, false) == CleanResult(d, false);
    assert CleanFromAsWritten(s, now, 1, true) == CleanFromAsWritten(d, now, 1, false);
    assert CleanFromAsWritten(s, now, 0, true) == CleanFromAsWritten(s, now, 1, true);
    assert Rows(d) == [s[1]];
  }

  /**
   * That table lists b, routed through x, ahead of x's own row: no run of advertisements from
   * senders with non-zero ids and cleanMap sweeps builds it.
   */
  lemma StaleIndexTableUnordered(b: u32, x: u32, c: u32, now: int)
    requires b != 0 && x != 0 && c != 0 && b != x && x != c && b != c
    ensures !HopsFirst(Rows(StaleIndexTable(b, x, c, now)))
  {
    var rows := Rows(StaleIndexTable(b, x, c, now));
    assert !HopAhead(rows[0], rows[1]);
  }

  /**
   * On a table in route order the index cleanMap as written deletes after clearSubs still holds
   * the timed-out direct row, and every row ahead of it is where it was.
   */
  lemma AsWrittenDeletesHopWhenOrdered(s: seq<NodeEntry>, now: int, k: nat)
    requires TableOk(s) && HopsFirst(Rows(s)) && k < Count(s) && s[k].firstHop == 0
    ensures var c := ClearFrom(s, s[k].nodeId, 0);
      k < Count(c) && c[k] == s[k] && c[..k] == s[..k]
  {
    ClearSubsKeepsPrefix(s, k);
    var c := ClearFrom(s, s[k].nodeId, 0);
    assert c[k] == Rows(c)[..k + 1][k];
    assert c[..k] == Rows(c)[..k + 1][..k];
    assert s[..k] == Rows(s)[..k + 1][..k];
  }

  /** The corrected sweep of the same table removes x and b and keeps c. */
  lemma CleanMapKeepsFreshRow(b: u32, x: u32, c: u32, now: int)
    requires b != 0 && x != 0 && c != 0 && b != x && x != c && b != c
    ensures var s := StaleIndexTable(b, x, c, now);
      Rows(CleanFrom(s, now, 0, true).slots) == [s[2]]
  {
    var s := StaleIndexTable(b, x, c, now);
    CleanFromSweeps(s, now, 0, true);
    var rows := Rows(s);
    assert rows == [s[0], s[1], s[2]];
    var gone := ExpiredDirect(rows, now);
    assert gone == {x} by {
      assert s[1] in rows;
      forall y | y in gone
        ensures y == x
      {
        var e :| e in rows && e.firstHop == 0 && Expired(e, now) && e.nodeId == y;
      }
    }
    var p := Survives(gone, now);
    assert !p(s[0]) && !p(s[1]) && p(s[2]);
    assert rows == [s[0]] + ([s[1]] + [s[2]]);
    FilterCons(s[0], [s[1]] + [s[2]], p);
    FilterCons(s[1], [s[2]], p);
    FilterCons(s[2], [], p);
  }

  // ---------------------------------------------------------------- short advertisement frames

  /**
   * The offset at which the receive path looks for the sentinel in a map frame of size bytes:
   * numSubs = uint8(size - 12) / 5, and the row checked is numSubs - 1.  That is row -1
   * (bytes 7 to 11) for frames of 12 to 16 bytes.  Below 12 bytes the uint8 wraps to
   * size + 244, so rows 47 to 50 are checked: row 47 (bytes 247 to 251, left by an earlier
   * frame) for an empty frame, and rows that reach past the 256-byte buffer for 1 to 11 bytes.
   */
  function SentinelOffsetAsWritten(size: nat): (at: int)
    requires size <= RADIO_BUFFER_SIZE
    ensures size >= MAP_HEADER_SIZE + ROW_SIZE ==> at == RowOffset(SentinelRow(size))
    ensures MAP_HEADER_SIZE <= size < MAP_HEADER_SIZE + ROW_SIZE ==> at == MAP_HEADER_SIZE - ROW_SIZE
    ensures size < MAP_HEADER_SIZE ==> at == RowOffset((size + 244) / ROW_SIZE - 1)
    ensures size == 0 ==> at == RowOffset(47)
    ensures 0 < size < MAP_HEADER_SIZE ==> at + ROW_SIZE > RADIO_BUFFER_SIZE
  {
    var subsSize := (size - MAP_HEADER_SIZE) % 256;
    var numSubs := subsSize / ROW_SIZE;
    MAP_HEADER_SIZE + ROW_SIZE * (numSubs - 1)
  }

  /**
   * The end-marker test as written, on the receive buffer after a frame of size bytes; only
   * sizes whose tested row lies inside the buffer are modelled.
   */
  predicate SentinelAcceptedAsWritten(buf: seq<byte>, size: nat): (p: bool)
    requires |buf| == RADIO_BUFFER_SIZE && size <= RADIO_BUFFER_SIZE
    requires SentinelOffsetAsWritten(size) + ROW_SIZE <= RADIO_BUFFER_SIZE
    ensures MAP_HEADER_SIZE + ROW_SIZE <= size ==> (p <==> SentinelPresent(buf[..size]))
  {
    var at := SentinelOffsetAsWritten(size);
    assert MAP_HEADER_SIZE + ROW_SIZE <= size ==> buf[..size][at .. at + ROW_SIZE] == buf[at .. at + ROW_SIZE];
    buf[at .. at + ROW_SIZE] == SENTINEL
  }

  /**
   * After a full advertisement of 47 rows, whose sentinel sits in row 47, an empty frame that
   * leaves "LoR" and type 5 in place passes the end-marker test as written, so the 47 stale rows
   * are applied again; the corrected decoder refuses it.
   */
  lemma StaleSentinelAccepted(buf: seq<byte>, payload: seq<byte>, m: MapMsg)
    requires |buf| == RADIO_BUFFER_SIZE && |m.rows| == 47
    requires buf[..RowOffset(48)] == EncodeMap(m)
    requires |payload| > 0 && payload[0] == PREAMBLE[0]
    ensures var next := Received(buf, payload, 0);
      next[..3] == PREAMBLE && next[TYPE_OFFSET] == TYPE_MAP
      && SentinelAcceptedAsWritten(next, 0) && ParseMap(next[..0]).None?
  {
    var next := Received(buf, payload, 0);
    MapLayout(m);
    assert next[1..] == buf[1..];
    assert next[..3] == [payload[0]] + buf[1..3];
    assert buf[..3] == EncodeMap(m)[..3];
    assert buf[TYPE_OFFSET] == EncodeMap(m)[TYPE_OFFSET];
    assert next[RowOffset(47) .. RowOffset(47) + ROW_SIZE] == RowBytes(EncodeMap(m), 47);
  }

  /**
   * A 12-byte advertisement header whose dest ends in AA and whose from is AAFF0055 passes the
   * end-marker test as written, and its sender would be registered as a direct neighbour; the
   * corrected test refuses every frame without a complete row after the header.
   */
  lemma ShortFrameAccepted(buf: seq<byte>)
    requires |buf| == RADIO_BUFFER_SIZE
    requires buf[..MAP_HEADER_SIZE] == MapHeader(0xAA00_0000, 0xAAFF_0055)
    ensures SentinelAcceptedAsWritten(buf, MAP_HEADER_SIZE)
    ensures !SentinelPresent(buf[..MAP_HEADER_SIZE]) && ParseMap(buf[..MAP_HEADER_SIZE]).None?
  {
    assert buf[7..12] == buf[..MAP_HEADER_SIZE][7..12];
    assert MapHeader(0xAA00_0000, 0xAAFF_0055)[7..12] == SENTINEL;
  }

  // ---------------------------------------------------------------- sync advertisement of a full table

  /**
   * The length the sync step queues for n rows: subsLen is a uint8, so 12 + 5 * (n + 1) is
   * taken modulo 256; the sentinel goes to row n of syncMsg.nodes.
   */
  function SyncLengthAsWritten(n: nat): (len: byte)
    ensures MAP_HEADER_SIZE + ROW_SIZE * (n + 1) < 256 ==> len == MAP_HEADER_SIZE + ROW_SIZE * (n + 1)
  {
    (MAP_HEADER_SIZE + ROW_SIZE * ((n + 1) % 256)) % 256
  }

  /**
   * With 48 rows (a table of 48 slots, all taken) the sentinel lands past the end of syncMsg and
   * the queued length wraps to a single byte.
   */
  lemma SyncOverflowsAtFullTable()
    ensures RowOffset(MAP_ROWS) + ROW_SIZE > MAP_MSG_SIZE
    ensures SyncLengthAsWritten(MAP_ROWS) == 1
  {
  }

  /** Up to 47 rows the advertisement, sentinel included, fits syncMsg and its length fits a byte. */
  lemma SyncFitsBelowFullTable(m: MapMsg)
    requires |m.rows| < MAP_ROWS
    ensures |EncodeMap(m)| <= MAP_MSG_SIZE
    ensures SyncLengthAsWritten(|m.rows|) == |EncodeMap(m)|
  {
    MapFits(m);
    MapLayout(m);
  }
}
