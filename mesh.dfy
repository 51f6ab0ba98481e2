/**
 * The mesh task and the radio callbacks of src/mesh.cpp as one object: the node list, the
 * send queue, the radio buffers and the task's state variables.  The radio commands issued
 * and the application callbacks made are recorded in ghost logs; millis() is the `now`
 * argument of each step.
 */
module Mesh {
  import opened Wire
  import opened RouterSpec
  import opened Router
  import opened SendQueue
  import opened MeshSpec

  /** Writes the bytes b into a from offset at (a memcpy into a frame buffer). */
  method PutBytes(a: array<byte>, at: nat, b: seq<byte>)
    requires at + |b| <= a.Length
    modifies a
    ensures a[..] == old(a[..at]) + b + old(a[at + |b|..])
  {
    forall j | 0 <= j < |b| {
      a[at + j] := b[j];
    }
    assert a[..] == old(a[..at]) + b + old(a[at + |b|..]);
  }

  /** Writes the four little-endian bytes of x at offset at (a u32 field of a frame). */
  method PutField(a: array<byte>, at: nat, x: u32)
    requires at + 4 <= a.Length
    modifies a
    ensures a[..] == old(a[..at]) + LeBytes(x) + old(a[at + 4..])
  {
    PutBytes(a, at, LeBytes(x));
  }

  /** The zeroed row area of syncMsg. */
  function Zeros(n: nat): (z: seq<byte>)
    ensures |z| == n && forall k | 0 <= k < n :: z[k] == 0
  {
    seq(n, _ => 0)
  }

  /** The header of the sync advertisement: type map, from this node, rows zeroed. */
  method WriteHeader(msg: array<byte>, self: u32)
    requires msg.Length == MAP_MSG_SIZE && msg[..3] == PREAMBLE && msg[4..8] == LeBytes(0)
    modifies msg
    ensures msg[..] == MapHeader(0, self) + Zeros(MAP_MSG_SIZE - MAP_HEADER_SIZE)
  {
    ghost var s0 := msg[..];
    PutField(msg, 8, self);
    msg[TYPE_OFFSET] := TYPE_MAP;
    ghost var s1 := msg[..];
    assert s1[..MAP_HEADER_SIZE] == s0[..3] + [TYPE_MAP] + s0[4..8] + LeBytes(self);
    PutBytes(msg, MAP_HEADER_SIZE, Zeros(MAP_MSG_SIZE - MAP_HEADER_SIZE));
  }

  /** nodeMap into syncMsg: the rows, encoded, follow the header; the rest is untouched. */
  method WriteRows(table: RoutingTable, msg: array<byte>) returns (n: nat)
    requires table.Valid() && table.slots.Length < MAP_ROWS && msg.Length == MAP_MSG_SIZE
    modifies msg
    ensures n == Count(table.slots[..]) && RowOffset(n) + ROW_SIZE <= MAP_MSG_SIZE
    ensures msg[..] == old(msg[..MAP_HEADER_SIZE]) + EncodeRows(AdvertRows(Rows(table.slots[..])))
                       + old(msg[RowOffset(n)..])
  {
    var k := table.NodeMap(msg, MAP_HEADER_SIZE);
    n := k as nat;
  }

  /**
   * The advertisement part of the sync step, in the syncMsg buffer: the header is set, the
   * rows are written by nodeMap and the sentinel follows them. Returns the number of bytes to
   * send.
   */
  method BuildAdvert(table: RoutingTable, msg: array<byte>, self: u32) returns (len: nat)
    requires table.Valid() && table.slots.Length < MAP_ROWS && msg.Length == MAP_MSG_SIZE
    requires msg[..3] == PREAMBLE && msg[4..8] == LeBytes(0)
    modifies msg
    ensures msg[..MAP_HEADER_SIZE] == MapHeader(0, self)
    ensures var frame := EncodeMap(MapMsg(0, self, AdvertRows(Rows(table.slots[..]))));
      len == |frame| == MAP_HEADER_SIZE + ROW_SIZE * (Count(table.slots[..]) + 1) <= MAP_MSG_SIZE
      && msg[..len] == frame
  {
    WriteHeader(msg, self);
    var n := WriteRows(table, msg);
    ghost var body := EncodeRows(AdvertRows(Rows(table.slots[..])));
    var at := RowOffset(n);
    ghost var s1 := msg[..];
    assert s1[..at] == MapHeader(0, self) + body;
    PutBytes(msg, at, SENTINEL);
    len := at + ROW_SIZE;
    assert msg[..len] == MapHeader(0, self) + body + SENTINEL;
  }

  /** The end-marker check of a received advertisement: the last complete row holds the sentinel. */
  method SentinelCheck(buf: array<byte>, size: nat) returns (present: bool)
    requires MAP_HEADER_SIZE + ROW_SIZE <= size <= buf.Length && size <= RADIO_BUFFER_SIZE
    ensures present <==> SentinelPresent(buf[..size])
  {
    var subsSize: byte := (size - MAP_HEADER_SIZE) % 256;
    var numSubs := subsSize / ROW_SIZE;
    var at := MAP_HEADER_SIZE + ROW_SIZE * (numSubs - 1);
    assert numSubs - 1 == SentinelRow(size);
    present := buf[at] == SENTINEL[0] && buf[at + 1] == SENTINEL[1]
      && buf[at + 2] == SENTINEL[2] && buf[at + 3] == SENTINEL[3] && buf[at + 4] == SENTINEL[4];
    assert RowBytes(buf[..size], SentinelRow(size)) == buf[at .. at + ROW_SIZE];
  }

  /**
   * The row loop of a received advertisement: each listed row other than this node's own is
   * reported to addNode as reached through from, one hop further; the results are OR-ed.
   */
  method ApplyListedRows(table: RoutingTable, frame: seq<byte>, from: u32, self: u32, now: int,
                         changed0: bool, count: nat, ghost rows: seq<Row>) returns (changed: bool)
    requires table.Valid() && RowsListed(frame, rows) && count == |rows|
    modifies table.slots
    ensures table.Valid()
    ensures AddResult(table.slots[..], changed) == ApplyRows(old(table.slots[..]), from, self, rows, now, changed0)
  {
    changed := changed0;
    var idx := 0;
    while idx < count
      invariant 0 <= idx <= |rows|
      invariant table.Valid()
      invariant ApplyRows(table.slots[..], from, self, rows[idx..], now, changed)
             == ApplyRows(old(table.slots[..]), from, self, rows, now, changed0)
    {
      var at := RowOffset(idx);
      var subId := LeValue(frame[at .. at + 4]);
      var hops := frame[at + 4];
      assert rows[idx] == Row(subId, hops);
      ghost var t := table.slots[..];
      if subId != self {
        var h: byte := (hops as int + 1) % 256;
        var c := table.AddNode(subId, from, h, now);
        ApplyRowsAdd(t, from, self, rows, now, changed, idx, subId, hops, h, table.slots[..], c);
        changed := changed || c;
      } else {
        ApplyRowsSkip(t, from, self, rows, now, changed, idx);
      }
      idx := idx + 1;
    }
    assert rows[idx..] == [];
  }

  /** The sender of an advertisement becomes a direct neighbour and every route through it is purged. */
  method RegisterSender(table: RoutingTable, from: u32, now: int) returns (changed: bool)
    requires table.Valid()
    modifies table.slots
    ensures table.Valid()
    ensures var a := AddNodeSpec(old(table.slots[..]), from, 0, 0, now);
      table.slots[..] == ClearFrom(a.slots, from, 0) && changed == a.changed
  {
    changed := table.AddNode(from, 0, 0, now);
    table.ClearSubs(from);
  }

  /** The row count the receiver derives from a uint8 payload size is the index of the sentinel row. */
  lemma SubsCount(size: nat)
    requires MAP_HEADER_SIZE + ROW_SIZE <= size <= RADIO_BUFFER_SIZE
    ensures (size - MAP_HEADER_SIZE) % 256 == size - MAP_HEADER_SIZE
    ensures (size - MAP_HEADER_SIZE) / ROW_SIZE >= 1
    ensures (size - MAP_HEADER_SIZE) / ROW_SIZE - 1 == SentinelRow(size)
  {
  }

  /**
   * The accepted-advertisement branch on the received frame: the sender is registered as a
   * direct neighbour, its dependants are purged, and the rows before the sentinel are applied
   * in order, skipping this node's own id. Returns the OR of the addNode results.
   */
  method ApplyAdvert(table: RoutingTable, frame: seq<byte>, self: u32, now: int) returns (changed: bool)
    requires table.Valid() && |frame| <= RADIO_BUFFER_SIZE && ParseMap(frame).Some?
    modifies table.slots
    ensures table.Valid()
    ensures var r := ReceiveMap(old(table.slots[..]), ParseMap(frame).value, self, now);
      table.slots[..] == r.slots && changed == r.changed
  {
    ghost var m := ParseMap(frame).value;
    ParseMapAccepts(frame);
    ParsedRows(frame);
    SubsCount(|frame|);
    var from := LeValue(frame[8..12]);
    changed := RegisterSender(table, from, now);
    var subsSize: byte := (|frame| - MAP_HEADER_SIZE) % 256;
    var numSubs := subsSize / ROW_SIZE;
    if subsSize != 0 {
      // the loop runs over rows 0 .. numSubs - 2: the last complete row is the sentinel
      changed := ApplyListedRows(table, frame, from, self, now, changed, numSubs - 1, m.rows);
    }
  }

  /**
   * The in-place readdressing of a forward frame for the first hop of the route to target:
   * a direct route makes it a direct frame to target from this node, otherwise it stays a
   * forward frame and is addressed to the hop.
   */
  method RewriteFrame(buf: array<byte>, self: u32, target: u32, firstHop: u32)
    requires buf.Length == RADIO_BUFFER_SIZE
    modifies buf
    ensures buf[..] == Rewrite(old(buf[..]), self, target, firstHop)
  {
    if firstHop == 0 {
      PutField(buf, 4, target);
      PutField(buf, 8, self);
      buf[TYPE_OFFSET] := TYPE_DIRECT;
    } else {
      PutField(buf, 4, firstHop);
      buf[TYPE_OFFSET] := TYPE_FORWARD;
    }
  }

  class MeshEngine {
    /** deviceID. */
    const deviceId: u32
    /** The debug topology filter: the senders whose advertisements this node takes. */
    const accept: u32 -> bool
    /** nodesMap and its operations. */
    const table: RoutingTable
    /** sendMsg, sendMsgSize and sendQueue. */
    const queue: OutboundQueue
    const rxBuffer: array<byte>
    const txPckg: array<byte>
    /** syncMsg: the advertisement buffer, a mapMsg. */
    const syncMsg: array<byte>

    /** loraState. */
    var state: LoraState
    /** channelFreeRetryNum, a uint8 that is only ever incremented. */
    var cadRetries: byte
    var txLen: nat
    var nodesChanged: bool
    var syncTime: int
    var notifyTimer: int
    var checkSwitchSyncTime: int
    var txTimeout: int
    /** The commands given to the radio, oldest first. */
    ghost var radio: seq<RadioCmd>
    /** The application callbacks made, oldest first. */
    ghost var events: seq<MeshEvent>

    ghost predicate Valid()
      reads this, table, table.slots, queue, queue.msgs, queue.sizes, rxBuffer, txPckg, syncMsg
    {
      table.Valid() && queue.Valid() && table.slots.Length < MAP_ROWS
      && rxBuffer.Length == RADIO_BUFFER_SIZE && txPckg.Length == RADIO_BUFFER_SIZE
      && syncMsg.Length == MAP_MSG_SIZE
      && rxBuffer != txPckg && rxBuffer != syncMsg && txPckg != syncMsg
      && queue.sizes != rxBuffer && queue.sizes != txPckg && queue.sizes != syncMsg
      && syncMsg[..3] == PREAMBLE && syncMsg[4..8] == LeBytes(0)
      && txLen < RADIO_BUFFER_SIZE
    }

    /** The timers are as they were. */
    twostate predicate TimersKept()
      reads this
    {
      syncTime == old(syncTime) && notifyTimer == old(notifyTimer)
      && checkSwitchSyncTime == old(checkSwitchSyncTime) && txTimeout == old(txTimeout)
    }

    /** The radio side (state, retry counter, transmit length, radio log) is as it was. */
    twostate predicate LinkKept()
      reads this
    {
      state == old(state) && cadRetries == old(cadRetries) && txLen == old(txLen) && radio == old(radio)
    }

    /**
     * What receiving the frame buf of size bytes at time now did, as Classify says: an
     * advertisement updates the node list, a direct frame for this node is delivered, a forward
     * frame for this node is readdressed along the route to its target and queued, and any other
     * frame changes nothing.
     */
    twostate predicate Dispatched(buf: seq<byte>, size: nat, now: int)
      requires old(Valid()) && Valid() && |buf| == RADIO_BUFFER_SIZE && size <= |buf|
      reads this, table, table.slots, queue, queue.msgs, queue.sizes, rxBuffer, txPckg, syncMsg
    {
      match Classify(buf, size, deviceId, accept)
      case Advert(m) =>
        var r := ReceiveMap(old(table.slots[..]), m, deviceId, now);
        table.slots[..] == r.slots && nodesChanged == r.changed && events == old(events)
        && rxBuffer[..] == buf && unchanged(queue, queue.msgs, queue.sizes)
      case Deliver(n) =>
        events == old(events) + [DataAvailable(n)] && nodesChanged == old(nodesChanged)
        && table.slots[..] == old(table.slots[..]) && rxBuffer[..] == buf
        && unchanged(queue, queue.msgs, queue.sizes)
      case Forward(target) =>
        events == old(events) && nodesChanged == old(nodesChanged) && table.slots[..] == old(table.slots[..])
        && var i := FindId(old(table.slots[..]), target);
        if i == |old(table.slots[..])| then
          rxBuffer[..] == buf && unchanged(queue, queue.msgs, queue.sizes)
        else
          var f := Rewrite(buf, deviceId, target, old(table.slots[..])[i].firstHop);
          rxBuffer[..] == f
          && (old(queue.Coherent()) && TYPE_OFFSET < size ==>
                queue.Coherent()
                && queue.Pending() == old(queue.Pending())
                     + if queue.ready && FirstFree(old(queue.msgs[..])) < SEND_QUEUE_SIZE then [f[..size]] else [])
      case _ =>
        events == old(events) && nodesChanged == old(nodesChanged) && table.slots[..] == old(table.slots[..])
        && rxBuffer[..] == buf && unchanged(queue, queue.msgs, queue.sizes)
    }

    /**
     * initMesh with a table of `capacity` rows followed by the start of meshTask at time now:
     * an empty table, an empty queue (usable when the RTOS queue was created), the radio put
     * in standby and then receiving, and the first sync due two sync intervals later.
     */
    constructor (capacity: nat, deviceId: u32, queueReady: bool, accept: u32 -> bool, now: int)
      requires 0 < capacity < MAP_ROWS
      ensures Valid() && queue.Coherent()
      ensures this.deviceId == deviceId && this.accept == accept
      ensures table.slots[..] == EmptyTable(capacity) && queue.ready == queueReady && queue.fifo == []
      ensures state == Idle && cadRetries == 0 && txLen == 0 && !nodesChanged
      ensures syncTime == INIT_SYNCTIME && notifyTimer == now + INIT_SYNCTIME
      ensures checkSwitchSyncTime == now && txTimeout == now
      ensures radio == [Standby, Standby, Receive(0)] && events == []
    {
      this.deviceId := deviceId;
      this.accept := accept;
      table := new RoutingTable(capacity);
      queue := new OutboundQueue(queueReady);
      rxBuffer := new byte[RADIO_BUFFER_SIZE](_ => 0);
      txPckg := new byte[RADIO_BUFFER_SIZE](_ => 0);
      syncMsg := new byte[MAP_MSG_SIZE](i => if i == 0 then 0x4C else if i == 1 then 0x6F
                                             else if i == 2 then 0x52 else if i == 3 then TYPE_MAP else 0);
      state := Idle;
      cadRetries := 0;
      txLen := 0;
      nodesChanged := false;
      syncTime := INIT_SYNCTIME;
      notifyTimer := now + INIT_SYNCTIME;
      checkSwitchSyncTime := now;
      txTimeout := now;
      radio := [Standby, Standby, Receive(0)];
      events := [];
      new;
      assert syncMsg[..3] == PREAMBLE;
      assert syncMsg[4..8] == LeBytes(0);
    }

    // ------------------------------------------------------------ one pass of the task loop

    /** A change of the node list recorded by the receive callback is reported once. */
    method NotifyStep()
      requires Valid()
      modifies this
      ensures Valid() && !nodesChanged && TimersKept() && LinkKept()
      ensures events == old(events) + if old(nodesChanged) then [NodesListChanged] else []
    {
      if nodesChanged {
        nodesChanged := false;
        events := events + [NodesListChanged];
      }
    }

    /**
     * The first half of the sync step: the table is swept, and a change switches back to the
     * short sync interval and is reported.
     */
    method SweepStep(now: int)
      requires Valid()
      modifies this, table.slots
      ensures Valid() && LinkKept() && nodesChanged == old(nodesChanged)
      ensures txTimeout == old(txTimeout) && notifyTimer == old(notifyTimer)
      ensures var c := CleanFrom(old(table.slots[..]), now, 0, true);
        table.slots[..] == c.slots
        && if c.upToDate then
             syncTime == old(syncTime) && checkSwitchSyncTime == old(checkSwitchSyncTime) && events == old(events)
           else
             syncTime == INIT_SYNCTIME && checkSwitchSyncTime == now && events == old(events) + [NodesListChanged]
    {
      var upToDate := table.CleanMap(now);
      if !upToDate {
        syncTime := INIT_SYNCTIME;
        checkSwitchSyncTime := now;
        events := events + [NodesListChanged];
      }
    }

    /**
     * The second half of the sync step: the advertisement of the table (from this node, to 0,
     * closed by the sentinel) is built in syncMsg and queued, and the sync timer restarts.
     */
    method SendAdvert(now: int)
      requires Valid()
      modifies this, queue, queue.msgs, queue.sizes, syncMsg
      ensures Valid() && LinkKept() && nodesChanged == old(nodesChanged) && events == old(events)
      ensures txTimeout == old(txTimeout) && syncTime == old(syncTime)
      ensures checkSwitchSyncTime == old(checkSwitchSyncTime) && notifyTimer == now
      ensures old(queue.fifo) <= queue.fifo
      ensures var frame := EncodeMap(MapMsg(0, deviceId, AdvertRows(Rows(table.slots[..]))));
        |frame| == MAP_HEADER_SIZE + ROW_SIZE * (Count(table.slots[..]) + 1) <= MAP_MSG_SIZE
        && syncMsg[..|frame|] == frame
        && (old(queue.Coherent()) ==>
              queue.Coherent()
              && queue.Pending() == old(queue.Pending())
                   + if queue.ready && FirstFree(old(queue.msgs[..])) < SEND_QUEUE_SIZE then [frame] else [])
    {
      var len := BuildAdvert(table, syncMsg, deviceId);
      MapHeaderFields(syncMsg[..], 0, deviceId);
      var ok := queue.AddSendRequest(syncMsg[..], len as byte);
      notifyTimer := now;
    }

    /**
     * The sync step: when syncTime has passed since the last sync, the table is swept and the
     * advertisement of the swept table is queued.
     */
    method SyncStep(now: int)
      requires Valid()
      modifies this, table.slots, queue, queue.msgs, queue.sizes, syncMsg
      ensures Valid() && LinkKept() && nodesChanged == old(nodesChanged) && txTimeout == old(txTimeout)
      ensures old(queue.fifo) <= queue.fifo
      ensures now - old(notifyTimer) < old(syncTime) ==>
        TimersKept() && events == old(events) && table.slots[..] == old(table.slots[..])
        && unchanged(queue, queue.msgs, queue.sizes)
      ensures now - old(notifyTimer) >= old(syncTime) ==>
        var c := CleanFrom(old(table.slots[..]), now, 0, true);
        var frame := EncodeMap(MapMsg(0, deviceId, AdvertRows(Rows(c.slots))));
        table.slots[..] == c.slots && notifyTimer == now
        && (if c.upToDate then
              syncTime == old(syncTime) && checkSwitchSyncTime == old(checkSwitchSyncTime) && events == old(events)
            else
              syncTime == INIT_SYNCTIME && checkSwitchSyncTime == now && events == old(events) + [NodesListChanged])
        && syncMsg[..|frame|] == frame
        && (old(queue.Coherent()) ==>
              queue.Coherent()
              && queue.Pending() == old(queue.Pending())
                   + if queue.ready && FirstFree(old(queue.msgs[..])) < SEND_QUEUE_SIZE then [frame] else [])
    {
      if now - notifyTimer >= syncTime {
        SweepStep(now);
        SendAdvert(now);
      }
    }

    /** After SWITCH_SYNCTIME without a topology change the sync interval becomes DEFAULT_SYNCTIME. */
    method RelaxStep(now: int)
      requires Valid()
      modifies this
      ensures Valid() && LinkKept() && events == old(events) && nodesChanged == old(nodesChanged)
      ensures notifyTimer == old(notifyTimer) && txTimeout == old(txTimeout)
      ensures if now - old(checkSwitchSyncTime) >= SWITCH_SYNCTIME && old(syncTime) != DEFAULT_SYNCTIME
        then syncTime == DEFAULT_SYNCTIME && checkSwitchSyncTime == now
        else syncTime == old(syncTime) && checkSwitchSyncTime == old(checkSwitchSyncTime)
    {
      if now - checkSwitchSyncTime >= SWITCH_SYNCTIME && syncTime != DEFAULT_SYNCTIME {
        syncTime := DEFAULT_SYNCTIME;
        checkSwitchSyncTime := now;
      }
    }

    /** More than TX_STALL_TIME in MESH_TX: the radio is put back to receiving. */
    method StallGuard(now: int)
      requires Valid()
      modifies this
      ensures Valid() && TimersKept() && events == old(events) && nodesChanged == old(nodesChanged)
      ensures cadRetries == old(cadRetries) && txLen == old(txLen)
      ensures if old(state) == Transmitting && now - old(txTimeout) > TX_STALL_TIME
        then state == Idle && radio == old(radio) + [Standby, Receive(0)]
        else state == old(state) && radio == old(radio)
    {
      if state == Transmitting && now - txTimeout > TX_STALL_TIME {
        radio := radio + [Standby, Receive(0)];
        state := Idle;
      }
    }

    /**
     * The drain step: when a slot is queued and no transmission is in progress, the oldest
     * queued frame is copied into the zeroed txPckg, its slot is freed, and channel activity
     * detection starts.
     */
    method DrainStep(now: int)
      requires Valid()
      modifies this, queue, queue.msgs, txPckg
      ensures Valid() && events == old(events) && nodesChanged == old(nodesChanged) && cadRetries == old(cadRetries)
      ensures syncTime == old(syncTime) && notifyTimer == old(notifyTimer)
      ensures checkSwitchSyncTime == old(checkSwitchSyncTime)
      ensures if old(queue.fifo) != [] && old(state) != Transmitting then
          var idx := old(queue.fifo[0]);
          var frame := old(queue.msgs[idx][..queue.sizes[idx]]);
          txLen == |frame| && txPckg[..] == frame + Zeros(RADIO_BUFFER_SIZE - |frame|)
          && queue.fifo == old(queue.fifo[1..])
          && queue.msgs[..] == old(queue.msgs[..])[idx := old(queue.msgs[idx])[TYPE_OFFSET := TYPE_FREE]]
          && state == Transmitting && radio == old(radio) + [Standby, StartCad] && txTimeout == now
          && (old(queue.Coherent()) ==>
                queue.Coherent() && frame == old(queue.Pending())[0] && queue.Pending() == old(queue.Pending())[1..])
        else
          unchanged(queue, queue.msgs, txPckg) && LinkKept() && txTimeout == old(txTimeout)
    {
      if queue.fifo != [] && state != Transmitting {
        var idx, frame := queue.Take();
        txLen := |frame|;
        PutBytes(txPckg, 0, frame + Zeros(RADIO_BUFFER_SIZE - |frame|));
        state := Transmitting;
        radio := radio + [Standby, StartCad];
        txTimeout := now;
      }
    }

    /**
     * One pass of the meshTask loop at time now. A due sync always runs, a change is never
     * left pending, and a queued frame that waits only for the radio is started at the latest
     * in the pass after the stall guard fires.
     */
    method Iterate(now: int)
      requires Valid()
      modifies this, table.slots, queue, queue.msgs, queue.sizes, txPckg, syncMsg
      ensures Valid() && !nodesChanged
      ensures now - old(notifyTimer) >= old(syncTime) ==> notifyTimer == now
      ensures old(queue.fifo) != [] && (old(state) != Transmitting || now - old(txTimeout) > TX_STALL_TIME) ==>
        state == Transmitting && txTimeout == now
    {
      NotifyStep();
      SyncStep(now);
      RelaxStep(now);
      StallGuard(now);
      DrainStep(now);
    }

    // ------------------------------------------------------------ radio callbacks

    /**
     * OnCadDone: a busy channel bumps the retry counter (never reset, wrapping as a uint8) and
     * restarts detection until the counter reaches CAD_RETRY, when the frame is dropped and the
     * radio goes back to receiving; a free channel sends txPckg.
     */
    method OnCadDone(busy: bool)
      requires Valid()
      modifies this
      ensures Valid() && TimersKept() && events == old(events) && nodesChanged == old(nodesChanged)
      ensures txLen == old(txLen)
      ensures busy ==> cadRetries == (old(cadRetries) + 1) % 256
      ensures busy ==>
        if cadRetries >= CAD_RETRY
        then state == Idle && radio == old(radio) + [Standby, Receive(0)]
        else state == old(state) && radio == old(radio) + [Standby, StartCad]
      ensures !busy ==>
        cadRetries == old(cadRetries) && state == old(state) && radio == old(radio) + [Standby, Send(txPckg[..txLen])]
    {
      if busy {
        cadRetries := (cadRetries + 1) % 256;
        if cadRetries >= CAD_RETRY {
          state := Idle;
          radio := radio + [Standby, Receive(0)];
        } else {
          radio := radio + [Standby, StartCad];
        }
      } else {
        radio := radio + [Standby, Send(txPckg[..txLen])];
      }
    }

    /** OnTxDone: back to receiving. */
    method OnTxDone()
      requires Valid()
      modifies this
      ensures Valid() && TimersKept() && events == old(events) && nodesChanged == old(nodesChanged)
      ensures cadRetries == old(cadRetries) && txLen == old(txLen)
      ensures state == Idle && radio == old(radio) + [Standby, Receive(0)]
    {
      state := Idle;
      radio := radio + [Standby, Receive(0)];
    }

    /** OnTxTimeout: handled like a completed transmission. */
    method OnTxTimeout()
      requires Valid()
      modifies this
      ensures Valid() && TimersKept() && events == old(events) && nodesChanged == old(nodesChanged)
      ensures cadRetries == old(cadRetries) && txLen == old(txLen)
      ensures state == Idle && radio == old(radio) + [Standby, Receive(0)]
    {
      state := Idle;
      radio := radio + [Standby, Receive(0)];
    }

    /** OnRxTimeout: re-arms receiving unless a transmission is in progress. */
    method OnRxTimeout()
      requires Valid()
      modifies this
      ensures Valid() && TimersKept() && events == old(events) && nodesChanged == old(nodesChanged)
      ensures cadRetries == old(cadRetries) && txLen == old(txLen)
      ensures if old(state) == Transmitting then state == old(state) && radio == old(radio)
        else state == Idle && radio == old(radio) + [Standby, Receive(0)]
    {
      if state != Transmitting {
        state := Idle;
        radio := radio + [Standby, Receive(0)];
      }
    }

    /** OnRxError: as OnRxTimeout. */
    method OnRxError()
      requires Valid()
      modifies this
      ensures Valid() && TimersKept() && events == old(events) && nodesChanged == old(nodesChanged)
      ensures cadRetries == old(cadRetries) && txLen == old(txLen)
      ensures if old(state) == Transmitting then state == old(state) && radio == old(radio)
        else state == Idle && radio == old(radio) + [Standby, Receive(0)]
    {
      if state != Transmitting {
        state := Idle;
        radio := radio + [Standby, Receive(0)];
      }
    }

    /**
     * OnRxDone for a frame of size bytes: the frame (and the byte after it) is copied into
     * rxBuffer, receiving is re-armed, and the buffer is dispatched as Classify says: an
     * advertisement updates the node list, a direct frame for this node is delivered, a forward
     * frame for this node is readdressed along the route to its target and queued.
     */
    method OnRxDone(payload: seq<byte>, size: nat, now: int)
      requires Valid() && size < RADIO_BUFFER_SIZE && size < |payload|
      modifies this, table.slots, queue, queue.msgs, queue.sizes, rxBuffer
      ensures Valid() && TimersKept() && cadRetries == old(cadRetries) && txLen == old(txLen)
      ensures state == Idle && radio == old(radio) + [Standby, Receive(0)]
      ensures Dispatched(Received(old(rxBuffer[..]), payload, size), size, now)
    {
      PutBytes(rxBuffer, 0, payload[..size + 1]);
      assert rxBuffer[..] == Received(old(rxBuffer[..]), payload, size);
      state := Idle;
      radio := radio + [Standby, Receive(0)];
      Dispatch(size, now);
    }

    /** The dispatch of OnRxDone on the frame of size bytes now in rxBuffer. */
    method Dispatch(size: nat, now: int)
      requires Valid() && size < RADIO_BUFFER_SIZE
      modifies this, table.slots, queue, queue.msgs, queue.sizes, rxBuffer
      ensures Valid() && TimersKept() && LinkKept()
      ensures Dispatched(old(rxBuffer[..]), size, now)
    {
      if rxBuffer[0] == PREAMBLE[0] && rxBuffer[1] == PREAMBLE[1] && rxBuffer[2] == PREAMBLE[2] {
        assert rxBuffer[..3] == PREAMBLE;
        if rxBuffer[TYPE_OFFSET] == TYPE_MAP {
          MapFrame(size, now);
        } else if rxBuffer[TYPE_OFFSET] == TYPE_DIRECT {
          if Field(rxBuffer[..], 4) == deviceId {
            // the payload length goes out as a uint16
            events := events + [DataAvailable((size - MAP_HEADER_SIZE) % 0x1_0000)];
          }
        } else if rxBuffer[TYPE_OFFSET] == TYPE_FORWARD {
          if Field(rxBuffer[..], 4) == deviceId {
            ForwardFrame(size);
          }
        }
      } else {
        assert rxBuffer[..3] != PREAMBLE;
      }
    }

    /**
     * The advertisement branch: a frame from a sender the filter accepts and closed by the
     * sentinel updates the node list, and the result of that update is the change flag.
     */
    method MapFrame(size: nat, now: int)
      requires Valid() && size < RADIO_BUFFER_SIZE
      requires rxBuffer[..3] == PREAMBLE && rxBuffer[TYPE_OFFSET] == TYPE_MAP
      modifies this, table.slots
      ensures Valid() && TimersKept() && LinkKept() && events == old(events)
      ensures var c := Classify(rxBuffer[..], size, deviceId, accept);
        if c.Advert? then
          var r := ReceiveMap(old(table.slots[..]), c.m, deviceId, now);
          table.slots[..] == r.slots && nodesChanged == r.changed
        else
          table.slots[..] == old(table.slots[..]) && nodesChanged == old(nodesChanged)
    {
      if accept(Field(rxBuffer[..], 8)) {
        AcceptedWhenSentinel(rxBuffer[..], size);
        var valid := false;
        if size >= MAP_HEADER_SIZE + ROW_SIZE {
          valid := SentinelCheck(rxBuffer, size);
        }
        if valid {
          var changed := ApplyAdvert(table, rxBuffer[..size], deviceId, now);
          nodesChanged := changed;
        }
      }
    }

    /**
     * The forward branch: the route to the frame's from field is looked up; a direct route
     * readdresses the frame to that node as a direct frame from this node, a route through a
     * hop readdresses it to the hop; the frame is queued with its received size. Without a
     * route nothing is sent.
     */
    method ForwardFrame(size: nat)
      requires Valid() && size < RADIO_BUFFER_SIZE
      modifies rxBuffer, queue, queue.msgs, queue.sizes
      ensures Valid()
      ensures var target := Field(old(rxBuffer[..]), 8);
        var i := FindId(table.slots[..], target);
        if i == table.slots.Length then
          rxBuffer[..] == old(rxBuffer[..]) && unchanged(queue, queue.msgs, queue.sizes)
        else
          var f := Rewrite(old(rxBuffer[..]), deviceId, target, table.slots[i].firstHop);
          rxBuffer[..] == f
          && (old(queue.Coherent()) && TYPE_OFFSET < size ==>
                queue.Coherent()
                && queue.Pending() == old(queue.Pending())
                     + if queue.ready && FirstFree(old(queue.msgs[..])) < SEND_QUEUE_SIZE then [f[..size]] else [])
    {
      var target := Field(rxBuffer[..], 8);
      var found, route := table.GetRoute(target, EMPTY_ENTRY);
      if found {
        RewriteFrame(rxBuffer, deviceId, target, route.firstHop);
        var ok := queue.AddSendRequest(rxBuffer[..], size as byte);
      }
    }
  }
}
