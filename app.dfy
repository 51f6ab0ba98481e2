/**
 * The sending side of the example application (src/main.cpp): the node id packed from the
 * board's unique id, the application's copy of the node list, and the addressing of the
 * frames it queues every 30 seconds.
 */
module App {
  import opened Wire
  import opened RouterSpec
  import opened MeshSpec
  import opened SendQueue
  import opened Mesh

  /** Interval between two application sends (milliseconds). */
  const SEND_INTERVAL: int := 30000

  /** deviceID: bytes 2 to 5 of the board's unique id, most significant first. */
  function DeviceId(mac: seq<byte>): (id: u32)
    requires |mac| == 8
    ensures LeBytes(id) == [mac[5], mac[4], mac[3], mac[2]]
  {
    assert LeValue([mac[5], mac[4], mac[3], mac[2]])
           == mac[2] as int * 0x100_0000 + mac[3] as int * 0x1_0000 + mac[4] as int * 0x100 + mac[5] as int;
    mac[2] as int * 0x100_0000 + mac[3] as int * 0x1_0000 + mac[4] as int * 0x100 + mac[5] as int
  }

  /** The type, dest and from fields the application writes into outData. */
  datatype Addressing = Addressing(kind: byte, dest: u32, from: u32)

  /** The first twelve bytes of an addressed frame. */
  function Header(a: Addressing): (h: seq<byte>)
    ensures |h| == MAP_HEADER_SIZE
  {
    PREAMBLE + [a.kind] + LeBytes(a.dest) + LeBytes(a.from)
  }

  /**
   * A unicast along route: through a first hop it is a forward frame to that hop whose from
   * field carries the target; to a direct neighbour it is a direct frame from this node.
   */
  function UnicastAddressing(route: NodeEntry, self: u32): (a: Addressing)
    ensures a.kind == TYPE_FORWARD || a.kind == TYPE_DIRECT
    ensures a.kind == TYPE_DIRECT <==> route.firstHop == 0
    ensures a.kind == TYPE_FORWARD ==> a.dest == route.firstHop && a.from == route.nodeId
    ensures a.kind == TYPE_DIRECT ==> a.dest == route.nodeId && a.from == self
  {
    if route.firstHop != 0 then Addressing(TYPE_FORWARD, route.firstHop, route.nodeId)
    else Addressing(TYPE_DIRECT, route.nodeId, self)
  }

  /** A broadcast: type 3 from this node, with the broadcast id in dest. */
  function BroadcastAddressing(bcId: u32, self: u32): (a: Addressing)
    ensures a.kind == TYPE_BROADCAST && a.dest == bcId && a.from == self
  {
    Addressing(TYPE_BROADCAST, bcId, self)
  }

  /**
   * outData after it is addressed and the text is formatted into its payload area: the header
   * fields, orig as it was, the text and its terminating zero, and the rest as it was.
   */
  function Composed(buf: seq<byte>, a: Addressing, text: seq<byte>): (r: seq<byte>)
    requires |buf| == DATA_MSG_SIZE && |text| < DATA_PAYLOAD_SIZE
    ensures |r| == DATA_MSG_SIZE
  {
    Header(a) + buf[MAP_HEADER_SIZE..DATA_HEADER_SIZE] + text + [0] + buf[DATA_HEADER_SIZE + |text| + 1..]
  }

  /**
   * The bytes queued from outData: dataLen = 12 + the text length. The payload starts at
   * offset 16, so the frame carries orig and all but the last four bytes of the text.
   */
  function Outgoing(buf: seq<byte>, a: Addressing, text: seq<byte>): (f: seq<byte>)
    requires |buf| == DATA_MSG_SIZE && |text| < DATA_PAYLOAD_SIZE
    ensures |f| == MAP_HEADER_SIZE + |text|
    ensures f[..MAP_HEADER_SIZE] == Header(a)
    ensures |text| >= 4 ==>
      f[MAP_HEADER_SIZE..DATA_HEADER_SIZE] == buf[MAP_HEADER_SIZE..DATA_HEADER_SIZE]
      && f[DATA_HEADER_SIZE..] == text[..|text| - 4]
  {
    Composed(buf, a, text)[..MAP_HEADER_SIZE + |text|]
  }

  /** A received frame that starts with a's header is dispatched on a's fields. */
  lemma Arrives(a: Addressing, buf: seq<byte>, size: nat, node: u32, accept: u32 -> bool)
    requires |buf| == RADIO_BUFFER_SIZE && MAP_HEADER_SIZE <= size <= |buf|
    requires buf[..MAP_HEADER_SIZE] == Header(a) && a.kind != TYPE_MAP
    ensures Classify(buf, size, node, accept) ==
      if a.kind == TYPE_DIRECT && a.dest == node then Deliver(size - MAP_HEADER_SIZE)
      else if a.kind == TYPE_FORWARD && a.dest == node then Forward(a.from)
      else Ignored
  {
    assert Header(a) == DataHeader(a.kind, a.dest, a.from, 0)[..MAP_HEADER_SIZE];
    ClassifyData(buf, size, node, accept, a.kind, a.dest, a.from, 0);
  }

  /**
   * A unicast along route is acted on by one node only: the target delivers it when the route
   * is direct; otherwise the first hop takes it as a frame to pass on towards the target.
   */
  lemma UnicastArrives(route: NodeEntry, self: u32, buf: seq<byte>, size: nat, node: u32, accept: u32 -> bool)
    requires |buf| == RADIO_BUFFER_SIZE && MAP_HEADER_SIZE <= size <= |buf|
    requires buf[..MAP_HEADER_SIZE] == Header(UnicastAddressing(route, self))
    ensures Classify(buf, size, node, accept) ==
      if route.firstHop == 0 then (if node == route.nodeId then Deliver(size - MAP_HEADER_SIZE) else Ignored)
      else (if node == route.firstHop then Forward(route.nodeId) else Ignored)
  {
    Arrives(UnicastAddressing(route, self), buf, size, node, accept);
  }

  /** A broadcast is acted on by no receiver: the receive callback ignores type 3. */
  lemma BroadcastIgnored(bcId: u32, self: u32, buf: seq<byte>, size: nat, node: u32, accept: u32 -> bool)
    requires |buf| == RADIO_BUFFER_SIZE && MAP_HEADER_SIZE <= size <= |buf|
    requires buf[..MAP_HEADER_SIZE] == Header(BroadcastAddressing(bcId, self))
    ensures Classify(buf, size, node, accept) == Ignored
  {
    Arrives(BroadcastAddressing(bcId, self), buf, size, node, accept);
  }

  /**
   * A unicast through a first hop H: H takes it for the target, and once H has rewritten it for
   * its own route to the target (first hop h2), the target delivers it when h2 == 0, and h2
   * passes it on towards the same target otherwise.
   */
  lemma RelayReachesTarget(route: NodeEntry, self: u32, buf: seq<byte>, size: nat, h2: u32,
                           next: seq<byte>, node: u32, accept: u32 -> bool)
    requires route.firstHop != 0
    requires |buf| == RADIO_BUFFER_SIZE && MAP_HEADER_SIZE <= size <= |buf|
    requires buf[..MAP_HEADER_SIZE] == Header(UnicastAddressing(route, self))
    requires |next| == RADIO_BUFFER_SIZE && next[..size] == Rewrite(buf, route.firstHop, route.nodeId, h2)[..size]
    ensures Classify(buf, size, route.firstHop, accept) == Forward(route.nodeId)
    ensures Classify(next, size, node, accept) ==
      if h2 == 0 then (if node == route.nodeId then Deliver(size - MAP_HEADER_SIZE) else Ignored)
      else (if node == h2 then Forward(route.nodeId) else Ignored)
  {
    UnicastArrives(route, self, buf, size, route.firstHop, accept);
    assert buf[..3] == Header(UnicastAddressing(route, self))[..3];
    assert buf[8..12] == LeBytes(route.nodeId);
    LeValueOfBytes(route.nodeId);
    RewriteReachesNextHop(buf, size, route.firstHop, route.nodeId, h2, next, node, accept);
  }

  class Application {
    const deviceId: u32
    /** The mesh this node runs: its node list and its send queue. */
    const mesh: MeshEngine
    /** outData, the dataMsg the application fills before queuing it. */
    const outData: array<byte>
    /** nodeId[], firstHop[] and numHops[]: the application's copy of the node list. */
    const nodeIds: array<u32>
    const firstHops: array<u32>
    const hopCounts: array<byte>
    /** numElements. */
    var count: byte
    /** sendRandom: when the send timer last fired. */
    var sendRandom: int
    /** routeToNode. */
    var routeToNode: NodeEntry

    ghost predicate Valid()
      reads this, mesh, mesh.table, mesh.table.slots, mesh.queue, mesh.queue.msgs, mesh.queue.sizes,
            mesh.rxBuffer, mesh.txPckg, mesh.syncMsg
    {
      mesh.Valid() && outData.Length == DATA_MSG_SIZE
      && nodeIds.Length == MAP_ROWS && firstHops.Length == MAP_ROWS && hopCounts.Length == MAP_ROWS
      && nodeIds != firstHops && hopCounts != outData
      && outData != mesh.queue.sizes && outData != mesh.rxBuffer && outData != mesh.txPckg && outData != mesh.syncMsg
      && hopCounts != mesh.queue.sizes && hopCounts != mesh.rxBuffer && hopCounts != mesh.txPckg
      && hopCounts != mesh.syncMsg
    }

    /**
     * setup() after initMesh: deviceID is packed from the unique id, outData holds the dataMsg
     * defaults, the node-list copy is empty and the send timer starts at now.
     */
    constructor (mac: seq<byte>, mesh: MeshEngine, now: int)
      requires |mac| == 8 && mesh.Valid() && mesh.deviceId == DeviceId(mac)
      ensures Valid() && this.mesh == mesh && deviceId == DeviceId(mac)
      ensures outData[..] == DataHeader(TYPE_FREE, 0, 0, 0) + Zeros(DATA_PAYLOAD_SIZE)
      ensures count == 0 && sendRandom == now && routeToNode == EMPTY_ENTRY
      ensures forall j | 0 <= j < MAP_ROWS :: nodeIds[j] == 0 && firstHops[j] == 0 && hopCounts[j] == 0
    {
      deviceId := DeviceId(mac);
      this.mesh := mesh;
      outData := new byte[DATA_MSG_SIZE](i => if i == 0 then 0x4C else if i == 1 then 0x6F
                                             else if i == 2 then 0x52 else 0);
      nodeIds := new u32[MAP_ROWS](_ => 0);
      firstHops := new u32[MAP_ROWS](_ => 0);
      hopCounts := new byte[MAP_ROWS](_ => 0);
      count := 0;
      sendRandom := now;
      routeToNode := EMPTY_ENTRY;
      new;
      assert outData[..] == DataHeader(TYPE_FREE, 0, 0, 0) + Zeros(DATA_PAYLOAD_SIZE);
    }

    /**
     * The node-list refresh of loop(): numElements becomes the row count and the first
     * numElements entries of nodeId[], firstHop[] and numHops[] are read row by row with getNode.
     */
    method RefreshNodes()
      requires Valid()
      modifies this, nodeIds, firstHops, hopCounts
      ensures Valid() && sendRandom == old(sendRandom) && routeToNode == old(routeToNode)
      ensures count as int == Count(mesh.table.slots[..])
      ensures forall j | 0 <= j < count as int ::
        var x := Rows(mesh.table.slots[..])[j];
        nodeIds[j] == x.nodeId && firstHops[j] == x.firstHop && hopCounts[j] == x.numHops
      ensures forall j | count as int <= j < MAP_ROWS ::
        nodeIds[j] == old(nodeIds[j]) && firstHops[j] == old(firstHops[j]) && hopCounts[j] == old(hopCounts[j])
    {
      count := mesh.table.NumOfNodes();
      CopyRows(count);
    }

    /** The getNode loop of the refresh: entries 0 .. n - 1 of the copy are the first n rows. */
    method CopyRows(n: byte)
      requires Valid() && n as int == Count(mesh.table.slots[..])
      modifies nodeIds, firstHops, hopCounts
      ensures forall j | 0 <= j < n as int ::
        var x := Rows(mesh.table.slots[..])[j];
        nodeIds[j] == x.nodeId && firstHops[j] == x.firstHop && hopCounts[j] == x.numHops
      ensures forall j | n as int <= j < MAP_ROWS ::
        nodeIds[j] == old(nodeIds[j]) && firstHops[j] == old(firstHops[j]) && hopCounts[j] == old(hopCounts[j])
    {
      var idx: byte := 0;
      while idx < n
        invariant 0 <= idx <= n
        invariant forall j | 0 <= j < idx as int ::
          var x := Rows(mesh.table.slots[..])[j];
          nodeIds[j] == x.nodeId && firstHops[j] == x.firstHop && hopCounts[j] == x.numHops
        invariant forall j | idx as int <= j < MAP_ROWS ::
          nodeIds[j] == old(nodeIds[j]) && firstHops[j] == old(firstHops[j]) && hopCounts[j] == old(hopCounts[j])
      {
        var ok, id, hop, hops := mesh.table.GetNode(idx, nodeIds[idx], firstHops[idx], hopCounts[idx]);
        assert mesh.table.slots[idx] == Rows(mesh.table.slots[..])[idx];
        nodeIds[idx] := id;
        firstHops[idx] := hop;
        hopCounts[idx] := hops;
        idx := idx + 1;
      }
    }

    /**
     * Fills outData with the addressing a and the formatted text and queues 12 + |text| bytes of
     * it. In a coherent queue the frame joins the pending frames exactly when the queue has
     * been created and a slot is free.
     */
    method Post(a: Addressing, text: seq<byte>) returns (queued: bool)
      requires Valid() && |text| < DATA_PAYLOAD_SIZE && a.kind != TYPE_FREE
      modifies outData, mesh.queue, mesh.queue.msgs, mesh.queue.sizes
      ensures Valid()
      ensures outData[..] == Composed(old(outData[..]), a, text)
      ensures old(mesh.queue.Coherent()) ==>
        mesh.queue.Coherent()
        && (queued <==> mesh.queue.ready && FirstFree(old(mesh.queue.msgs[..])) < SEND_QUEUE_SIZE)
        && mesh.queue.Pending() == old(mesh.queue.Pending()) + if queued then [Outgoing(old(outData[..]), a, text)] else []
    {
      ghost var o := outData[..];
      Compose(a, text);
      var n: byte := MAP_HEADER_SIZE + |text|;
      assert outData[..][..n] == Outgoing(o, a, text);
      assert outData[TYPE_OFFSET] == a.kind by {
        assert outData[..][..MAP_HEADER_SIZE] == Header(a);
      }
      queued := mesh.queue.AddSendRequest(outData[..], n);
      assert mesh.table.slots[..] == old(mesh.table.slots[..]) && mesh.syncMsg[..] == old(mesh.syncMsg[..]);
    }

    /** The field assignments and the sprintf into outData. */
    method Compose(a: Addressing, text: seq<byte>)
      requires outData.Length == DATA_MSG_SIZE && |text| < DATA_PAYLOAD_SIZE
      modifies outData
      ensures outData[..] == Composed(old(outData[..]), a, text)
    {
      ghost var o := outData[..];
      PutBytes(outData, 0, Header(a));
      ghost var o1 := outData[..];
      assert o1[..DATA_HEADER_SIZE] == Header(a) + o[MAP_HEADER_SIZE..DATA_HEADER_SIZE];
      PutBytes(outData, DATA_HEADER_SIZE, text + [0]);
      assert o1[DATA_HEADER_SIZE + |text| + 1..] == o[DATA_HEADER_SIZE + |text| + 1..];
    }

    /**
     * The unicast branch of loop(): with at least two rows, the route to nodeId[pick] is looked
     * up (routeToNode keeps its old value when that id is no longer listed) and outData,
     * addressed along it, is queued. With fewer rows nothing is sent.
     */
    method SendUnicast(pick: nat, text: seq<byte>) returns (queued: bool)
      requires Valid() && |text| < DATA_PAYLOAD_SIZE
      requires Count(mesh.table.slots[..]) >= 2 ==> pick < Count(mesh.table.slots[..])
      modifies this, outData, mesh.queue, mesh.queue.msgs, mesh.queue.sizes
      ensures Valid() && sendRandom == old(sendRandom)
      ensures count as int == Count(mesh.table.slots[..])
      ensures count < 2 ==>
        !queued && routeToNode == old(routeToNode) && outData[..] == old(outData[..])
        && mesh.queue.fifo == old(mesh.queue.fifo) && mesh.queue.msgs[..] == old(mesh.queue.msgs[..])
        && mesh.queue.sizes[..] == old(mesh.queue.sizes[..])
      ensures count >= 2 ==>
        var s, id := mesh.table.slots[..], old(nodeIds[pick]);
        routeToNode == (if FindId(s, id) < |s| then old(routeToNode).(nodeId := id, firstHop := s[FindId(s, id)].firstHop)
                        else old(routeToNode))
        && outData[..] == Composed(old(outData[..]), UnicastAddressing(routeToNode, deviceId), text)
      ensures count >= 2 && old(mesh.queue.Coherent()) ==>
        mesh.queue.Coherent()
        && (queued <==> mesh.queue.ready && FirstFree(old(mesh.queue.msgs[..])) < SEND_QUEUE_SIZE)
        && mesh.queue.Pending() == old(mesh.queue.Pending())
           + if queued then [Outgoing(old(outData[..]), UnicastAddressing(routeToNode, deviceId), text)] else []
    {
      count := mesh.table.NumOfNodes();
      if count < 2 {
        return false;
      }
      var found;
      found, routeToNode := mesh.table.GetRoute(nodeIds[pick], routeToNode);
      queued := Post(UnicastAddressing(routeToNode, deviceId), text);
    }

    /**
     * The send part of one pass of loop() at time now: once 30 s have passed since the timer
     * last fired it restarts, and the random draw picks either a broadcast to the broadcast id
     * bcId or a unicast to entry pick of the node-list copy.
     */
    method SendStep(now: int, broadcast: bool, bcId: u32, pick: nat, text: seq<byte>) returns (queued: bool)
      requires Valid() && |text| < DATA_PAYLOAD_SIZE
      requires Count(mesh.table.slots[..]) >= 2 ==> pick < Count(mesh.table.slots[..])
      modifies this, outData, mesh.queue, mesh.queue.msgs, mesh.queue.sizes
      ensures Valid()
      ensures now - old(sendRandom) < SEND_INTERVAL ==>
        !queued && sendRandom == old(sendRandom) && count == old(count) && routeToNode == old(routeToNode)
        && outData[..] == old(outData[..]) && mesh.queue.fifo == old(mesh.queue.fifo)
        && mesh.queue.msgs[..] == old(mesh.queue.msgs[..]) && mesh.queue.sizes[..] == old(mesh.queue.sizes[..])
      ensures now - old(sendRandom) >= SEND_INTERVAL ==> sendRandom == now
      ensures now - old(sendRandom) >= SEND_INTERVAL && broadcast ==>
        count == old(count) && routeToNode == old(routeToNode)
        && outData[..] == Composed(old(outData[..]), BroadcastAddressing(bcId, deviceId), text)
        && (old(mesh.queue.Coherent()) ==>
              mesh.queue.Coherent()
              && mesh.queue.Pending() == old(mesh.queue.Pending())
                 + if queued then [Outgoing(old(outData[..]), BroadcastAddressing(bcId, deviceId), text)] else [])
      ensures now - old(sendRandom) >= SEND_INTERVAL && !broadcast ==>
        count as int == Count(mesh.table.slots[..])
        && (count < 2 ==> !queued && outData[..] == old(outData[..]) && mesh.queue.fifo == old(mesh.queue.fifo))
        && (count >= 2 ==> outData[..] == Composed(old(outData[..]), UnicastAddressing(routeToNode, deviceId), text))
    {
      if now - sendRandom < SEND_INTERVAL {
        return false;
      }
      sendRandom := now;
      if broadcast {
        queued := Post(BroadcastAddressing(bcId, deviceId), text);
      } else {
        queued := SendUnicast(pick, text);
      }
    }
  }
}
