# LoRa mesh router — a verified model

This project models the core of a small LoRa mesh network for SX126x radios. Every node keeps
a fixed-size **node list** of the nodes it can reach: a direct neighbour has first hop 0, and
any other node is reached through a first hop and a hop count. Each node periodically
broadcasts a **map advertisement** with its node list. Receivers merge that list into their own,
one hop further out. Data frames are sent **direct** to a neighbour or **forward** through a
first hop. A forward frame's `from` field carries the final target, and every relay readdresses
the frame along its own route. Outgoing frames wait in a ten-slot **send queue**. The mesh task
drains the queue one frame at a time, gated by channel-activity detection (CAD) on the radio.

The model is written in Dafny, in the modules below.

- `Wire` (wire.dfy) covers the frame layouts of `src/Mesh/mesh.h`:
  - the 12-byte map header;
  - the 5-byte little-endian advertisement rows;
  - the sentinel row `AA 55 00 FF AA`;
  - the 16-byte data header.

  It has encoders and decoders with their round trips.
- `Seqs` (seqs.dfy) is a generic order-keeping filter with its lemmas. It states what the table
  sweeps remove.
- `RouterSpec` (router_spec.dfy) gives the node list as a value. It defines each operation of
  `src/router.cpp` as a function on the slot sequence, and proves that operation's policy as
  lemmas.
- `Router` (router.dfy) holds the class `RoutingTable`. It keeps the slots in an array, and its
  methods change the array in place as the C code does, loops included. Each method is proved
  against its `RouterSpec` function.
- `SendQueue` (send_queue.dfy) holds the class `OutboundQueue`.
  - It keeps the ten message slots, whose type byte doubles as the busy flag.
  - It keeps their sizes, and the FIFO of slot indices that stands for the RTOS queue.
- `MeshSpec` (mesh_spec.dfy) describes the receive path as functions:
  - how a received buffer is classified;
  - what an accepted advertisement does to the node list;
  - how a forward frame is readdressed.
- `Mesh` (mesh.dfy) holds the class `MeshEngine`. It covers the mesh task loop (node list,
  queue, radio buffers, radio state, CAD counter and sync timers) and the radio callbacks.
  - Radio commands and application callbacks are recorded in ghost logs.
  - `millis()` is the `now` argument of each step.
- `App` (app.dfy) covers the sending side of the example application in `src/main.cpp`:
  - the node id packed from the board's unique id;
  - the application's copy of the node list;
  - the direct, forward and broadcast addressing of the frames it queues every 30 seconds.
- `Findings` (findings.dfy) models, as the code writes them, five places where the code departs
  from its evident intent. Each comes with an input that shows the departure. The rest of the
  model uses the corrected behaviour.

Environment inputs become parameters:
- the time (`now`);
- the CAD result;
- the received payload and its size;
- the random draws of the application (broadcast or unicast, and which node);
- the broadcast id;
- the formatted text;
- the board's unique id;
- the debug topology filter, which is the predicate `accept`.

## Model

| member | source | states |
|---|---|---|
| Wire.LeBytes | src/router.cpp:231-234 | a node id is written as four bytes, least significant first |
| Wire.LeValueOfBytes | src/mesh.cpp:524-527 | reassembling the four written bytes of any id gives the id back |
| Wire.LeValue | src/mesh.cpp:524-527 | any four bytes read as an id are written back as the same four bytes, so with LeValueOfBytes the byte order is a bijection |
| Wire.EncodeRow | src/router.cpp:231-235 | an advertisement row is exactly five bytes |
| Wire.DecodeRow | src/mesh.cpp:524-528 | a row read from five bytes encodes back to those five bytes |
| Wire.RowRoundTrip | src/mesh.cpp:524-528 | decoding an encoded row (id little-endian, then hop count) returns the row |
| Wire.EncodeRows | src/router.cpp:224-238 | the encoded rows take five bytes per row |
| Wire.EncodeRowsAt | src/router.cpp:231-235 | row k of a row list occupies bytes 5k to 5k+4 of its encoding |
| Wire.EncodeRowsAppend | src/router.cpp:224-238 | writing one more row after the written ones extends the encoding by that row |
| Wire.SpliceRow | src/router.cpp:231-237 | writing a row just after the rows already in a buffer leaves the buffer holding the encoding of the longer list |
| Wire.MapHeader | src/Mesh/mesh.h:3-10 | the map header is 12 bytes (MAP_HEADER_SIZE) |
| Wire.MapHeaderFields | src/Mesh/mesh.h:3-10 | a buffer starting with a map header has the preamble "LoR" at 0-2, type 5 at 3, dest at 4-7 and from at 8-11 |
| Wire.EncodeMap | src/mesh.cpp:241-265 | an advertisement of n rows is 12 + 5(n+1) bytes, starts with its map header and ends with the sentinel row |
| Wire.SentinelPresent | src/mesh.cpp:471-477 | when the end-marker test passes, the frame has at least one row and the row tested is its last complete row (fewer than five bytes follow it) |
| Wire.SentinelRowFits | src/mesh.cpp:460-473 | for a frame of at least 17 bytes the row checked for the sentinel lies inside the frame |
| Wire.DecodeRows | src/mesh.cpp:522-528 | decoding n rows yields n rows |
| Wire.MapLayout | src/mesh.cpp:241-265 | an advertisement of n rows is 12 + 5(n+1) bytes: header fields at their offsets, row k at offset 12 + 5k, the sentinel at row n |
| Wire.MapRoundTrip | src/mesh.cpp:460-528 | the receiver decodes every encoded advertisement back to itself (dest, from and rows) |
| Wire.ParseMap | src/mesh.cpp:460-482 | an accepted frame, up to and including its sentinel row, is exactly the encoding of the advertisement it is decoded to; with MapRoundTrip, decoding and encoding are inverse |
| Wire.EncodeDecodedRows | src/mesh.cpp:522-528 | re-encoding the first n decoded rows of a frame gives back bytes 12 to 12 + 5n of it |
| Wire.ParseMapAccepts | src/mesh.cpp:460-482 | an accepted advertisement has the "LoR" preamble and type 5, holds at least one row after the header, and ends with the sentinel in the row after its listed rows |
| Wire.ParsedFields | src/mesh.cpp:522-528 | in an accepted advertisement the sender is bytes 8-11, and listed row k is read little-endian from offset 12 + 5k with its hop count at 12 + 5k + 4 |
| Wire.ParsedRows | src/mesh.cpp:460-528 | an accepted advertisement lists every row before the sentinel row, numbered (size−12)/5 − 1 |
| Wire.MapFits | src/Mesh/mesh.h:11 | an advertisement fits the 252-byte mapMsg exactly when its rows plus the sentinel are at most 48 |
| Wire.DataHeader | src/Mesh/mesh.h:14-22 | the data header is 16 bytes (DATA_HEADER_SIZE) |
| Wire.EncodeData | src/Mesh/mesh.h:14-24 | a data frame is its 16-byte header followed by its payload |
| Wire.DecodeData | src/Mesh/mesh.h:14-24 | a frame is decoded exactly when it has 16 bytes and the "LoR" preamble, and a decoded frame encodes back to the same bytes |
| Wire.DataRoundTrip | src/Mesh/mesh.h:14-24 | decoding an encoded data frame returns its type, dest, from, orig and payload |
| Wire.HeadersAgree | src/Mesh/mesh.h:3-21 | the first 12 bytes of a data header are a map header with the type byte replaced, so both frame kinds share dest and from offsets |
| RouterSpec.EmptyTable | src/mesh.cpp:125-135 | the zeroed node list has every slot empty |
| RouterSpec.EmptyTableOk | src/mesh.cpp:125-135 | the zeroed node list has no rows and is compact and duplicate-free |
| RouterSpec.FindId | src/router.cpp:33-42 | the scan index is the first slot holding the id, and equals the table size exactly when no slot holds it |
| RouterSpec.FindIdAt | src/router.cpp:33-42 | an index with no match before it and a match at it (or the end) is the scan result |
| RouterSpec.Count | src/router.cpp:248-263 | numOfNodes counts the slots before the first empty one: those are occupied and the slot at the count, if any, is empty |
| RouterSpec.Rows | src/router.cpp:248-263 | the rows are the slots before the first empty one, at most the table size |
| RouterSpec.RowsOccupied | src/router.cpp:252-259 | no row has node id 0 |
| RouterSpec.AdvertRows | src/router.cpp:193-211 | the advertised list has one (nodeId, numHops) pair per row, in table order |
| RouterSpec.AdvertRowsSnoc | src/router.cpp:197-208 | the advertised list of one more row grows by that row's pair |
| RouterSpec.DeleteAt | src/router.cpp:14-20 | after deleting slot i the slots before i are unchanged, slots i+1.. move down by one, and the last slot keeps its fields except that its nodeId becomes 0 |
| RouterSpec.DeleteAtRows | src/router.cpp:14-20 | deleting a row removes exactly that row from the rows, keeping the order of the others; deleting an empty slot of a compact table changes no row; compactness is kept |
| RouterSpec.DeleteAtKeepsTable | src/router.cpp:14-20 | deleting any slot keeps a compact duplicate-free table compact and duplicate-free |
| RouterSpec.Insert | src/router.cpp:106-126 | the insertion step keeps the table size |
| RouterSpec.InsertRows | src/router.cpp:106-126 | a new row is appended after the rows when a slot is free; on a full table row 0 is evicted and the new row appended |
| RouterSpec.InsertKeepsTable | src/router.cpp:106-126 | inserting an unlisted node keeps the table compact and duplicate-free |
| RouterSpec.AddNodeSpec | src/router.cpp:52-129 | addNode keeps the table size |
| RouterSpec.AddNodeRefreshesDirect | src/router.cpp:63-73 | a direct report of a listed direct neighbour returns false and changes only that row's timestamp, to now |
| RouterSpec.AddNodeDirectWins | src/router.cpp:63-73 | a report through a hop never changes a listed direct neighbour and returns false |
| RouterSpec.AddNodeKeepsShorterRoute | src/router.cpp:84-92 | a listed indirect node with fewer hops than the report is kept unchanged and false is returned |
| RouterSpec.AddNodeReroutes | src/router.cpp:76-101 | a listed indirect node reported directly, or with no more hops than stored (equal replaces), is removed from its place and re-appended with the new route, and true is returned |
| RouterSpec.AddNodeAppends | src/router.cpp:106-128 | an unlisted node is appended and true is returned; on a full table only row 0 is evicted, and rows routed through it stay |
| RouterSpec.AddNodeKeepsTable | src/router.cpp:52-129 | whatever is reported, addNode keeps the table compact and free of duplicate ids |
| RouterSpec.AddNodeRowsChange | src/router.cpp:52-129 | every row afterwards was a row before or is the reported route; while a slot is free no other row is lost and the table grows by at most one row |
| RouterSpec.AddNodeRefreshRows | src/router.cpp:63-72 | a direct report of a listed direct neighbour keeps the row count, removes no other row and adds nothing but that neighbour's direct row |
| RouterSpec.AddNodeEmptyRows | src/router.cpp:106-128 | a report that matches only an empty slot (id 0) adds no row: rows afterwards are old rows, and all of them while a slot was free |
| RouterSpec.ClearFrom | src/router.cpp:137-148 | the purge keeps the table size, never adds rows and keeps compactness |
| RouterSpec.ClearFromRows | src/router.cpp:139-147 | purging from row k on keeps rows 0..k−1 and filters the rest by "first hop is not id" |
| RouterSpec.ClearKeepStep | src/router.cpp:139-147 | a row whose first hop is not id stays and the scan moves on |
| RouterSpec.ClearDeleteStep | src/router.cpp:139-147 | a row whose first hop is id is deleted and the scan stays on its index |
| RouterSpec.ClearSubsRemovesDependants | src/router.cpp:137-148 | clearSubs(id) removes exactly the rows with first hop id, keeps the relative order of all other rows, and keeps the table compact and duplicate-free |
| RouterSpec.CleanFrom | src/router.cpp:155-182 | the sweep keeps the table size |
| RouterSpec.Expired | src/router.cpp:165 | a row has timed out when now > timeStamp + 120000 (a definition, used by CleanFromSweeps) |
| RouterSpec.ExpiredDirect | src/router.cpp:165-172 | the ids of the timed-out direct neighbours among the rows (a definition, used by CleanFromSweeps and ExpiredDirectAfterDrop) |
| RouterSpec.CleanFromSweeps | src/router.cpp:155-182 | cleanMap keeps, in order, exactly the rows that have not timed out (now > timeStamp + 120000) and are not routed through a timed-out direct neighbour; it returns true exactly when no row had timed out |
| RouterSpec.AddNodeRelayKeepsOrder | src/router.cpp:52-129 | addNode of a route through a relay keeps every route through a direct neighbour after that neighbour's own row |
| RouterSpec.RegisterKeepsOrder | src/mesh.cpp:485-497 | registering a sender x as a direct neighbour and then clearing the routes through x keeps the table well formed and every route after its hop's direct row |
| RouterSpec.CleanFromKeepsOrder | src/router.cpp:155-182 | cleanMap keeps every route through a direct neighbour after that neighbour's own row |
| RouterSpec.ClearSubsKeepsPrefix | src/router.cpp:137-148 | on a table in that route order, clearSubs of the direct row at index k leaves rows 0..k where they were |
| RouterSpec.CleanIndirectStep | src/router.cpp:168-179 | a timed-out row with a first hop is dropped on its own and the result is "not up to date" |
| RouterSpec.ExpiredDirectAfterDrop | src/router.cpp:172-176 | dropping a timed-out direct row and its dependants leaves the other timed-out direct neighbours listed |
| RouterSpec.CleanDirectStep | src/router.cpp:172-179 | a timed-out direct neighbour is dropped together with every row routed through it |
| Router.RoutingTable.constructor | src/mesh.cpp:125-135 | the node list starts with every slot zeroed |
| Router.RoutingTable.DeleteRoute | src/router.cpp:14-20 | deleteRoute shifts the slots after index down by one, leaves earlier slots alone, and clears only the last slot's nodeId |
| Router.RoutingTable.GetRoute | src/router.cpp:31-45 | getRoute returns true exactly when some slot holds id (for id ≠ 0, exactly when a row holds it), copying the first match's nodeId and firstHop into the route; on false the route is untouched |
| Router.RoutingTable.AddNode | src/router.cpp:52-129 | the array after addNode and the returned flag are AddNodeSpec of the old slots, with validity kept |
| Router.RoutingTable.Store | src/router.cpp:106-128 | the insertion tail of addNode leaves the slots as Insert of the old slots |
| Router.RoutingTable.ClearSubs | src/router.cpp:137-148 | clearSubs leaves the slots as ClearFrom of the old slots from row 0 |
| Router.RoutingTable.CleanMap | src/router.cpp:155-182 | cleanMap leaves the slots and its result as CleanFrom of the old slots |
| Router.RoutingTable.NumOfNodes | src/router.cpp:248-263 | numOfNodes is the number of rows: the slots before it are occupied and the slot at it is empty |
| Router.RoutingTable.GetNode | src/router.cpp:278-289 | getNode succeeds exactly when k is below numOfNodes and then returns row k's nodeId, firstHop and numHops; on failure the caller's three reference arguments keep their values |
| Router.RoutingTable.NodeMapLists | src/router.cpp:193-211 | nodeMap(subs, hops) returns the row count and writes each row's id and hop count at its index, leaving later entries alone |
| Router.RoutingTable.NodeMap | src/router.cpp:220-241 | nodeMap(nodes) returns the row count and writes the encoded rows in table order from the base offset, leaving the rest untouched |
| Router.WriteRow | src/router.cpp:231-235 | one row is written as the id's four bytes least significant first and then the hop count, nothing else changing |
| SendQueue.Busy | src/mesh.cpp:803 | a send slot is busy when its type byte is not 0 (a definition, used by FirstFree) |
| SendQueue.FirstFree | src/mesh.cpp:800-808 | the chosen slot is the lowest one whose type byte is 0, or 10 when all are busy |
| SendQueue.CopyInto | src/mesh.cpp:813 | the slot's first msgSize bytes become the package's and the rest are unchanged |
| SendQueue.BlankSlot | src/Mesh/mesh.h:14-24 | an unused slot is 259 bytes, starts with "LoR" and is free (type 0) |
| SendQueue.DistinctBelow | src/mesh.cpp:819 | distinct slot indices below n are at most n |
| SendQueue.DistinctAvoiding | src/mesh.cpp:819 | distinct queued indices that avoid a free slot are fewer than ten, so the RTOS queue always has room |
| SendQueue.OutboundQueue.constructor | src/mesh.cpp:21-27 | the queue starts with ten blank slots, zero sizes and an empty FIFO |
| SendQueue.OutboundQueue.AddSendRequest | src/mesh.cpp:790-856 | without the queue or a free slot it returns false and changes nothing; otherwise the lowest free slot gets the first msgSize bytes and the size, and the index is appended to the FIFO when it has room; in a coherent queue it succeeds exactly when the queue exists and a slot is free, and the pending frames gain this frame |
| SendQueue.OutboundQueue.Take | src/mesh.cpp:308-313 | the head index leaves the FIFO, its sendMsgSize bytes are returned, and its type byte becomes 0; in a coherent queue that frame is the oldest pending one |
| MeshSpec.Received | src/mesh.cpp:362-369 | the copy into rxBuffer overwrites the frame and one byte more, and keeps the rest of the buffer |
| MeshSpec.Classify | src/mesh.cpp:393-617 | the receive dispatch: no "LoR" preamble is exactly NotMesh; Filtered is exactly a map frame whose sender fails the filter; an accepted advertisement passes the filter and is the decoded frame; a delivery is a type 1 frame for this node with length (size − 12) mod 65536, which is size − 12 for frames of 12 bytes or more; a forward is a type 2 frame for this node, towards its from field |
| MeshSpec.ClassifyShortDirect | src/mesh.cpp:552-561 | a direct frame for this node shorter than 12 bytes is delivered with the wrapped uint16 length 65536 + size − 12 |
| MeshSpec.ClassifyAdvert | src/mesh.cpp:393-482 | an encoded advertisement is accepted and decoded to itself exactly when the topology filter accepts its sender |
| MeshSpec.AcceptedWhenSentinel | src/mesh.cpp:460-482 | a buffer with a map header is accepted exactly when its frame's last row is the sentinel |
| MeshSpec.ClassifyData | src/mesh.cpp:552-617 | a type 1 frame for this node is delivered with size−12 bytes; a type 2 frame for this node is forwarded towards its from field; any other dest or type (including 3) is ignored |
| MeshSpec.Rewrite | src/mesh.cpp:580-594 | the rewrite keeps the preamble and everything after byte 11, and makes the type 1 for a direct route and 2 otherwise |
| MeshSpec.RewriteReachesNextHop | src/mesh.cpp:569-617 | a rewritten forward frame is acted on by one node only: the target delivers it when the route was direct, and the first hop forwards it towards the same target otherwise |
| MeshSpec.ApplyRows | src/mesh.cpp:522-543 | the row loop keeps the table size, and once a change is recorded it stays recorded |
| MeshSpec.ApplyRowsAdd | src/mesh.cpp:529-541 | a row for another node is reported to addNode through the sender with hops+1 (mod 256) and the flag is OR-ed |
| MeshSpec.ApplyRowsSkip | src/mesh.cpp:529 | a row holding this node's own id is skipped |
| MeshSpec.ReceiveMap | src/mesh.cpp:483-545 | receiving an advertisement keeps the table size |
| MeshSpec.ApplyRowsFrom | src/mesh.cpp:522-543 | the row loop keeps the table compact and duplicate-free, and adds only routes through the sender for listed ids other than this node |
| MeshSpec.ApplyRowsKeeps | src/mesh.cpp:522-543 | while the table has room for every row, the row loop never removes the sender's direct row |
| MeshSpec.ReceiveMapSupersedes | src/mesh.cpp:485-543 | after an advertisement from F the table stays well formed; every route through F is for an id F listed (never this node); every row is an old row, F's own row, or such a route |
| MeshSpec.ApplyRowsKeepsOrder | src/mesh.cpp:522-543 | the row loop of an advertisement from a sender with a non-zero id keeps every route after its hop's direct row |
| MeshSpec.ReceiveMapKeepsOrder | src/mesh.cpp:485-543 | an advertisement from a sender with a non-zero id keeps every route through a direct neighbour after that neighbour's own row |
| MeshSpec.ReceiveMapRegistersSender | src/mesh.cpp:485-497 | with room for the sender and its rows, the sender ends up a direct neighbour stamped now |
| Mesh.PutBytes | src/mesh.cpp:309-310 | the bytes are written at the offset and nothing else changes |
| Mesh.PutField | src/mesh.cpp:584-593 | a u32 field is written little-endian at its offset and nothing else changes |
| Mesh.Zeros | src/mesh.cpp:243 | the zeroed area has the given length and only zero bytes |
| Mesh.WriteHeader | src/mesh.cpp:241-243 | syncMsg gets type 5, dest 0, from deviceID and zeroed rows |
| Mesh.WriteRows | src/mesh.cpp:246 | the encoded rows of the table follow the header, and the rest of syncMsg is untouched |
| Mesh.BuildAdvert | src/mesh.cpp:241-265 | syncMsg starts with the advertisement from deviceID listing the table's rows in order followed by the sentinel, and the returned length is 12 + 5(n+1) ≤ 252 |
| Mesh.SentinelCheck | src/mesh.cpp:460-477 | for frames of at least 17 bytes the end-marker test holds exactly when the last complete row is the sentinel |
| Mesh.ApplyListedRows | src/mesh.cpp:522-543 | the row loop over the received frame leaves the table and flag as ApplyRows of the decoded rows |
| Mesh.RegisterSender | src/mesh.cpp:485-497 | the sender is registered with addNode(from, 0, 0), then clearSubs(from) runs, and the flag is addNode's result |
| Mesh.SubsCount | src/mesh.cpp:460-461 | for frames of 17 to 256 bytes the uint8 payload size does not wrap and (size−12)/5 − 1 is the sentinel row |
| Mesh.ApplyAdvert | src/mesh.cpp:483-545 | an accepted frame updates the table and nodesChanged as ReceiveMap of the decoded advertisement |
| Mesh.RewriteFrame | src/mesh.cpp:580-594 | the in-place readdressing leaves rxBuffer as Rewrite of the old buffer |
| Mesh.MeshEngine.constructor | src/mesh.cpp:193-211 | the engine starts with an empty table, an empty queue, the radio in standby and then receiving, and the first sync due two sync intervals after start (time as an unbounded signed integer) |
| Mesh.MeshEngine.NotifyStep | src/mesh.cpp:217-224 | a recorded node-list change is reported once and cleared |
| Mesh.MeshEngine.SweepStep | src/mesh.cpp:228-239 | the table is swept by cleanMap; a change resets syncTime to 30000, restarts the switch timer and reports NodesListChanged |
| Mesh.MeshEngine.SendAdvert | src/mesh.cpp:240-271 | the advertisement of the table is built in syncMsg and queued (joining the pending frames when a slot is free), and the sync timer restarts at now |
| Mesh.MeshEngine.SyncStep | src/mesh.cpp:226-279 | a sync runs exactly when now − notifyTimer ≥ syncTime: it sweeps the table and queues the advertisement of the swept table; otherwise nothing changes |
| Mesh.MeshEngine.RelaxStep | src/mesh.cpp:282-287 | 300000 ms after the last switch-timer restart, syncTime becomes 60000 |
| Mesh.MeshEngine.StallGuard | src/mesh.cpp:290-296 | more than 2000 ms in MESH_TX forces MESH_IDLE and re-arms receiving; otherwise nothing changes |
| Mesh.MeshEngine.DrainStep | src/mesh.cpp:299-341 | only when the FIFO is non-empty and the radio is not transmitting: the oldest queued frame is copied into a zeroed txPckg, its slot is freed, the state becomes MESH_TX and CAD starts; so transmission follows FIFO order |
| Mesh.MeshEngine.Iterate | src/mesh.cpp:213-345 | one pass of the task loop leaves no change unreported, restarts the sync timer when a sync was due, and starts a queued frame when the radio is free or has stalled |
| Mesh.MeshEngine.OnCadDone | src/mesh.cpp:749-780 | a busy channel increments the never-reset counter (as a uint8) and at 20 or more goes idle and re-arms receiving, otherwise restarts CAD; a free channel sends the first txLen bytes of txPckg |
| Mesh.MeshEngine.OnTxDone | src/mesh.cpp:633-642 | after a transmission the state is MESH_IDLE and receiving is re-armed |
| Mesh.MeshEngine.OnTxTimeout | src/mesh.cpp:648-657 | a transmit timeout goes to MESH_IDLE and re-arms receiving |
| Mesh.MeshEngine.OnRxTimeout | src/mesh.cpp:677-690 | a receive timeout re-arms receiving unless the radio is transmitting, when nothing changes |
| Mesh.MeshEngine.OnRxError | src/mesh.cpp:713-725 | a receive error re-arms receiving unless the radio is transmitting, when nothing changes |
| Mesh.MeshEngine.OnRxDone | src/mesh.cpp:359-628 | the frame is copied into rxBuffer and the state becomes MESH_IDLE with receiving re-armed; then an accepted advertisement updates the table, a direct frame for this node is delivered with length (size − 12) mod 65536, a forward frame for this node is readdressed along the route and queued, and anything else changes nothing |
| Mesh.MeshEngine.Dispatch | src/mesh.cpp:393-618 | the dispatch of the buffered frame has the effects OnRxDone lists, case by case |
| Mesh.MeshEngine.MapFrame | src/mesh.cpp:399-551 | a map frame updates the table only when its sender passes the filter and the sentinel is present; nodesChanged is the result of that update |
| Mesh.MeshEngine.ForwardFrame | src/mesh.cpp:569-612 | with a route to the target the frame is readdressed (direct route: type 1 to the target from this node; otherwise type 2 to the first hop) and queued with its received size; without one nothing is sent |
| App.DeviceId | src/main.cpp:102-105 | deviceID is MAC[2]<<24 \| MAC[3]<<16 \| MAC[4]<<8 \| MAC[5] |
| App.Header | src/main.cpp:143-150 | the header the application writes is 12 bytes |
| App.Composed | src/main.cpp:181-208 | outData keeps its size after addressing and formatting |
| App.Outgoing | src/main.cpp:157-159 | the queued frame is 12 + text length bytes: the header, then orig, then all but the last four bytes of the text, because the payload starts at offset 16 |
| App.UnicastAddressing | src/main.cpp:184-200 | a unicast is type 1 exactly when the route is direct, and is then addressed to the target from this node; otherwise it is type 2 to the first hop with the target in from |
| App.BroadcastAddressing | src/main.cpp:146-150 | a broadcast is type 3 with the broadcast id in dest and this node in from |
| App.Arrives | src/main.cpp:181-200 | a frame starting with the application's header is delivered, forwarded or ignored by a receiver according to its type and dest |
| App.UnicastArrives | src/main.cpp:184-200 | a unicast is acted on by one node only: the target delivers it on a direct route, and the first hop forwards it towards the target otherwise |
| App.BroadcastIgnored | src/main.cpp:146-150 | a type 3 broadcast is ignored by every receiver |
| App.RelayReachesTarget | src/main.cpp:184-189 | the first hop takes a forward unicast for the target; after its rewrite the target delivers it on a direct route, or the next hop relays it again towards the same target |
| App.Application.constructor | src/main.cpp:97-123 | deviceID is packed from the unique id, outData holds the dataMsg defaults, and the send timer starts at now |
| App.Application.RefreshNodes | src/main.cpp:239-252 | numElements becomes the row count and the first numElements entries of the copy hold each row's id, first hop and hop count |
| App.Application.CopyRows | src/main.cpp:249-252 | entries 0..n−1 of the copy are the first n rows read with getNode, and later entries are unchanged |
| App.Application.Post | src/main.cpp:157-167 | outData is addressed and filled, and in a coherent queue the outgoing frame is queued exactly when the queue exists and a slot is free |
| App.Application.Compose | src/main.cpp:143-157 | the field assignments and the text formatting leave outData as Composed |
| App.Application.SendUnicast | src/main.cpp:171-226 | with fewer than two rows nothing is queued; otherwise routeToNode is looked up for the chosen copy entry (keeping its old value when that id is gone) and the frame addressed along it is queued |
| App.Application.SendStep | src/main.cpp:133-232 | within 30 s of the last send nothing changes; after that the timer restarts and either a broadcast or a unicast is queued |
| Findings.AddNodeSlotAsWritten | src/router.cpp:106-115 | the slot addNode writes to is the first empty one found before eviction, or the table size |
| Findings.AddNodeWritesPastEnd | src/router.cpp:117-125 | on a full table addNode as written copies the new row to index _numOfNodes, past the node list |
| Findings.InsertFullTable | src/router.cpp:117-125 | the corrected insertion puts the new row into the last slot, the one deleteRoute(0) freed, and the rows become rows[1..] + new |
| Findings.ClearSubsStepAsWritten | src/router.cpp:139-147 | one clearSubs step as written inspects every slot, empty ones included, and keeps the table size |
| Findings.ClearSubsHangs | src/router.cpp:139-147 | if the last slot's stale firstHop is id, the step at the last index leaves the state unchanged, so the loop never ends |
| Findings.ClearSubsHangsOnSecondAdvert | src/mesh.cpp:485-497 | in a two-slot table, after one advertisement from a listing b, the last slot is b via a, so the next clearSubs(a) reaches the hang |
| Findings.CleanFromAsWritten | src/router.cpp:159-180 | cleanMap as written, deleting index k after clearSubs, keeps the table size |
| Findings.CleanMapDeletesWrongRow | src/router.cpp:172-177 | on a table [b via x, x timed out, c fresh] cleanMap as written deletes c and keeps the timed-out x |
| Findings.CleanMapKeepsFreshRow | src/router.cpp:155-182 | the corrected sweep of the same table keeps exactly c |
| Findings.StaleIndexTableUnordered | src/router.cpp:172-177 | the table on which the as-written cleanMap deletes the wrong row lists a route ahead of its hop's direct row |
| Findings.AsWrittenDeletesHopWhenOrdered | src/router.cpp:172-177 | on a table in route order, the index cleanMap as written deletes after clearSubs still holds the timed-out direct row, with the rows ahead of it unchanged |
| Findings.SentinelOffsetAsWritten | src/mesh.cpp:460-477 | the receiver checks the last complete row for frames of 17 bytes or more, bytes 7-11 (row −1) for frames of 12 to 16 bytes, and, the uint8 having wrapped, row (size + 244)/5 − 1 for frames under 12 bytes: row 47 for an empty frame and a row reaching past the 256-byte buffer for 1 to 11 bytes |
| Findings.StaleSentinelAccepted | src/mesh.cpp:362-482 | after a 47-row advertisement, an empty frame that keeps "LoR" and type 5 in rxBuffer passes the end-marker test as written on the old sentinel at row 47, while the corrected decoder refuses it |
| Findings.SentinelAcceptedAsWritten | src/mesh.cpp:460-477 | the end-marker test as written, for the sizes whose tested row lies inside rxBuffer; on frames of 17 bytes or more the end-marker test as written agrees with the corrected SentinelPresent |
| Findings.ShortFrameAccepted | src/mesh.cpp:460-482 | a bare 12-byte header with dest AA000000 and from AAFF0055 passes the end-marker test as written, while the corrected test refuses it |
| Findings.SyncLengthAsWritten | src/mesh.cpp:263-265 | the uint8 length equals 12 + 5(n+1) whenever that is below 256 |
| Findings.SyncOverflowsAtFullTable | src/mesh.cpp:243-267 | with 48 rows the sentinel lands past syncMsg and the queued length wraps to 1 |
| Findings.SyncFitsBelowFullTable | src/mesh.cpp:258-267 | with fewer than 48 rows the advertisement fits syncMsg and the as-written length is its true length |

## Left out

- Radio and hardware calls (`Radio.*`, `SX126x*`) are modelled only as the commands Standby, Receive, StartCad and Send, appended to a ghost log. Radio configuration in `initMesh`, malloc and task creation are not modelled.
- FreeRTOS semaphores, critical sections and the blocking of `xQueue*` calls are not modelled. Each guarded block is one atomic step, and taking the semaphore always succeeds. The unbalanced `xSemaphoreGive` on the bad-sentinel path is a locking matter and is not modelled.
- `delay()`, logging, Serial output, hex dumps, LEDs, the display and the BLE console are not modelled, because they do not affect the routing state.
- `millis()` is an unbounded integer parameter. The wrap-around of the millisecond counter and the width of `time_t` are not modelled. cleanMap reads `millis()` afresh for every row, so a row can time out partway through one sweep; RouterSpec.CleanFrom and Router.RoutingTable.CleanMap use one `now` for the whole sweep.
- The RSSI and SNR values passed to `DataAvailable` are not modelled. A delivery is recorded only with its length, (size − 12) mod 65536, as the uint16 parameter receives it. The call passes four arguments while the prototype in `src/Mesh/mesh.h` takes five.
- `RX_SLEEP_TIMES` is not modelled, because it is a floating-point constant used only in commented-out code.
- `OnTxTimerTimeout`, `OnRxTimerTimeout` and `OnPreAmbDetect` are not modelled. `initMesh` never registers them with the radio, so they are never called.
- `getNextBroadcastID` and `isOldBroadcast` are declared but their bodies are not part of this model. The broadcast id is a parameter (`bcId`). The application calls `getNextBroadcastID` twice and uses the second result; that is one opaque value here.
- The random draws of `loop()` (`random(0, 10) > 5` and the node index) are parameters. The text formatted by `sprintf` (hex digits of the device id) is a parameter too. Its length and bytes follow the code.
- The debug topology filter (`BROKEN_NET`, literal node ids) is the parameter `accept`, a predicate on the sender. The model does not spell out its literal ids.
- MeshSpec.Classify, Mesh.MeshEngine.Dispatch: data frames shorter than 12 bytes are classified on header fields beyond the received bytes, read from whatever rxBuffer held before, as the code does; a short direct frame is delivered with the wrapped length 65536 + size − 12 (ClassifyShortDirect). Map frames shorter than 12 bytes are refused by the model, unlike the code (see the MapFrame line below).
- MeshSpec.Received, Mesh.MeshEngine.OnRxDone, Mesh.MeshEngine.Dispatch, Mesh.MeshEngine.MapFrame, Mesh.MeshEngine.ForwardFrame: received sizes of 256 or more are not modelled, and these members require size < 256. The SX126x reports the payload length in an 8-bit register, so the radio delivers at most 255 bytes; the code's second copy branch (rxSize ≥ 256, copying rxSize bytes) is never taken, and for sizes above 256 it would overrun the 256-byte rxBuffer.
- Mesh.MeshEngine.constructor: the first sync is due two sync intervals after start only with signed time arithmetic. With a 32-bit `time_t`, `millis() - notifyTimer` is computed unsigned and wraps, so the first sync would run on the first pass.
- Router.RoutingTable.AddNode: models the corrected insertion on a full table (into the slot that `deleteRoute(0)` frees). As written, the code writes one slot past the end (Findings, row 1).
- Router.RoutingTable.ClearSubs: models a scan of the occupied rows only. As written, the code also inspects empty slots and can loop forever (Findings, row 2).
- Router.RoutingTable.CleanMap: models the corrected order: the timed-out direct row is deleted first, then its dependants, then the scan restarts. As written, the code deletes by an index that clearSubs may have shifted (Findings, row 3). On tables in route order, which the receive path keeps, that index still holds the timed-out row (Findings.AsWrittenDeletesHopWhenOrdered). The route-order lemmas cover advertisements from senders with non-zero ids only. An advertisement whose sender id is 0 reports its rows as direct neighbours without clearing the routes through them, and it is outside those lemmas.
- Mesh.MeshEngine.MapFrame: refuses map frames shorter than 17 bytes, which carry no complete row. As written, the code checks row −1 for frames of 12 to 16 bytes (Findings, row 4). For frames of 0 to 11 bytes `uint8(size - 12)` wraps to size + 244 and the code checks row 47, 48, 49 or 50 (offsets 247 to 266), rows an earlier frame left in rxBuffer; only row 47, tested for an empty frame, lies inside the 256-byte buffer (Findings.SentinelOffsetAsWritten, Findings.StaleSentinelAccepted). The reads past the buffer are not modelled.
- Mesh.MeshEngine.constructor: requires a table capacity below 48. As written, a 48-slot table overflows syncMsg (Findings, row 5).
- SendQueue.OutboundQueue.AddSendRequest: the FIFO-order statement (pending frames gain this frame) is proved only for a coherent queue, and only for frames longer than three bytes with a non-zero type byte. A frame with type byte 0 leaves its slot marked free while its index is queued. The unconditional slot, size and FIFO effects are stated for every call.
- Mesh.MeshEngine.Iterate: states the progress facts of one pass: the change is reported, a due sync restarts the timer, and a queued frame starts when the radio is free or stalled. The full per-step effects are the contracts of NotifyStep, SyncStep, RelaxStep, StallGuard and DrainStep, which it calls in order.
- The specification and the code disagree in three places; the model follows the code.
  - Evicting row 0 of a full table does not purge the rows routed through it.
  - An indirect report with a hop count equal to the stored one replaces the row.
  - The CAD retry counter is never reset. It wraps as a uint8, so after 20 busy results every later busy result drops the frame until the counter wraps.
- The `LORA_*` type constants are used directly: direct 1, forward 2, broadcast 3, map 5. `src/main.h` names the map type 4, but the code sends and tests 5.
- Kept as the code writes them, without a finding:
  - `deleteRoute` clears only the nodeId of the last slot.
  - The hop count `hops + 1` wraps in a uint8.
  - An application data frame is queued with length 12 + text, so the last four bytes of the text are not sent.
  - `nodesChanged` is assigned by the sender's `addNode` and then OR-ed over the rows.

## Findings

| source | as written | input that shows it | evidently intended | confidence | as-written member | corrected member |
|---|---|---|---|---|---|---|
| src/router.cpp:106-125 | on a full table addNode evicts row 0 and then copies the new row to index `_numOfNodes`, one past the end of the node list | any table whose every slot holds a node, and a report of an unlisted node | the new row goes into the last slot, freed by `deleteRoute(0)` | high: the index follows from the loop bounds; not executed | Findings.AddNodeWritesPastEnd | Findings.InsertFullTable |
| src/router.cpp:137-148 | clearSubs scans every slot, empty ones included; the last slot keeps a stale firstHop after `deleteRoute`, and a match there is deleted at the same index forever | a two-slot table: an advertisement from a listing b leaves [a direct, b via a]; a's next advertisement runs clearSubs(a), deletes b in the last slot, and stays on that slot | only occupied rows are scanned, so the loop ends | high: the two-slot trace is proved step by step; not executed | Findings.ClearSubsHangsOnSecondAdvert | RouterSpec.ClearSubsRemovesDependants |
| src/router.cpp:172-177 | for a timed-out direct row at index k, cleanMap calls clearSubs, which may shift that row down, and then deletes index k | the table [b via x, x timed out, c fresh, empty]: clearSubs(x) removes b, x moves to index 0, and `deleteRoute(1)` deletes c while x stays. The receive path does not build this table. Advertisements from senders with non-zero ids and cleanMap keep every route after its hop's direct row (MeshSpec.ReceiveMapKeepsOrder, RouterSpec.CleanFromKeepsOrder). This table breaks that order (Findings.StaleIndexTableUnordered). On an ordered table the index still holds the timed-out row (Findings.AsWrittenDeletesHopWhenOrdered) | the timed-out row and exactly its dependants are removed | low: latent, since the index is stale only on a table the receive path does not build; not executed | Findings.CleanMapDeletesWrongRow | Findings.CleanMapKeepsFreshRow |
| src/mesh.cpp:460-482 | `numSubs` is `uint8(size - 12) / 5` with no lower bound, so a 12- to 16-byte frame has its row −1 (bytes 7-11) checked for the sentinel, and a frame under 12 bytes, where the uint8 wraps, has a stale row 47-50 checked | a bare 12-byte map header with dest AA000000 and from AAFF0055 is accepted, and its sender is registered as a direct neighbour; an empty frame received after a 47-row advertisement passes the test on that advertisement's sentinel (StaleSentinelAccepted) | a frame without a complete row after the header is refused | high: the offset arithmetic is proved; not executed | Findings.ShortFrameAccepted | Wire.ParseMapAccepts |
| src/mesh.cpp:258-267 | the sentinel is written at `syncMsg.nodes[subsLen]`, and `subsLen = 12 + 5 * (n + 1)` is a uint8 | a node list of 48 slots, all taken: the sentinel lands past the 48 rows of syncMsg and the queued length 257 wraps to 1 | the advertisement fits, which needs at most 47 rows | high for a 48-slot list; the example application's capacity is not part of this model; not executed | Findings.SyncOverflowsAtFullTable | Findings.SyncFitsBelowFullTable |
