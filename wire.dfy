/**
 * Byte layouts of the two mesh frame kinds and of the routing-table advertisement
 * rows (src/Mesh/mesh.h), with their encoders, decoders and round trips.
 *
 * Every frame starts with the preamble 'L','o','R' and a type byte.  An
 * advertisement (mapMsg) continues with dest and from (little-endian u32) and a
 * list of 5-byte rows {nodeId little-endian, numHops} closed by the sentinel row
 * AA 55 00 FF AA.  A data frame (dataMsg) carries dest, from and orig and then
 * the payload area.
 */
module Wire {
  import opened Seqs

  type byte = x: int | 0 <= x < 256
  type u32 = x: int | 0 <= x < 0x1_0000_0000

  datatype Option<T> = None | Some(value: T)

  /** Size of the map frame without rows: preamble(3) + type(1) + dest(4) + from(4). */
  const MAP_HEADER_SIZE: nat := 12
  /** Size of the data frame header: the map header plus orig(4). */
  const DATA_HEADER_SIZE: nat := 16
  /** Number of busy Channel-Activity-Detection results before a message is given up. */
  const CAD_RETRY: nat := 20
  /** One advertisement row: nodeId(4) + numHops(1). */
  const ROW_SIZE: nat := 5
  /** Rows in mapMsg.nodes, the sentinel row included. */
  const MAP_ROWS: nat := 48
  /** Size of dataMsg.data. */
  const DATA_PAYLOAD_SIZE: nat := 243
  const MAP_MSG_SIZE: nat := MAP_HEADER_SIZE + MAP_ROWS * ROW_SIZE
  const DATA_MSG_SIZE: nat := DATA_HEADER_SIZE + DATA_PAYLOAD_SIZE

  /** Offset of the type byte; in a send slot it doubles as the busy flag. */
  const TYPE_OFFSET: nat := 3

  /** Default type of a dataMsg; a send slot with this type is free. */
  const TYPE_FREE: byte := 0
  const TYPE_DIRECT: byte := 1
  const TYPE_FORWARD: byte := 2
  const TYPE_BROADCAST: byte := 3
  /** Default type of a mapMsg. */
  const TYPE_MAP: byte := 5

  const PREAMBLE: seq<byte> := [0x4C, 0x6F, 0x52]
  const SENTINEL: seq<byte> := [0xAA, 0x55, 0x00, 0xFF, 0xAA]

  /** One advertised route: the node and its hop count. */
  datatype Row = Row(nodeId: u32, numHops: byte)

  /** A topology advertisement (mapMsg) without the sentinel row. */
  datatype MapMsg = MapMsg(dest: u32, from: u32, rows: seq<Row>)

  /** A data frame (dataMsg): header fields and the payload bytes that follow them. */
  datatype DataMsg = DataMsg(kind: byte, dest: u32, from: u32, orig: u32, data: seq<byte>)

  // ---------------------------------------------------------------- integers

  /** The four bytes of x, least significant first. */
  function LeBytes(x: u32): (b: seq<byte>)
    ensures |b| == 4
  {
    var q1 := x / 256;
    var q2 := q1 / 256;
    [x % 256, q1 % 256, q2 % 256, q2 / 256]
  }

  /** The u32 whose little-endian bytes are b. */
  function LeValue(b: seq<byte>): (x: u32)
    requires |b| == 4
    ensures LeBytes(x) == b
  {
    var q2: int := b[2] as int + 256 * b[3] as int;
    var q1: int := b[1] as int + 256 * q2;
    var x := b[0] as int + 256 * q1;
    assert x / 256 == q1 && x % 256 == b[0];
    assert q1 / 256 == q2 && q1 % 256 == b[1];
    assert q2 / 256 == b[3] && q2 % 256 == b[2];
    x
  }

  lemma LeValueOfBytes(x: u32)
    ensures LeValue(LeBytes(x)) == x
  {
    var q1 := x / 256;
    var q2 := q1 / 256;
    assert x == x % 256 + 256 * q1;
    assert q1 == q1 % 256 + 256 * q2;
    assert q2 == q2 % 256 + 256 * (q2 / 256);
  }

  // ---------------------------------------------------------------- rows

  function EncodeRow(r: Row): (b: seq<byte>)
    ensures |b| == ROW_SIZE
  {
    LeBytes(r.nodeId) + [r.numHops]
  }

  function DecodeRow(b: seq<byte>): (r: Row)
    requires |b| == ROW_SIZE
    ensures EncodeRow(r) == b
  {
    assert b == b[..4] + [b[4]];
    Row(LeValue(b[..4]), b[4])
  }

  lemma RowRoundTrip(r: Row)
    ensures DecodeRow(EncodeRow(r)) == r
  {
    assert EncodeRow(r)[..4] == LeBytes(r.nodeId);
    LeValueOfBytes(r.nodeId);
  }

  /** The rows back to back, five bytes each, in list order. */
  function EncodeRows(rows: seq<Row>): (b: seq<byte>)
    ensures |b| == ROW_SIZE * |rows|
  {
    if rows == [] then [] else EncodeRow(rows[0]) + EncodeRows(rows[1..])
  }

  lemma {:induction false} EncodeRowsAt(rows: seq<Row>, k: nat)
    requires k < |rows|
    ensures EncodeRows(rows)[ROW_SIZE * k .. ROW_SIZE * k + ROW_SIZE] == EncodeRow(rows[k])
  {
    if k > 0 {
      EncodeRowsAt(rows[1..], k - 1);
      assert EncodeRows(rows) == EncodeRow(rows[0]) + EncodeRows(rows[1..]);
    }
  }

  lemma {:induction false} EncodeRowsAppend(rows: seq<Row>, r: Row)
    ensures EncodeRows(rows + [r]) == EncodeRows(rows) + EncodeRow(r)
  {
    if rows == [] {
      assert rows + [r] == [r];
    } else {
      assert (rows + [r])[1..] == rows[1..] + [r];
      EncodeRowsAppend(rows[1..], r);
    }
  }

  /**
   * Writing row r at offset at, just after the encoded rows in a buffer
   * o[..base] + EncodeRows(rows) + o[at..], extends the encoded rows by r.
   */
  lemma SpliceRow(o: seq<byte>, base: nat, rows: seq<Row>, r: Row, at: nat, x: seq<byte>)
    requires at == base + ROW_SIZE * |rows| && at + ROW_SIZE <= |o|
    requires x == o[..base] + EncodeRows(rows) + o[at..]
    ensures x[..at] + EncodeRow(r) + x[at + ROW_SIZE..] == o[..base] + EncodeRows(rows + [r]) + o[at + ROW_SIZE..]
  {
    Splice(o, base, EncodeRows(rows), EncodeRow(r), at, x);
    EncodeRowsAppend(rows, r);
  }

  // ---------------------------------------------------------------- advertisement frames

  /** Offset of advertisement row k inside a map frame. */
  function RowOffset(k: nat): nat
  {
    MAP_HEADER_SIZE + ROW_SIZE * k
  }

  function RowBytes(frame: seq<byte>, k: nat): (b: seq<byte>)
    requires RowOffset(k) + ROW_SIZE <= |frame|
    ensures |b| == ROW_SIZE
  {
    frame[RowOffset(k) .. RowOffset(k) + ROW_SIZE]
  }

  function MapHeader(dest: u32, from: u32): (h: seq<byte>)
    ensures |h| == MAP_HEADER_SIZE
  {
    PREAMBLE + [TYPE_MAP] + LeBytes(dest) + LeBytes(from)
  }

  /** A buffer that starts with an advertisement header has its fields at their offsets. */
  lemma MapHeaderFields(buf: seq<byte>, dest: u32, from: u32)
    requires |buf| >= MAP_HEADER_SIZE && buf[..MAP_HEADER_SIZE] == MapHeader(dest, from)
    ensures buf[..3] == PREAMBLE && buf[TYPE_OFFSET] == TYPE_MAP
    ensures buf[4..8] == LeBytes(dest) && buf[8..12] == LeBytes(from)
  {
    assert buf[..3] == buf[..MAP_HEADER_SIZE][..3];
    assert buf[4..8] == buf[..MAP_HEADER_SIZE][4..8];
    assert buf[8..12] == buf[..MAP_HEADER_SIZE][8..12];
  }

  /** The bytes of an advertisement: header, rows, sentinel. */
  function EncodeMap(m: MapMsg): (f: seq<byte>)
    ensures |f| == RowOffset(|m.rows|) + ROW_SIZE
    ensures f[..MAP_HEADER_SIZE] == MapHeader(m.dest, m.from)
    ensures f[RowOffset(|m.rows|)..] == SENTINEL
  {
    MapHeader(m.dest, m.from) + EncodeRows(m.rows) + SENTINEL
  }

  /**
   * Index of the row that must hold the sentinel in a map frame of `size`
   * bytes: the last complete row after the header.
   */
  function SentinelRow(size: nat): nat
    requires size >= MAP_HEADER_SIZE + ROW_SIZE
  {
    (size - MAP_HEADER_SIZE) / ROW_SIZE - 1
  }

  /**
   * The receiver's check that a map frame is closed by the sentinel.  Frames
   * too short to hold a single row are refused.
   */
  predicate SentinelPresent(frame: seq<byte>): (p: bool)
    ensures p ==> |frame| >= MAP_HEADER_SIZE + ROW_SIZE && var k := SentinelRow(|frame|);
      RowOffset(k) + ROW_SIZE <= |frame| < RowOffset(k + 1) + ROW_SIZE
  {
    |frame| >= MAP_HEADER_SIZE + ROW_SIZE && RowBytes(frame, SentinelRow(|frame|)) == SENTINEL
  }

  lemma SentinelRowFits(size: nat)
    requires size >= MAP_HEADER_SIZE + ROW_SIZE
    ensures RowOffset(SentinelRow(size)) + ROW_SIZE <= size
  {
  }

  /** The rows 0 .. n-1 of a map frame, decoded. */
  function DecodeRows(frame: seq<byte>, n: nat): (rows: seq<Row>)
    requires RowOffset(n) <= |frame|
    ensures |rows| == n
  {
    seq(n, i requires 0 <= i < n => DecodeRow(RowBytes(frame, i)))
  }

  /** Decodes a received advertisement, or None when the frame is refused. */
  function ParseMap(frame: seq<byte>): (r: Option<MapMsg>)
    ensures r.Some? ==> RowOffset(|r.value.rows|) + ROW_SIZE <= |frame|
    ensures r.Some? ==> EncodeMap(r.value) == frame[..RowOffset(|r.value.rows|) + ROW_SIZE]
  {
    if |frame| < MAP_HEADER_SIZE || frame[..3] != PREAMBLE || frame[TYPE_OFFSET] != TYPE_MAP
       || !SentinelPresent(frame)
    then None
    else
      var n := SentinelRow(|frame|);
      var m := MapMsg(LeValue(frame[4..8]), LeValue(frame[8..12]), DecodeRows(frame, n));
      EncodeDecodedRows(frame, n);
      assert EncodeMap(m) == frame[..RowOffset(n) + ROW_SIZE] by {
        assert MapHeader(m.dest, m.from) == frame[..MAP_HEADER_SIZE] by {
          assert frame[..MAP_HEADER_SIZE] == frame[..3] + [frame[TYPE_OFFSET]] + frame[4..8] + frame[8..12];
        }
        assert frame[..RowOffset(n) + ROW_SIZE]
               == frame[..MAP_HEADER_SIZE] + frame[MAP_HEADER_SIZE..RowOffset(n)] + RowBytes(frame, n);
      }
      Some(m)
  }

  /** Re-encoding the first n decoded rows gives back their bytes. */
  lemma {:induction false} EncodeDecodedRows(frame: seq<byte>, n: nat)
    requires RowOffset(n) <= |frame|
    ensures EncodeRows(DecodeRows(frame, n)) == frame[MAP_HEADER_SIZE..RowOffset(n)]
  {
    if n > 0 {
      EncodeDecodedRows(frame, n - 1);
      var last := DecodeRow(RowBytes(frame, n - 1));
      assert DecodeRows(frame, n) == DecodeRows(frame, n - 1) + [last];
      EncodeRowsAppend(DecodeRows(frame, n - 1), last);
      assert frame[MAP_HEADER_SIZE..RowOffset(n)]
             == frame[MAP_HEADER_SIZE..RowOffset(n - 1)] + RowBytes(frame, n - 1);
    }
  }

  /** An advertisement of `rows` routes fills 12 + 5 * (rows + 1) bytes. */
  lemma MapLayout(m: MapMsg)
    ensures |EncodeMap(m)| == MAP_HEADER_SIZE + ROW_SIZE * (|m.rows| + 1)
    ensures EncodeMap(m)[..3] == PREAMBLE && EncodeMap(m)[TYPE_OFFSET] == TYPE_MAP
    ensures EncodeMap(m)[4..8] == LeBytes(m.dest) && EncodeMap(m)[8..12] == LeBytes(m.from)
    ensures forall k | 0 <= k < |m.rows| :: RowBytes(EncodeMap(m), k) == EncodeRow(m.rows[k])
    ensures RowBytes(EncodeMap(m), |m.rows|) == SENTINEL
  {
    var f := EncodeMap(m);
    var h := MapHeader(m.dest, m.from);
    var body := EncodeRows(m.rows);
    assert f == h + body + SENTINEL;
    forall k | 0 <= k < |m.rows|
      ensures RowBytes(f, k) == EncodeRow(m.rows[k])
    {
      EncodeRowsAt(m.rows, k);
      assert RowBytes(f, k) == body[ROW_SIZE * k .. ROW_SIZE * k + ROW_SIZE];
    }
    assert RowBytes(f, |m.rows|) == f[|h| + |body| ..];
  }

  /** Whatever the rows, the receiver decodes an advertisement back to itself. */
  lemma MapRoundTrip(m: MapMsg)
    ensures ParseMap(EncodeMap(m)) == Some(m)
  {
    var f := EncodeMap(m);
    MapLayout(m);
    assert SentinelRow(|f|) == |m.rows|;
    assert SentinelPresent(f);
    LeValueOfBytes(m.dest);
    LeValueOfBytes(m.from);
    var rows := DecodeRows(f, |m.rows|);
    forall k | 0 <= k < |m.rows|
      ensures rows[k] == m.rows[k]
    {
      RowRoundTrip(m.rows[k]);
    }
    assert rows == m.rows;
  }

  /** An accepted advertisement ends with the sentinel row inside the received bytes. */
  lemma ParseMapAccepts(frame: seq<byte>)
    requires ParseMap(frame).Some?
    ensures |frame| >= MAP_HEADER_SIZE + ROW_SIZE
    ensures frame[..3] == PREAMBLE && frame[TYPE_OFFSET] == TYPE_MAP
    ensures var k := |ParseMap(frame).value.rows|;
      RowOffset(k) + ROW_SIZE <= |frame| && RowBytes(frame, k) == SENTINEL
  {
  }

  /** The sender and row k of an accepted advertisement, read at their offsets in the frame. */
  lemma ParsedFields(frame: seq<byte>, k: nat)
    requires ParseMap(frame).Some? && k < |ParseMap(frame).value.rows|
    ensures |ParseMap(frame).value.rows| == SentinelRow(|frame|)
    ensures ParseMap(frame).value.from == LeValue(frame[8..12])
    ensures RowOffset(k) + ROW_SIZE <= |frame|
    ensures ParseMap(frame).value.rows[k]
            == Row(LeValue(frame[RowOffset(k) .. RowOffset(k) + 4]), frame[RowOffset(k) + 4])
  {
    assert RowBytes(frame, k)[..4] == frame[RowOffset(k) .. RowOffset(k) + 4];
  }

  /** rows are the decoded rows 0 .. |rows| - 1 of frame. */
  ghost predicate RowsListed(frame: seq<byte>, rows: seq<Row>)
  {
    RowOffset(|rows|) <= |frame|
    && forall k | 0 <= k < |rows| ::
         rows[k] == Row(LeValue(frame[RowOffset(k) .. RowOffset(k) + 4]), frame[RowOffset(k) + 4])
  }

  /** The rows of an accepted advertisement are the rows before its sentinel. */
  lemma ParsedRows(frame: seq<byte>)
    requires ParseMap(frame).Some?
    ensures |ParseMap(frame).value.rows| == SentinelRow(|frame|)
    ensures ParseMap(frame).value.from == LeValue(frame[8..12])
    ensures RowsListed(frame, ParseMap(frame).value.rows)
  {
    var rows := ParseMap(frame).value.rows;
    forall k | 0 <= k < |rows|
      ensures rows[k] == Row(LeValue(frame[RowOffset(k) .. RowOffset(k) + 4]), frame[RowOffset(k) + 4])
    {
      ParsedFields(frame, k);
    }
  }

  /** A table of n routes fits a mapMsg exactly when n + 1 <= 48. */
  lemma MapFits(m: MapMsg)
    ensures |EncodeMap(m)| <= MAP_MSG_SIZE <==> |m.rows| + 1 <= MAP_ROWS
  {
    MapLayout(m);
  }

  // ---------------------------------------------------------------- data frames

  function DataHeader(kind: byte, dest: u32, from: u32, orig: u32): (h: seq<byte>)
    ensures |h| == DATA_HEADER_SIZE
  {
    PREAMBLE + [kind] + LeBytes(dest) + LeBytes(from) + LeBytes(orig)
  }

  function EncodeData(d: DataMsg): (f: seq<byte>)
    ensures |f| == DATA_HEADER_SIZE + |d.data|
    ensures f[..DATA_HEADER_SIZE] == DataHeader(d.kind, d.dest, d.from, d.orig)
    ensures f[DATA_HEADER_SIZE..] == d.data
  {
    DataHeader(d.kind, d.dest, d.from, d.orig) + d.data
  }

  /** Reads the header fields of a data frame and takes the rest as payload. */
  function DecodeData(frame: seq<byte>): (r: Option<DataMsg>)
    ensures r.Some? <==> |frame| >= DATA_HEADER_SIZE && frame[..3] == PREAMBLE
    ensures r.Some? ==> EncodeData(r.value) == frame
  {
    if |frame| < DATA_HEADER_SIZE || frame[..3] != PREAMBLE then None
    else
      var d := DataMsg(frame[TYPE_OFFSET], LeValue(frame[4..8]), LeValue(frame[8..12]),
                       LeValue(frame[12..16]), frame[DATA_HEADER_SIZE..]);
      assert frame == frame[..3] + [frame[TYPE_OFFSET]] + frame[4..8] + frame[8..12] + frame[12..16]
                      + frame[DATA_HEADER_SIZE..];
      Some(d)
  }

  lemma DataRoundTrip(d: DataMsg)
    ensures DecodeData(EncodeData(d)) == Some(d)
  {
    var f := EncodeData(d);
    assert f[..3] == PREAMBLE;
    assert f[4..8] == LeBytes(d.dest);
    assert f[8..12] == LeBytes(d.from);
    assert f[12..16] == LeBytes(d.orig);
    assert f[DATA_HEADER_SIZE..] == d.data;
    LeValueOfBytes(d.dest);
    LeValueOfBytes(d.from);
    LeValueOfBytes(d.orig);
  }

  /** Both frame kinds share the first twelve bytes: preamble, type, dest and from. */
  lemma HeadersAgree(kind: byte, dest: u32, from: u32, orig: u32)
    ensures DataHeader(kind, dest, from, orig)[..MAP_HEADER_SIZE]
            == MapHeader(dest, from)[TYPE_OFFSET := kind]
  {
  }
}
