/**
 * The outbound queue: ten message slots whose type byte doubles as the busy flag, and a FIFO of
 * slot indices (the RTOS queue) that fixes the order in which slots are sent.
 */
module SendQueue {
  import opened Wire

  const SEND_QUEUE_SIZE: nat := 10

  /** A slot is taken while its type byte is not 0. */
  predicate Busy(m: seq<byte>)
    requires |m| > TYPE_OFFSET
  {
    m[TYPE_OFFSET] != TYPE_FREE
  }

  ghost predicate SlotsShaped(msgs: seq<seq<byte>>)
  {
    forall k | 0 <= k < |msgs| :: |msgs[k]| == DATA_MSG_SIZE
  }

  /** Index of the lowest free slot, or |msgs| when every slot is busy. */
  function FirstFree(msgs: seq<seq<byte>>): (i: nat)
    requires SlotsShaped(msgs)
    ensures i <= |msgs|
    ensures forall k | 0 <= k < i :: Busy(msgs[k])
    ensures i < |msgs| ==> !Busy(msgs[i])
  {
    if msgs == [] then 0
    else if !Busy(msgs[0]) then 0
    else
      assert SlotsShaped(msgs[1..]) by {
        forall k | 0 <= k < |msgs| - 1
          ensures |msgs[1..][k]| == DATA_MSG_SIZE
        {
          assert msgs[1..][k] == msgs[k + 1];
        }
      }
      1 + FirstFree(msgs[1..])
  }

  /** A slot after the first n bytes of package have been copied over it. */
  function CopyInto(slot: seq<byte>, package: seq<byte>, n: nat): (r: seq<byte>)
    requires n <= |package| && n <= |slot|
    ensures |r| == |slot|
    ensures r[..n] == package[..n] && r[n..] == slot[n..]
  {
    package[..n] + slot[n..]
  }

  /** The frames waiting to be sent, in FIFO order. */
  ghost function PendingOf(msgs: seq<seq<byte>>, sizes: seq<byte>, fifo: seq<nat>): seq<seq<byte>>
    requires SlotsShaped(msgs) && |sizes| == |msgs|
    requires forall k | 0 <= k < |fifo| :: fifo[k] < |msgs|
  {
    seq(|fifo|, k requires 0 <= k < |fifo| => msgs[fifo[k]][..sizes[fifo[k]]])
  }

  /** The contents of an unused slot: the default preamble and type 0, the rest zero. */
  function BlankSlot(): (m: seq<byte>)
    ensures |m| == DATA_MSG_SIZE && !Busy(m) && m[..3] == PREAMBLE
  {
    PREAMBLE + [TYPE_FREE] + seq(DATA_MSG_SIZE - 4, _ => 0)
  }

  ghost predicate Distinct(s: seq<nat>)
  {
    forall a, b | 0 <= a < b < |s| :: s[a] != s[b]
  }

  /** Distinct indices below n are at most n many. */
  lemma {:induction false} DistinctBelow(s: seq<nat>, n: nat)
    requires Distinct(s) && forall k | 0 <= k < |s| :: s[k] < n
    ensures |s| <= n
  {
    if s != [] {
      assert s[0] < n;
      var t := s;
      if i :| 0 <= i < |s| && s[i] == n - 1 {
        t := s[..i] + s[i + 1..];
        forall a, b | 0 <= a < b < |t|
          ensures t[a] != t[b]
        {
          var a' := if a < i then a else a + 1;
          var b' := if b < i then b else b + 1;
          assert t[a] == s[a'] && t[b] == s[b'];
        }
        forall k | 0 <= k < |t|
          ensures t[k] < n - 1
        {
          var k' := if k < i then k else k + 1;
          assert t[k] == s[k'] && k' != i;
        }
      }
      DistinctBelow(t, n - 1);
    }
  }

  /** Distinct indices below n that all avoid one index f < n are fewer than n. */
  lemma DistinctAvoiding(s: seq<nat>, n: nat, f: nat)
    requires f < n && Distinct(s)
    requires forall k | 0 <= k < |s| :: s[k] < n && s[k] != f
    ensures |s| < n
  {
    var t := seq(|s|, k requires 0 <= k < |s| => if s[k] > f then s[k] - 1 else s[k]);
    forall a, b | 0 <= a < b < |t|
      ensures t[a] != t[b]
    {
      assert s[a] != s[b];
    }
    DistinctBelow(t, n - 1);
  }

  class OutboundQueue {
    /** Whether the RTOS queue was created. */
    const ready: bool
    /** sendMsg: the slot buffers. */
    const msgs: array<seq<byte>>
    /** sendMsgSize: the number of bytes to send from each slot. */
    const sizes: array<byte>
    /** The slot indices waiting in the RTOS queue, oldest first. */
    var fifo: seq<nat>

    ghost predicate Valid()
      reads this, msgs, sizes
    {
      msgs.Length == SEND_QUEUE_SIZE && sizes.Length == SEND_QUEUE_SIZE && SlotsShaped(msgs[..])
      && |fifo| <= SEND_QUEUE_SIZE && (forall k | 0 <= k < |fifo| :: fifo[k] < SEND_QUEUE_SIZE)
    }

    /** Every queued index names a busy slot, and no slot is queued twice. */
    ghost predicate Coherent()
      reads this, msgs, sizes
      requires Valid()
    {
      (forall k | 0 <= k < |fifo| :: Busy(msgs[fifo[k]]))
      && Distinct(fifo)
    }

    ghost function Pending(): seq<seq<byte>>
      reads this, msgs, sizes
      requires Valid()
    {
      PendingOf(msgs[..], sizes[..], fifo)
    }

    constructor (ready: bool)
      ensures Valid() && Coherent() && fresh(msgs) && fresh(sizes)
      ensures this.ready == ready && fifo == [] && Pending() == []
      ensures forall k | 0 <= k < SEND_QUEUE_SIZE :: msgs[k] == BlankSlot() && sizes[k] == 0
    {
      this.ready := ready;
      msgs := new seq<byte>[SEND_QUEUE_SIZE](_ => BlankSlot());
      sizes := new byte[SEND_QUEUE_SIZE](_ => 0);
      fifo := [];
    }

    /**
     * addSendRequest: copies the first msgSize bytes of package into the lowest free slot and
     * queues that slot. The slot is written before the RTOS queue is asked; when the queue
     * refuses, the written slot is not queued.
     */
    method AddSendRequest(package: seq<byte>, msgSize: byte) returns (ok: bool)
      requires Valid() && msgSize as int <= |package|
      modifies this, msgs, sizes
      ensures Valid()
      ensures var next := FirstFree(old(msgs[..]));
        if !ready || next == SEND_QUEUE_SIZE then
          !ok && fifo == old(fifo) && msgs[..] == old(msgs[..]) && sizes[..] == old(sizes[..])
        else
          msgs[..] == old(msgs[..])[next := CopyInto(old(msgs[next]), package, msgSize as int)]
          && sizes[..] == old(sizes[..])[next := msgSize]
          && (ok <==> |old(fifo)| < SEND_QUEUE_SIZE)
          && fifo == if ok then old(fifo) + [next] else old(fifo)
      ensures old(Coherent()) ==> (ok <==> ready && FirstFree(old(msgs[..])) < SEND_QUEUE_SIZE)
      ensures old(Coherent()) && TYPE_OFFSET < msgSize as int && package[TYPE_OFFSET] != TYPE_FREE ==>
        Coherent() && Pending() == old(Pending()) + (if ok then [package[..msgSize]] else [])
    {
      ghost var m0, z0, f0 := msgs[..], sizes[..], fifo;
      ghost var coherent0 := Coherent();
      if !ready {
        return false;
      }
      var next := 0;
      while next < SEND_QUEUE_SIZE && msgs[next][TYPE_OFFSET] != TYPE_FREE
        invariant 0 <= next <= SEND_QUEUE_SIZE
        invariant forall k | 0 <= k < next :: Busy(msgs[k])
      {
        next := next + 1;
      }
      assert FirstFree(m0) == next;
      if next == SEND_QUEUE_SIZE {
        return false;
      }
      if coherent0 {
        forall k | 0 <= k < |fifo|
          ensures fifo[k] < SEND_QUEUE_SIZE && fifo[k] != next
        {
          assert Busy(msgs[fifo[k]]);
        }
        DistinctAvoiding(fifo, SEND_QUEUE_SIZE, next);
      }
      msgs[next] := CopyInto(msgs[next], package, msgSize as int);
      sizes[next] := msgSize;
      if |fifo| < SEND_QUEUE_SIZE {
        fifo := fifo + [next];
        ok := true;
      } else {
        ok := false;
      }
      if coherent0 && TYPE_OFFSET < msgSize as int && package[TYPE_OFFSET] != TYPE_FREE {
        assert forall k | 0 <= k < |f0| :: f0[k] != next;
        assert msgs[next][..msgSize] == package[..msgSize];
        assert Busy(msgs[next]);
      }
    }

    /**
     * The drain step's take: the head index leaves the FIFO, its frame (sendMsgSize bytes of the
     * slot) is returned, and the slot's type byte is cleared so it can be reused.
     */
    method Take() returns (idx: nat, frame: seq<byte>)
      requires Valid() && fifo != []
      modifies this, msgs
      ensures Valid()
      ensures idx == old(fifo[0]) && frame == old(msgs[idx][..sizes[idx]])
      ensures fifo == old(fifo[1..]) && sizes[..] == old(sizes[..])
      ensures msgs[..] == old(msgs[..])[idx := old(msgs[idx])[TYPE_OFFSET := TYPE_FREE]]
      ensures old(Coherent()) ==> Coherent() && frame == old(Pending())[0] && Pending() == old(Pending())[1..]
    {
      ghost var f0 := fifo;
      ghost var coherent0 := Coherent();
      idx := fifo[0];
      frame := msgs[idx][..sizes[idx]];
      fifo := fifo[1..];
      msgs[idx] := msgs[idx][TYPE_OFFSET := TYPE_FREE];
      if coherent0 {
        assert forall k | 0 <= k < |fifo| :: fifo[k] == f0[k + 1] && f0[k + 1] != idx;
      }
    }
  }
}
