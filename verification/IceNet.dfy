/** The IceNet descriptor rings: which frame buffers belong to the driver and which to the device. */
module IceNet {

  const RING_SIZE: nat := 64
  const FRAME_STRIDE: nat := 0x600
  const MAX_FRAME_SIZE: nat := 1514
  const TX_BASE: nat := 0x8000_0000
  const RX_BASE: nat := TX_BASE + 64 * 0x600

  /** CIRC_CNT: the mask of a two's complement difference is its remainder. */
  function Count(head: int, tail: int): nat { (head - tail) % 64 }

  /** CIRC_SPACE. */
  function Space(head: int, tail: int): nat { Count(tail, head + 1) }

  lemma CountIs(head: int, tail: int)
    requires 0 <= head < 64 && 0 <= tail < 64
    ensures Count(head, tail) == if head < tail then head - tail + 64 else head - tail
  {
  }

  /** One slot always stays free. */
  lemma SpaceAndCount(head: int, tail: int)
    requires 0 <= head < 64 && 0 <= tail < 64
    ensures Count(head, tail) + Space(head, tail) == 63
  {
    CountIs(head, tail);
    var d := tail - head - 1;
    assert d % 64 == if d < 0 then d + 64 else d;
  }

  lemma CountSteps(head: int, tail: int)
    requires 0 <= head < 64 && 0 <= tail < 64
    ensures Count(head, head) == 0
    ensures Space(head, tail) > 0 ==> Count((head + 1) % 64, tail) == Count(head, tail) + 1
    ensures Count(head, tail) > 0 ==> Count(head, (tail + 1) % 64) == Count(head, tail) - 1
  {
    SpaceAndCount(head, tail);
    CountIs(head, tail);
    var h, t := if head == 63 then 0 else head + 1, if tail == 63 then 0 else tail + 1;
    assert (head + 1) % 64 == h && (tail + 1) % 64 == t;
    CountIs(h, tail);
    CountIs(head, t);
  }

  /** The i-th slot from the tail on. */
  function SlotFrom(tail: nat, i: nat): nat { (tail + i) % 64 }

  ghost predicate AllDifferent(s: seq<nat>) { forall i, j {:trigger s[i], s[j]} :: 0 <= i < j < |s| ==> s[i] != s[j] }

  /** The addresses in the slots tail, ..., head - 1. */
  ghost function Held(entries: seq<nat>, head: nat, tail: nat): (s: seq<nat>)
    requires |entries| == 64
    ensures |s| == Count(head, tail)
    ensures forall i {:trigger s[i]} :: 0 <= i < |s| ==> s[i] == entries[SlotFrom(tail, i)]
  {
    seq(Count(head, tail), i requires 0 <= i < Count(head, tail) => entries[SlotFrom(tail, i)])
  }

  lemma LastSlot(head: nat, tail: nat)
    requires head < 64 && tail < 64
    ensures SlotFrom(tail, Count(head, tail)) == head
  {
    CountIs(head, tail);
    if head < tail { assert (head + 64) % 64 == head; }
  }

  lemma PushHeld(entries: seq<nat>, head: nat, tail: nat)
    requires |entries| == 64 && head < 64 && tail < 64 && Space(head, tail) > 0
    ensures Held(entries, (head + 1) % 64, tail) == Held(entries, head, tail) + [entries[head]]
  {
    CountSteps(head, tail);
    LastSlot(head, tail);
    assert Held(entries, (head + 1) % 64, tail)[Count(head, tail)] == entries[head];
  }

  lemma NextSlot(tail: nat, i: nat)
    requires tail < 64
    ensures SlotFrom(if tail == 63 then 0 else tail + 1, i) == SlotFrom(tail, i + 1)
  {
    if tail == 63 { assert (63 + (i + 1)) % 64 == i % 64; }
  }

  lemma PopHeld(entries: seq<nat>, head: nat, tail: nat)
    requires |entries| == 64 && head < 64 && tail < 64 && Count(head, tail) > 0
    ensures Held(entries, head, tail)[0] == entries[tail]
    ensures Held(entries, head, (tail + 1) % 64) == Held(entries, head, tail)[1..]
  {
    CountSteps(head, tail);
    var t := if tail == 63 then 0 else tail + 1;
    assert (tail + 1) % 64 == t;
    var all, s' := Held(entries, head, tail), Held(entries, head, t);
    assert SlotFrom(tail, 0) == tail;
    forall i | 0 <= i < |s'| ensures s'[i] == all[i + 1] { NextSlot(tail, i); }
    assert s' == all[1..];
  }

  /** A slot that is not among tail, ..., head - 1 holds an address that is not among theirs. */
  lemma NotHeld(entries: seq<nat>, head: nat, tail: nat, k: nat)
    requires |entries| == 64 && AllDifferent(entries) && head < 64 && tail < 64 && k < 64 && Count(k, tail) >= Count(head, tail)
    ensures entries[k] !in Held(entries, head, tail)
  {
    var s := Held(entries, head, tail);
    forall i | 0 <= i < |s| ensures s[i] != entries[k] {
      var j := SlotFrom(tail, i);
      assert j != k by {
        assert Count(j, tail) == i by { assert j == if tail + i < 64 then tail + i else tail + i - 64; }
      }
      assert if j < k then entries[j] != entries[k] else entries[k] != entries[j];
    }
  }

  class Ring {
    var entries: seq<nat>
    var head: nat
    var tail: nat

    constructor ()
      ensures Valid() && head == 0 && tail == 0
    {
      entries, head, tail := seq(64, _ => 0), 0, 0;
    }

    ghost predicate Valid()
      reads this
    {
      |entries| == 64 && head < 64 && tail < 64
    }

    ghost function Contents(): seq<nat>
      requires Valid()
      reads this
    {
      Held(entries, head, tail)
    }

    /** sk_buff_cq_push */
    method Push() returns (val: nat)
      requires Valid() && Space(head, tail) > 0
      modifies this`head
      ensures Valid() && val == entries[old(head)] && Contents() == old(Contents()) + [val]
      ensures Space(head, tail) == old(Space(head, tail)) - 1
    {
      PushHeld(entries, head, tail);
      SpaceAndCount(head, tail);
      CountSteps(head, tail);
      val := entries[head];
      head := (head + 1) % 64;
      SpaceAndCount(head, tail);
    }

    /** sk_buff_cq_pop */
    method Pop() returns (val: nat)
      requires Valid() && Count(head, tail) > 0
      modifies this`tail
      ensures Valid() && tail == (old(tail) + 1) % 64 && val == entries[old(tail)]
      ensures [val] + Contents() == old(Contents())
    {
      PopHeld(entries, head, tail);
      val := entries[tail];
      tail := (tail + 1) % 64;
    }
  }

  /** The device: it completes requests in the order in which they were posted. */
  class Device {
    const recvSlots: nat
    const sendSlots: nat
    var recvReq: seq<nat>
    var recvDone: seq<nat>
    var sendReq: seq<nat>
    var sendDone: seq<nat>

    constructor (recvSlots: nat, sendSlots: nat)
      requires recvSlots <= 255 && sendSlots <= 255
      ensures Valid() && recvReq == recvDone == sendReq == sendDone == [] && this.recvSlots == recvSlots && this.sendSlots == sendSlots
    {
      this.recvSlots, this.sendSlots := recvSlots, sendSlots;
      recvReq, recvDone, sendReq, sendDone := [], [], [], [];
    }

    ghost predicate Valid()
      reads this
    {
      |recvReq| <= recvSlots <= 255 && |sendReq| <= sendSlots <= 255
    }

    /** A frame has arrived and was written to the oldest posted buffer. */
    method Fill()
      requires Valid() && |recvReq| > 0
      modifies this`recvReq, this`recvDone
      ensures Valid() && recvDone + recvReq == old(recvDone + recvReq)
      ensures recvDone == old(recvDone) + [old(recvReq)[0]] && recvReq == old(recvReq)[1..]
    {
      recvDone, recvReq := recvDone + [recvReq[0]], recvReq[1..];
    }

    /** The oldest posted frame has been sent. */
    method Transmit()
      requires Valid() && |sendReq| > 0
      modifies this`sendReq, this`sendDone
      ensures Valid() && sendDone + sendReq == old(sendDone + sendReq) && |sendReq| == |old(sendReq)| - 1
    {
      sendDone, sendReq := sendDone + [sendReq[0]], sendReq[1..];
    }
  }

  /** Different slots and different rings use memory that does not overlap. */
  lemma FramesApart(i: nat, j: nat)
    requires i < 64 && j < 64
    ensures i < j ==> TX_BASE + i * FRAME_STRIDE + MAX_FRAME_SIZE <= TX_BASE + j * FRAME_STRIDE
    ensures i < j ==> RX_BASE + i * FRAME_STRIDE + MAX_FRAME_SIZE <= RX_BASE + j * FRAME_STRIDE
    ensures TX_BASE + i * FRAME_STRIDE + MAX_FRAME_SIZE <= RX_BASE + j * FRAME_STRIDE
    ensures RX_BASE + j * FRAME_STRIDE + MAX_FRAME_SIZE <= 0x1_0000_0000
  {
  }

  ghost predicate Frames(entries: seq<nat>, base: nat) {
    |entries| == 64 && forall i {:trigger entries[i]} :: 0 <= i < 64 ==> entries[i] == base + i * FRAME_STRIDE
  }

  lemma DropFirst(x: nat, rest: seq<nat>, done: seq<nat>, req: seq<nat>)
    requires [x] + rest == done + req && done != []
    ensures x == done[0] && rest == done[1..] + req
  {
    assert ([x] + rest)[0] == (done + req)[0];
    assert rest == ([x] + rest)[1..] == (done + req)[1..];
  }

  lemma FirstReceived(received: seq<nat>, done: seq<nat>)
    requires done != []
    ensures received + done == received + [done[0]] + done[1..]
  {
    assert done == [done[0]] + done[1..];
  }

  lemma SlotBefore(tail: nat)
    requires tail < 64
    ensures ((tail + 1) % 64 + 63) % 64 == tail
  {
  }

  /** The k-th frame is in the k-th buffer of the ring, going around. */
  ghost predicate InTurn(frames: seq<nat>) {
    forall k {:trigger frames[k]} :: 0 <= k < |frames| ==> frames[k] == RX_BASE + k % 64 * FRAME_STRIDE
  }

  lemma SumSlot(n: nat, i: nat)
    ensures (n % 64 + i) % 64 == (n + i) % 64
  {
  }

  /** How many receive buffers are posted and filled, how many frames are to be sent and sent, and the totals. */
  datatype Counts = Counts(posted: nat, done: nat, queued: nat, sent: nat, filled: nat, received: nat)

  datatype Event = Fill | Transmit | Alloc | Receive | Send

  function Min(a: int, b: int): int { if a <= b then a else b }

  /** icenet_alloc_recv in numbers: as many buffers as the device and the ring have room for. */
  function Allocated(recvSlots: nat, c: Counts): Counts {
    var n := Min(recvSlots - c.posted, 63 - c.posted - c.done);
    if n > 0 then c.(posted := c.posted + n) else c
  }

  /** One event in numbers. */
  function Counted(recvSlots: nat, sendSlots: nat, c: Counts, e: Event): Counts {
    match e
    case Fill => if c.posted > 0 then c.(posted := c.posted - 1, done := c.done + 1, filled := c.filled + 1) else c
    case Transmit => if c.queued > 0 then c.(queued := c.queued - 1, sent := c.sent + 1) else c
    case Alloc => Allocated(recvSlots, c)
    case Receive => if c.done > 0 then c.(done := c.done - 1, received := c.received + 1, sent := 0) else c
    case Send => if c.queued < sendSlots && c.queued + c.sent < 63 then c.(queued := c.queued + 1) else c
  }

  /** A whole run in numbers, from the buffers that icenet_open posts. */
  function Tallied(recvSlots: nat, sendSlots: nat, events: seq<Event>): Counts {
    if events == [] then Allocated(recvSlots, Counts(0, 0, 0, 0, 0, 0))
    else Counted(recvSlots, sendSlots, Tallied(recvSlots, sendSlots, events[..|events| - 1]), events[|events| - 1])
  }

  class Nic {
    const dev: Device
    const send: Ring
    const recv: Ring
    /** The frames the device has filled, and the ones icenet_recv has returned, in order. */
    ghost var filled: seq<nat>
    ghost var received: seq<nat>

    /** The slots tail, ..., head - 1 of each ring are what the device owns, in order; at most 63. */
    ghost predicate Valid()
      reads this, dev, send, recv
    {
      && dev.Valid() && send.Valid() && recv.Valid() && send != recv
      && Frames(send.entries, TX_BASE) && Frames(recv.entries, RX_BASE)
      && recv.Contents() == dev.recvDone + dev.recvReq
      && send.Contents() == dev.sendDone + dev.sendReq
      && filled == received + dev.recvDone
      && (received != [] ==> received[|received| - 1] == recv.entries[(recv.tail + 63) % 64])
      && recv.tail == |received| % 64 && InTurn(received)
    }

    /** The lengths of the device's queues, and how many frames have been filled and received. */
    ghost function Tally(): Counts
      reads this, dev
    {
      Counts(|dev.recvReq|, |dev.recvDone|, |dev.sendReq|, |dev.sendDone|, |filled|, |received|)
    }

    /** The frames the device has filled went into the buffers in turn. */
    lemma FilledInTurn()
      requires Valid()
      ensures InTurn(filled)
    {
      var done, all := dev.recvDone, recv.Contents();
      forall k {:trigger filled[k]} | 0 <= k < |filled| ensures filled[k] == RX_BASE + k % 64 * FRAME_STRIDE {
        if k >= |received| {
          var i := k - |received|;
          assert filled[k] == done[i] == all[i] == recv.entries[SlotFrom(recv.tail, i)];
          SumSlot(|received|, i);
        }
      }
    }

    /** icenet_open on a zeroed structure. */
    constructor (dev: Device)
      requires dev.Valid() && dev.recvReq == dev.recvDone == dev.sendReq == dev.sendDone == []
      modifies dev
      ensures Valid() && fresh(send) && fresh(recv) && this.dev == dev && filled == received == []
      ensures Tally() == Allocated(dev.recvSlots, Counts(0, 0, 0, 0, 0, 0))
    {
      this.dev := dev;
      send := new Ring();
      recv := new Ring();
      filled, received := [], [];
      new;
      for i := 0 to 64
        invariant send.Valid() && recv.Valid() && send.head == send.tail == recv.head == recv.tail == 0
        invariant send != recv && fresh(send) && fresh(recv) && filled == received == []
        invariant dev.Valid() && dev.recvReq == dev.recvDone == dev.sendReq == dev.sendDone == []
        invariant forall j {:trigger recv.entries[j]} :: 0 <= j < i ==> recv.entries[j] == RX_BASE + j * FRAME_STRIDE
        invariant forall j {:trigger send.entries[j]} :: 0 <= j < i ==> send.entries[j] == TX_BASE + j * FRAME_STRIDE
      {
        recv.entries := recv.entries[i := RX_BASE + i * FRAME_STRIDE];
        send.entries := send.entries[i := TX_BASE + i * FRAME_STRIDE];
      }
      assert recv.Contents() == [] && send.Contents() == [];
      AllocRecv();
    }

    lemma EntriesDistinct(entries: seq<nat>, base: nat)
      requires Frames(entries, base)
      ensures AllDifferent(entries)
    {
    }

    /** icenet_alloc_recv: post as many free slots as both sides have room for. */
    method AllocRecv()
      requires Valid()
      modifies dev`recvReq, recv`head
      ensures Valid() && old(dev.recvReq) <= dev.recvReq
      ensures dev.recvSlots == |dev.recvReq| || Space(recv.head, recv.tail) == 0
      ensures Tally() == Allocated(dev.recvSlots, old(Tally()))
    {
      SpaceAndCount(recv.head, recv.tail);
      var hw := dev.recvSlots - |dev.recvReq|;
      var sw := Space(recv.head, recv.tail);
      var cnt := if hw < sw then hw else sw;
      while cnt > 0
        invariant 0 <= cnt && cnt <= dev.recvSlots - |dev.recvReq| && cnt <= Space(recv.head, recv.tail)
        invariant cnt == dev.recvSlots - |dev.recvReq| || cnt == Space(recv.head, recv.tail)
        invariant Valid() && old(dev.recvReq) <= dev.recvReq && |dev.recvReq| + cnt == |old(dev.recvReq)| + Min(hw, sw)
      {
        PostRecv();
        cnt := cnt - 1;
      }
    }

    method PostRecv()
      requires Valid() && |dev.recvReq| < dev.recvSlots && Space(recv.head, recv.tail) > 0
      modifies dev`recvReq, recv`head
      ensures Valid() && dev.recvReq == old(dev.recvReq) + [recv.entries[old(recv.head)]]
      ensures Space(recv.head, recv.tail) == old(Space(recv.head, recv.tail)) - 1
    {
      var addr := recv.Push();
      dev.recvReq := dev.recvReq + [addr];
    }

    /** The frame that icenet_recv returned last belongs to the driver: no slot the device owns refers to it. */
    lemma LastFrameIsFree()
      requires Valid() && received != []
      ensures received[|received| - 1] !in dev.recvDone + dev.recvReq
    {
      EntriesDistinct(recv.entries, RX_BASE);
      assert Count((recv.tail + 63) % 64, recv.tail) == 63;
      NotHeld(recv.entries, recv.head, recv.tail, (recv.tail + 63) % 64);
    }

    /** At most 63 buffers of a ring are the device's. */
    lemma OneSlotFree()
      requires Valid()
      ensures |dev.recvDone| + |dev.recvReq| <= 63 && |dev.sendDone| + |dev.sendReq| <= 63
    {
      assert |recv.Contents()| <= 63 && |send.Contents()| <= 63;
    }

    /** icenet_complete_send: retire the completed transmissions. */
    method CompleteSend()
      requires Valid()
      modifies dev`sendDone, send`tail
      ensures Valid() && dev.sendDone == []
    {
      OneSlotFree();
      var n := |dev.sendDone| % 0x100;
      while n > 0
        invariant Valid() && n == |dev.sendDone|
      {
        RetireSend();
        n := n - 1;
      }
    }

    method RetireSend()
      requires Valid() && dev.sendDone != []
      modifies dev`sendDone, send`tail
      ensures Valid() && dev.sendDone == old(dev.sendDone)[1..]
    {
      assert |send.Contents()| > 0;
      var addr := send.Pop();
      DropFirst(addr, send.Contents(), dev.sendDone, dev.sendReq);
      dev.sendDone := dev.sendDone[1..];
    }

    /** icenet_recv, called when a completion is available: it returns the frame the device filled first. */
    method Recv() returns (frame: nat)
      requires Valid() && dev.recvDone != []
      modifies this`received, dev`sendDone, dev`recvDone, send`tail, recv`tail
      ensures Valid() && frame == old(dev.recvDone)[0] && received == old(received) + [frame] && dev.recvDone == old(dev.recvDone)[1..] && dev.sendDone == []
    {
      CompleteSend();
      assert |recv.Contents()| > 0;
      SlotBefore(recv.tail);
      SumSlot(|received|, 1);
      frame := recv.Pop();
      DropFirst(frame, recv.Contents(), dev.recvDone, dev.recvReq);
      FirstReceived(received, dev.recvDone);
      dev.recvDone := dev.recvDone[1..];
      received := received + [frame];
    }

    /** icenet_get_tx_buffer: the buffer it offers is never in flight. */
    method GetTxBuffer() returns (frame: nat, ok: bool)
      requires Valid()
      ensures frame == send.entries[send.head] && frame !in dev.sendDone + dev.sendReq
      ensures ok <==> |dev.sendReq| < dev.sendSlots && Space(send.head, send.tail) > 0
    {
      EntriesDistinct(send.entries, TX_BASE);
      NotHeld(send.entries, send.head, send.tail, send.head);
      frame := send.entries[send.head];
      ok := dev.sendSlots - |dev.sendReq| >= 1 && Space(send.head, send.tail) > 0;
    }

    /** icenet_start_xmit with the buffer that was offered. */
    method StartXmit(addr: nat)
      requires Valid() && addr == send.entries[send.head] && |dev.sendReq| < dev.sendSlots && Space(send.head, send.tail) > 0
      modifies dev`sendReq, send`head
      ensures Valid() && dev.sendReq == old(dev.sendReq) + [addr]
    {
      dev.sendReq := dev.sendReq + [addr];
      var val := send.Push();
    }

    /** The device fills a buffer. */
    method DeviceFills()
      requires Valid() && dev.recvReq != []
      modifies this`filled, dev`recvReq, dev`recvDone
      ensures Valid() && filled == old(filled) + [old(dev.recvReq)[0]] && dev.recvReq == old(dev.recvReq)[1..] && |dev.recvDone| == |old(dev.recvDone)| + 1
    {
      filled := filled + [dev.recvReq[0]];
      dev.Fill();
    }

    method DeviceSends()
      requires Valid() && dev.sendReq != []
      modifies dev`sendReq, dev`sendDone
      ensures Valid() && |dev.sendReq| == |old(dev.sendReq)| - 1 && |dev.sendDone| == |old(dev.sendDone)| + 1
    {
      dev.Transmit();
    }
  }

  /** One event: the numbers change as they should. */
  method Handle(nic: Nic, e: Event)
    requires nic.Valid()
    modifies nic, nic.dev, nic.send, nic.recv
    ensures nic.Valid() && nic.Tally() == Counted(nic.dev.recvSlots, nic.dev.sendSlots, old(nic.Tally()), e)
    ensures old(nic.filled) <= nic.filled && old(nic.received) <= nic.received
  {
    match e
    case Fill => if nic.dev.recvReq != [] { nic.DeviceFills(); }
    case Transmit => if nic.dev.sendReq != [] { nic.DeviceSends(); }
    case Alloc => nic.AllocRecv();
    case Receive => if nic.dev.recvDone != [] { var frame := nic.Recv(); }
    case Send =>
      SpaceAndCount(nic.send.head, nic.send.tail);
      var frame, ok := nic.GetTxBuffer();
      if ok { nic.StartXmit(frame); }
  }

  /** Every run: the buffers are filled in turn, as many as the events say, and received in the order in which they were filled. */
  method Run(recvSlots: nat, sendSlots: nat, events: seq<Event>) returns (nic: Nic)
    requires recvSlots <= 255 && sendSlots <= 255
    ensures nic.Valid() && nic.received <= nic.filled && nic.Tally() == Tallied(recvSlots, sendSlots, events) && InTurn(nic.filled)
    ensures nic.received != [] ==> nic.received[|nic.received| - 1] !in nic.dev.recvDone + nic.dev.recvReq
  {
    var dev := new Device(recvSlots, sendSlots);
    nic := new Nic(dev);
    for i := 0 to |events|
      invariant nic.Valid() && fresh(nic) && fresh(nic.dev) && fresh(nic.send) && fresh(nic.recv)
      invariant nic.dev.recvSlots == recvSlots && nic.dev.sendSlots == sendSlots && nic.Tally() == Tallied(recvSlots, sendSlots, events[..i])
    {
      Handle(nic, events[i]);
      assert events[..i + 1][..i] == events[..i];
    }
    assert events[..|events|] == events;
    nic.FilledInTurn();
    if nic.received != [] { nic.LastFrameIsFree(); }
  }
}
