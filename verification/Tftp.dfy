/** The windowed TFTP receiver: window and acknowledgement bookkeeping under any sequence of packets and timeouts. */
module Tftp {
  import opened Machine
  import opened Bits

  const MAX_WINSIZE: nat := 16
  const MAX_BLKSIZE: nat := 1024
  const MAX_RETRIES: nat := 5

  type Word16 = x: int | 0 <= x < 0x1_0000

  /** n | 1 << i */
  function SetBit(n: nat, i: nat): nat {
    if i == 0 then (if n % 2 == 1 then n else n + 1) else 2 * SetBit(n / 2, i - 1) + n % 2
  }

  /** n has at most k bits. */
  predicate Narrow(n: nat, k: nat) { if k == 0 then n == 0 else Narrow(n / 2, k - 1) }

  /** The number of ones below the lowest zero. */
  function Ones(n: nat): nat { if n % 2 == 0 then 0 else 1 + Ones(n / 2) }

  /** n >> k */
  function Shr(n: nat, k: nat): nat { if k == 0 then n else Shr(n / 2, k - 1) }

  lemma {:induction false} SetBitAt(n: nat, i: nat, j: nat)
    ensures Bit(SetBit(n, i), j) <==> i == j || Bit(n, j)
  {
    if i > 0 && j > 0 { SetBitAt(n / 2, i - 1, j - 1); }
    if i > 0 { assert SetBit(n, i) / 2 == SetBit(n / 2, i - 1); }
    if i == 0 && j > 0 { assert SetBit(n, 0) / 2 == n / 2; }
  }

  lemma {:induction false} SetBitNarrow(n: nat, i: nat, k: nat)
    requires Narrow(n, k) && i < k
    ensures Narrow(SetBit(n, i), k)
  {
    if i > 0 {
      SetBitNarrow(n / 2, i - 1, k - 1);
      assert SetBit(n, i) / 2 == SetBit(n / 2, i - 1);
    } else {
      assert SetBit(n, 0) / 2 == n / 2;
    }
  }

  lemma {:induction false} OnesAreBits(n: nat, i: nat)
    requires i < Ones(n)
    ensures Bit(n, i)
  {
    if i > 0 { OnesAreBits(n / 2, i - 1); }
  }

  lemma {:induction false} OnesBound(n: nat, k: nat)
    requires Narrow(n, k)
    ensures Ones(n) <= k
  {
    if k > 0 && n % 2 == 1 { OnesBound(n / 2, k - 1); }
  }

  lemma {:induction false} NarrowZero(k: nat)
    ensures Narrow(0, k)
  {
    if k > 0 { NarrowZero(k - 1); }
  }

  /** w ones. */
  function Mask(w: nat): nat { if w == 0 then 0 else 2 * Mask(w - 1) + 1 }

  lemma {:induction false} MaskOnes(w: nat)
    ensures Ones(Mask(w)) == w
  {
    if w > 0 { MaskOnes(w - 1); }
  }

  /** `0xffff >> (16 - w)` is w ones. */
  lemma {:induction false} WindowMask(m: nat, k: nat)
    requires k <= m
    ensures Shr(Mask(m), k) == Mask(m - k)
    decreases k
  {
    if k > 0 { WindowMask(m - 1, k - 1); }
  }

  datatype OptionName = WindowSize | BlkSize | Unknown

  /** An option with its value, or the start of one that the packet cuts off. */
  datatype Opt = Opt(name: OptionName, val: seq<char>) | NoValue

  predicate Digits(s: seq<char>) { forall i {:trigger s[i]} :: 0 <= i < |s| ==> '0' <= s[i] <= '9' }

  function Decimal(s: seq<char>): nat
    requires Digits(s)
  {
    if s == [] then 0 else 10 * Decimal(s[..|s| - 1]) + (s[|s| - 1] as int - '0' as int)
  }

  lemma {:induction false} DecimalGrows(s: seq<char>, i: nat)
    requires Digits(s) && i <= |s|
    ensures Decimal(s[..i]) <= Decimal(s)
    decreases |s|
  {
    if i < |s| {
      DecimalGrows(s[..|s| - 1], i);
      assert s[..|s| - 1][..i] == s[..i];
    } else {
      assert s[..i] == s;
    }
  }

  /** An option value of the acknowledgement: digits only, at most max, compared after every digit. */
  method ParseNumber(val: seq<char>, max: nat) returns (ok: bool, n: nat)
    requires max <= MAX_BLKSIZE
    ensures ok <==> Digits(val) && Decimal(val) <= max
    ensures ok ==> n == Decimal(val)
  {
    n := 0;
    for i := 0 to |val|
      invariant Digits(val[..i]) && n == Decimal(val[..i]) <= max
    {
      if val[i] < '0' || val[i] > '9' { return false, n; }
      assert val[..i + 1][..i] == val[..i];
      n := (n * 10 + (val[i] as int - '0' as int)) % 0x1_0000;
      if n > max {
        if Digits(val) { DecimalGrows(val, i + 1); }
        return false, n;
      }
    }
    assert val[..|val|] == val;
    ok := true;
  }

  /** An option the receiver takes. */
  ghost predicate GoodOption(o: Opt) {
    match o
    case Opt(WindowSize, val) => Digits(val) && 1 <= Decimal(val) <= MAX_WINSIZE
    case Opt(BlkSize, val) => Digits(val) && 8 <= Decimal(val) <= MAX_BLKSIZE
    case Opt(Unknown, _) => true
    case NoValue => false
  }

  /** The value of the last option with this name, or the default. */
  ghost function LastValue(opts: seq<Opt>, name: OptionName, default: nat): nat
    requires forall i {:trigger opts[i]} :: 0 <= i < |opts| ==> GoodOption(opts[i])
    requires name != Unknown
  {
    if opts == [] then default else
      var o := opts[|opts| - 1];
      assert GoodOption(o);
      if o.name == name then Decimal(o.val) else LastValue(opts[..|opts| - 1], name, default)
  }

  /** The options of an OACK: accepted if and only if all are good, and then the last one of each name counts. */
  method ParseOptions(opts: seq<Opt>) returns (ok: bool, winsize: Word16, blksize: Word16)
    ensures ok <==> forall i {:trigger opts[i]} :: 0 <= i < |opts| ==> GoodOption(opts[i])
    ensures ok ==> 1 <= winsize <= MAX_WINSIZE && 8 <= blksize <= MAX_BLKSIZE
    ensures ok ==> winsize == LastValue(opts, WindowSize, 1) && blksize == LastValue(opts, BlkSize, 512)
  {
    winsize, blksize := 1, 512;
    for k := 0 to |opts|
      invariant forall i {:trigger opts[i]} :: 0 <= i < k ==> GoodOption(opts[i])
      invariant 1 <= winsize <= MAX_WINSIZE && 8 <= blksize <= MAX_BLKSIZE
      invariant forall i {:trigger opts[..k][i]} :: 0 <= i < k ==> GoodOption(opts[..k][i])
      invariant winsize == LastValue(opts[..k], WindowSize, 1) && blksize == LastValue(opts[..k], BlkSize, 512)
    {
      assert opts[..k + 1][..k] == opts[..k];
      var fine, n := true, 0;
      match opts[k] {
        case NoValue =>
          return false, winsize, blksize;
        case Opt(WindowSize, val) =>
          fine, n := ParseNumber(val, MAX_WINSIZE);
          if !fine || n == 0 { return false, winsize, blksize; }
          winsize := n;
        case Opt(BlkSize, val) =>
          fine, n := ParseNumber(val, MAX_BLKSIZE);
          if !fine || n < 8 { return false, winsize, blksize; }
          blksize := n;
        case Opt(Unknown, _) =>
      }
    }
    assert opts[..|opts|] == opts;
    ok := true;
  }

  datatype Event = Timeout | Error | Oack(opts: seq<Opt>) | Data(block: Word16, len: Word16) | Stray
  datatype Status = Running | Failed | Finished(size: int)

  /** An acknowledgement that was sent: the block number in the packet, the position it stands for, and the event that caused it. */
  datatype Sent = Sent(block: Word16, upto: nat, ev: nat)

  /**
   * A block stored in the buffer: its position in the file, where its bytes went, how many they were, and winbuf and the
   * window size at that time. `whole`: until then winbuf had counted whole blocks only. `ev`: the event that brought it.
   */
  datatype Store = Store(block: nat, at: int, len: nat, winbuf: int, winsize: nat, whole: bool, ev: nat)

  /** What has happened: the acknowledged blocks, the accepted ones, everything sent and stored, and the number of events so far. */
  datatype Log = Log(acked: nat, accepted: set<nat>, acks: seq<Sent>, stores: seq<Store>, now: nat)

  /** Every block up to n has been accepted. */
  ghost predicate AllAccepted(accepted: set<nat>, n: nat) { forall b {:trigger b in accepted} :: 1 <= b <= n ==> b in accepted }

  /** Every acknowledgement names a block up to which all have been accepted, and the positions never decrease. */
  ghost predicate AcksOk(acks: seq<Sent>, accepted: set<nat>, acked: nat) {
    && (forall i {:trigger acks[i]} :: 0 <= i < |acks| ==>
          acks[i].block == acks[i].upto % 0x1_0000 && acks[i].upto <= acked && AllAccepted(accepted, acks[i].upto))
    && (forall i, j {:trigger acks[i], acks[j]} :: 0 <= i < j < |acks| ==> acks[i].upto <= acks[j].upto)
  }

  /** Every store lies in the window that was in force; as long as winbuf counts whole blocks, block b goes to its own place. */
  ghost predicate StoreOk(t: Store, accepted: set<nat>, blksize: nat) {
    && t.block in accepted && 1 <= t.winsize <= MAX_WINSIZE && t.len <= blksize <= MAX_BLKSIZE
    && t.winbuf <= t.at && t.at + t.len <= t.winbuf + t.winsize * blksize
    && (t.whole ==> t.block >= 1 && t.at == blksize * (t.block - 1))
  }

  ghost predicate StoresOk(stores: seq<Store>, accepted: set<nat>, blksize: nat) {
    forall i {:trigger stores[i]} :: 0 <= i < |stores| ==> StoreOk(stores[i], accepted, blksize)
  }

  /** Blocks stored while winbuf counts whole blocks do not overlap. */
  lemma StoresApart(stores: seq<Store>, accepted: set<nat>, blksize: nat, i: nat, j: nat)
    requires StoresOk(stores, accepted, blksize) && i < |stores| && j < |stores|
    requires stores[i].whole && stores[j].whole && stores[i].block < stores[j].block
    ensures stores[i].at + stores[i].len <= stores[j].at
  {
    var b, d := stores[i].block, stores[j].block;
    MulMonotone(blksize, b, d - 1);
    assert blksize * b == blksize * (b - 1) + blksize;
  }

  /** The bits of the window stand for accepted blocks. */
  ghost predicate BitsOk(winbits: nat, accepted: set<nat>, acked: nat) {
    Narrow(winbits, 16) && forall i: nat {:trigger Bit(winbits, i)} :: Bit(winbits, i) ==> acked + 1 + i in accepted
  }

  /** Proofs that need the body of LogOk mention OpenLog. */
  ghost predicate OpenLog(k: int) { true }
  ghost predicate OpenAck(k: int) { true }
  ghost predicate OpenGrowth(k: int) { true }

  ghost predicate OpenHistory(k: int) { true }

  /** Block b was stored by event ev or before it. */
  ghost predicate Backed(stores: seq<Store>, b: nat, ev: nat) {
    exists j {:trigger stores[j]} :: 0 <= j < |stores| && stores[j].block == b && stores[j].ev <= ev
  }

  /** Every accepted block has been stored, and those an acknowledgement covers were stored before it was sent. */
  ghost predicate HistoryOk(log: Log) {
    forall k {:trigger OpenHistory(k)} :: OpenHistory(k) ==>
      && (forall b {:trigger b in log.accepted} :: b in log.accepted ==> Backed(log.stores, b, log.now))
      && AcksBacked(log.acks, log.stores) && AcksBefore(log.acks, log.now)
  }

  ghost predicate AcksBefore(acks: seq<Sent>, now: nat) { forall i {:trigger acks[i]} :: 0 <= i < |acks| ==> acks[i].ev <= now }

  ghost predicate AcksBacked(acks: seq<Sent>, stores: seq<Store>) {
    forall i, b: nat {:trigger Backed(stores, b, acks[i].ev)} :: 0 <= i < |acks| && 1 <= b <= acks[i].upto ==> Backed(stores, b, acks[i].ev)
  }

  lemma BackedMore(stores: seq<Store>, t: Store, b: nat, ev: nat, ev': nat)
    requires ev <= ev'
    ensures Backed(stores, b, ev) ==> Backed(stores + [t], b, ev') && Backed(stores, b, ev')
    ensures t.ev <= ev' ==> Backed(stores + [t], t.block, ev')
  {
    var all := stores + [t];
    assert all[|stores|] == t;
    if Backed(stores, b, ev) {
      var j :| 0 <= j < |stores| && stores[j].block == b && stores[j].ev <= ev;
      assert all[j] == stores[j];
    }
  }

  lemma HistoryStored(log: Log, winoff: nat, t: Store)
    requires HistoryOk(log) && t.block == log.acked + 1 + winoff && t.ev == log.now
    ensures HistoryOk(Accepted(log, winoff, t))
  {
    assert OpenHistory(0);
    var stores := log.stores + [t];
    forall b | b in log.accepted + {t.block} ensures Backed(stores, b, log.now) { BackedMore(log.stores, t, b, log.now, log.now); }
    forall i, b: nat | 0 <= i < |log.acks| && 1 <= b <= log.acks[i].upto ensures Backed(stores, b, log.acks[i].ev) {
      assert Backed(log.stores, b, log.acks[i].ev);
      BackedMore(log.stores, t, b, log.acks[i].ev, log.acks[i].ev);
    }
  }

  lemma HistoryAcked(log: Log, winbits: nat, sent: bool)
    requires HistoryOk(log) && AllAccepted(log.accepted, log.acked + Ones(winbits))
    ensures HistoryOk(Acked(log, winbits, sent))
  {
    assert OpenHistory(0);
    var r := Acked(log, winbits, sent);
    forall i, b: nat | 0 <= i < |r.acks| && 1 <= b <= r.acks[i].upto ensures Backed(r.stores, b, r.acks[i].ev) {
      if i < |log.acks| {
        assert r.acks[i] == log.acks[i] && Backed(log.stores, b, log.acks[i].ev);
      } else {
        assert b in log.accepted;
      }
    }
  }

  /** The next event. */
  ghost function Ticked(log: Log): Log { log.(now := log.now + 1) }

  lemma HistoryTicked(log: Log, winbits: nat, blksize: nat)
    requires LogOk(log, winbits, blksize)
    ensures LogOk(Ticked(log), winbits, blksize)
  {
    assert OpenLog(0) && OpenHistory(0);
    forall b | b in log.accepted ensures Backed(log.stores, b, log.now + 1) {
      BackedMore(log.stores, Store(0, 0, 0, 0, 0, false, 0), b, log.now, log.now + 1);
    }
  }

  ghost predicate LogOk(log: Log, winbits: nat, blksize: nat) {
    HistoryOk(log) && forall k {:trigger OpenLog(k)} :: OpenLog(k) ==>
      && AllAccepted(log.accepted, log.acked) && BitsOk(winbits, log.accepted, log.acked)
      && AcksOk(log.acks, log.accepted, log.acked) && StoresOk(log.stores, log.accepted, blksize)
  }

  /** The 16-bit arithmetic of prvTftpAck, and its one comparison on ints. */
  lemma AckNumbers(winstart: Word16, k: nat)
    requires k <= 16
    ensures var winlast := (winstart + k - 1) % 0x1_0000;
      (winlast == winstart - 1 <==> k == 0 && winstart != 0) && (winlast - winstart + 1) % 0x1_0000 == k
  {
    var x := winstart + k - 1;
    assert x % 0x1_0000 == if x < 0 then x + 0x1_0000 else if x < 0x1_0000 then x else x - 0x1_0000;
  }

  /** The blocks that winbits begins with have been accepted. */
  lemma WindowAccepted(winbits: nat, accepted: set<nat>, acked: nat)
    requires AllAccepted(accepted, acked) && BitsOk(winbits, accepted, acked)
    ensures AllAccepted(accepted, acked + Ones(winbits))
  {
    forall b {:trigger b in accepted} | 1 <= b <= acked + Ones(winbits) ensures b in accepted {
      if b > acked { OnesAreBits(winbits, b - acked - 1); }
    }
  }

  lemma EmptyWindow(accepted: set<nat>, acked: nat)
    ensures BitsOk(0, accepted, acked)
  {
    NarrowZero(16);
    forall i: nat ensures !Bit(0, i) { NoBits(i); }
  }

  /** The log after prvTftpAck moved over the leading blocks, with or without a packet. */
  ghost function Acked(log: Log, winbits: nat, sent: bool): Log {
    var n := log.acked + Ones(winbits);
    log.(acked := n, acks := if sent then log.acks + [Sent(n % 0x1_0000, n, log.now)] else log.acks)
  }

  /** Everything recorded stays recorded, and the acknowledged position does not move back. */
  ghost predicate Extends(log: Log, log': Log) {
    forall k {:trigger OpenGrowth(k)} :: OpenGrowth(k) ==>
      log.acked <= log'.acked && log.acks <= log'.acks && log.accepted <= log'.accepted && log.stores <= log'.stores
  }

  lemma LogGrows(log: Log, winbits: nat, sent: bool, winoff: nat, t: Store)
    ensures Extends(log, log) && Extends(log, Acked(log, winbits, sent)) && Extends(log, Accepted(log, winoff, t))
  {
  }

  lemma ExtendsTrans(log: Log, log': Log, log'': Log)
    requires Extends(log, log') && Extends(log', log'')
    ensures Extends(log, log'')
  {
    assert OpenGrowth(0);
  }

  /** One more acknowledgement, at a position that is not before the last one. */
  lemma AckSent(acks: seq<Sent>, accepted: set<nat>, acked: nat, n: nat, ev: nat)
    requires AcksOk(acks, accepted, acked) && acked <= n && AllAccepted(accepted, n)
    ensures AcksOk(acks, accepted, n) && AcksOk(acks + [Sent(n % 0x1_0000, n, ev)], accepted, n)
  {
  }

  lemma LogAcked(log: Log, winbits: nat, blksize: nat)
    requires LogOk(log, winbits, blksize)
    ensures Narrow(winbits, 16) && LogOk(Acked(log, winbits, true), 0, blksize)
    ensures Ones(winbits) == 0 ==> LogOk(Acked(log, winbits, false), winbits, blksize) && LogOk(Acked(log, winbits, true), winbits, blksize)
  {
    assert OpenLog(0);
    var n := log.acked + Ones(winbits);
    WindowAccepted(winbits, log.accepted, log.acked);
    EmptyWindow(log.accepted, n);
    AckSent(log.acks, log.accepted, log.acked, n, log.now);
    assert Acked(log, winbits, true).acks == log.acks + [Sent(n % 0x1_0000, n, log.now)];
    HistoryAcked(log, winbits, true);
    HistoryAcked(log, winbits, false);
  }

  /** The log after a block was stored and accepted at place winoff of the window. */
  ghost function Accepted(log: Log, winoff: nat, t: Store): Log {
    log.(accepted := log.accepted + {log.acked + 1 + winoff}, stores := log.stores + [t])
  }

  lemma BitsAccepted(winbits: nat, accepted: set<nat>, acked: nat, winoff: nat)
    requires BitsOk(winbits, accepted, acked) && winoff < 16
    ensures BitsOk(SetBit(winbits, winoff), accepted + {acked + 1 + winoff}, acked) && SetBit(winbits, winoff) < 0x1_0000
  {
    var accepted' := accepted + {acked + 1 + winoff};
    SetBitNarrow(winbits, winoff, 16);
    NarrowBound(SetBit(winbits, winoff), 16);
    Pow2Of16();
    forall i: nat | Bit(SetBit(winbits, winoff), i) ensures acked + 1 + i in accepted' { SetBitAt(winbits, winoff, i); }
  }

  lemma MoreAccepted(acks: seq<Sent>, stores: seq<Store>, accepted: set<nat>, b: nat, acked: nat, blksize: nat)
    requires AllAccepted(accepted, acked) && AcksOk(acks, accepted, acked) && StoresOk(stores, accepted, blksize)
    ensures AllAccepted(accepted + {b}, acked) && AcksOk(acks, accepted + {b}, acked) && StoresOk(stores, accepted + {b}, blksize)
  {
  }

  lemma StoreAdded(stores: seq<Store>, accepted: set<nat>, blksize: nat, t: Store)
    requires StoresOk(stores, accepted, blksize) && StoreOk(t, accepted, blksize)
    ensures StoresOk(stores + [t], accepted, blksize)
  {
  }

  lemma LogAccepted(log: Log, winbits: nat, blksize: nat, winoff: nat, t: Store)
    requires LogOk(log, winbits, blksize) && winoff < 16 && t.block == log.acked + 1 + winoff && t.ev == log.now
    requires StoreOk(t, log.accepted + {log.acked + 1 + winoff}, blksize)
    ensures LogOk(Accepted(log, winoff, t), SetBit(winbits, winoff), blksize) && SetBit(winbits, winoff) < 0x1_0000
  {
    assert OpenLog(0);
    BitsAccepted(winbits, log.accepted, log.acked, winoff);
    MoreAccepted(log.acks, log.stores, log.accepted, log.acked + 1 + winoff, log.acked, blksize);
    StoreAdded(log.stores, log.accepted + {log.acked + 1 + winoff}, blksize, t);
    HistoryStored(log, winoff, t);
  }

  lemma NextStart(winstart: Word16, acked: nat, k: nat)
    requires winstart == (acked + 1) % 0x1_0000
    ensures (winstart + k) % 0x1_0000 == (acked + k + 1) % 0x1_0000
    ensures (winstart + k - 1) % 0x1_0000 == (acked + k) % 0x1_0000
  {
    var q := (acked + 1) / 0x1_0000;
    assert acked + 1 == q * 0x1_0000 + winstart;
    SameRemainder(winstart + k, q);
    SameRemainder(winstart + k - 1, q);
  }

  lemma SameRemainder(x: int, q: nat)
    ensures (x + q * 0x1_0000) % 0x1_0000 == x % 0x1_0000
  {
    var y := x + q * 0x1_0000;
    assert x == x / 0x1_0000 * 0x1_0000 + x % 0x1_0000;
    assert y == (x / 0x1_0000 + q) * 0x1_0000 + x % 0x1_0000;
  }

  /** A uint16_t result. */
  function Wrapped(x: int): Word16 { x % 0x1_0000 }

  lemma WrapNext(x: int)
    ensures Wrapped(Wrapped(x) + 1) == Wrapped(x + 1)
  {
    var q, r := x / 0x1_0000, x % 0x1_0000;
    assert x == q * 0x1_0000 + r;
    if r + 1 == 0x1_0000 {
      DivModUnique(x + 1, 0x1_0000, q + 1, 0);
    } else {
      DivModUnique(x + 1, 0x1_0000, q, r + 1);
    }
  }

  lemma WholeBlocks(blksize: nat, acked: nat, k: nat)
    ensures blksize * acked + (k - 1) * blksize + blksize == blksize * (acked + k)
  {
  }

  /** winbuf still counts whole blocks unless the size of a short one was added. */
  lemma MovedWhole(blksize: nat, n: nat, k: nat, winbuf: int, last: bool, lastsize: nat, cut: bool)
    requires !cut ==> winbuf == blksize * n
    ensures !cut && !(last && lastsize != blksize) ==>
      winbuf + (k - 1) * blksize + (if last then lastsize else blksize) == blksize * (n + k)
  {
    WholeBlocks(blksize, n, k);
  }

  lemma WholePlus(blksize: nat, acked: nat, w: nat)
    requires w >= 1
    ensures blksize * acked + (w - 1) * blksize == blksize * (acked + w - 1)
    ensures blksize * (acked + w - 1) + blksize == blksize * (acked + w)
  {
  }

  lemma {:induction false} NarrowBound(n: nat, k: nat)
    requires Narrow(n, k)
    ensures n < Pow2(k)
    decreases k
  {
    if k > 0 { NarrowBound(n / 2, k - 1); }
  }

  lemma Pow2Of16()
    ensures Pow2(16) == 0x1_0000
  {
    assert Pow2(4) == 0x10;
    assert Pow2(8) == 0x100;
    assert Pow2(12) == 0x1000;
  }

  lemma MaskOf16()
    ensures Mask(16) == 0xFFFF
  {
    assert Mask(4) == 0xF;
    assert Mask(8) == 0xFF;
    assert Mask(12) == 0xFFF;
  }

  /** A complete window is acknowledged as a whole. */
  lemma FullWindow(w: nat)
    requires w <= 16
    ensures Shr(0xffff, 16 - w) == Mask(w) && Ones(Mask(w)) == w
  {
    MaskOf16();
    WindowMask(16, 16 - w);
    MaskOnes(w);
  }

  /** A block of the window is stored inside the window. */
  lemma StoreInside(winoff: nat, blksize: nat, len: nat, ws: nat)
    requires winoff < ws && len <= blksize
    ensures 0 <= winoff * blksize && winoff * blksize + len <= ws * blksize
  {
    MulMonotone(blksize, winoff + 1, ws);
    assert (winoff + 1) * blksize == winoff * blksize + blksize;
  }


  /** Before anything is stored the block size does not matter to the log. */
  lemma LogEmpty(log: Log, winbits: nat, blksize: nat, blksize': nat)
    requires LogOk(log, winbits, blksize) && log.stores == []
    ensures LogOk(log, winbits, blksize')
  {
    assert OpenLog(0);
  }

  /** The fields of the window that a stored block changes. */
  datatype Window = Window(size: nat, bits: nat, lastblock: int, lastsize: nat)

  /** The window after block number `block`, at place winoff of it, was stored: the furthest block is remembered, a short one ends it. */
  function Taken(w: Window, winstart: int, blksize: nat, block: int, winoff: nat, len: nat): Window {
    var lastoff := (w.lastblock - winstart) % 0x1_0000;
    var furthest := winoff > lastoff || lastoff >= w.size;
    var lastsize := if furthest then len else w.lastsize;
    Window(if lastsize < blksize then winoff + 1 else w.size, SetBit(w.bits, winoff), if furthest then block else w.lastblock, lastsize)
  }

  /**
   * The state of the receiver. The sizes are those in force: before anything was negotiated, one block of 512 bytes.
   * `asked`: a size has been settled; `started`: a block has come; `pastrrq`: the request has been answered.
   */
  datatype Snapshot = Snapshot(
    winbuf: int, winsize: nat, blksize: nat, winbits: nat, winstart: int, lastblock: int, lastsize: nat, retries: nat,
    started: bool, asked: bool, pastrrq: bool, short: bool, cut: bool, log: Log)

  ghost function Initial(): Snapshot { Snapshot(0, 1, 512, 0, 1, 0, 0, 1, false, false, false, false, false, Log(0, {}, [], [], 0)) }

  /** The state after a block was stored at offset `at` and taken into the window. */
  ghost function Stored(pre: Snapshot, block: Word16, winoff: nat, len: Word16, at: int): Snapshot {
    var w := Taken(Window(pre.winsize, pre.winbits, pre.lastblock, pre.lastsize), pre.winstart, pre.blksize, block, winoff, len);
    var t := Store(pre.log.acked + 1 + winoff, at, len, pre.winbuf, pre.winsize, !pre.cut, pre.log.now);
    pre.(winsize := w.size, winbits := w.bits, lastblock := w.lastblock, lastsize := w.lastsize,
         short := pre.short || len < pre.blksize, log := Accepted(pre.log, winoff, t))
  }

  /** The window has moved over the blocks it begins with. If the furthest block is the last of them, its size counts. */
  ghost function Advanced(pre: Snapshot): Snapshot {
    var k, log' := Ones(pre.winbits), Acked(pre.log, pre.winbits, true);
    var last := log'.acked % 0x1_0000 == pre.lastblock;
    pre.(log := log', winbits := 0, retries := 0, winstart := (log'.acked + 1) % 0x1_0000,
         winbuf := pre.winbuf + (k - 1) * pre.blksize + (if last then pre.lastsize else pre.blksize),
         cut := pre.cut || (last && pre.lastsize < pre.blksize))
  }

  /** prvTftpAck, and whether it goes on: a window that starts at block 0 always moves, otherwise only over received blocks. */
  ghost function AckResult(pre: Snapshot): (Snapshot, bool) {
    if pre.winstart == 0 || Ones(pre.winbits) > 0 then (Advanced(pre), true)
    else if pre.retries < MAX_RETRIES then (pre.(log := Acked(pre.log, pre.winbits, true), retries := pre.retries + 1), true)
    else (pre, false)
  }

  ghost function StatusOf(ok: bool): Status { if ok then Running else Failed }

  /** The first block that fits the window starts the transfer. */
  ghost function Begun(pre: Snapshot): Snapshot { pre.(started := true, asked := true, pastrrq := true) }

  /** The window test: a complete window is acknowledged, and a short block in it ends the transfer. */
  ghost function Tested(mid: Snapshot): (Snapshot, Status) {
    if mid.winbits == Mask(mid.winsize) then (Advanced(mid), if mid.lastsize < mid.blksize then Finished(Advanced(mid).winbuf) else Running)
    else (mid, Running)
  }

  /** A block outside the window: behind the last one of the previous window, the acknowledgement is repeated. */
  ghost function Missed(pre: Snapshot, winoff: nat): (Snapshot, Status) {
    if winoff == 0xffff && pre.winbits == 0 then (AckResult(pre).0, StatusOf(AckResult(pre).1)) else (pre, Running)
  }

  /** A block inside the window: one that is too long ends the transfer, any other is stored. */
  ghost function Met(pre: Snapshot, block: Word16, winoff: nat, len: Word16): (Snapshot, Status) {
    if len > pre.blksize then (pre, Failed) else Tested(Stored(pre, block, winoff, len, pre.winbuf + winoff * pre.blksize))
  }

  /** A DATA packet. */
  ghost function DataResult(pre: Snapshot, block: Word16, len: Word16): (Snapshot, Status) {
    var winoff := (block - pre.winstart) % 0x1_0000;
    if winoff >= pre.winsize then Missed(pre, winoff) else Met(Begun(pre), block, winoff, len)
  }

  /** The sizes an option acknowledgement settles; they are acknowledged as block 0. */
  ghost function Settled(pre: Snapshot, winsize: nat, blksize: nat): Snapshot {
    pre.(winsize := winsize, blksize := blksize, winbits := 0, winstart := 1, lastblock := 0, lastsize := 0, retries := 0,
         asked := true, pastrrq := true, log := pre.log.(acks := pre.log.acks + [Sent(0, 0, pre.log.now)]))
  }

  /** An OACK: of no effect once a block has come; a repeated one is acknowledged first. */
  ghost function OackResult(pre: Snapshot, opts: seq<Opt>): (Snapshot, Status) {
    var (mid, ok) := if pre.asked then AckResult(pre) else (pre, true);
    if pre.started then (pre, Running)
    else if !ok || exists i {:trigger opts[i]} :: 0 <= i < |opts| && !GoodOption(opts[i]) then (mid, Failed)
    else (Settled(mid, LastValue(opts, WindowSize, 1), LastValue(opts, BlkSize, 512)), Running)
  }

  /** An error, which an old server sends for the options: one more request without. */
  ghost function ErrorResult(pre: Snapshot): (Snapshot, Status) {
    if pre.asked then (pre, Failed) else (pre.(asked := true, retries := 1, pastrrq := false), Running)
  }

  ghost function TimeoutResult(pre: Snapshot): (Snapshot, Status) {
    if pre.pastrrq then (AckResult(pre).0, StatusOf(AckResult(pre).1))
    else if pre.retries < MAX_RETRIES then (pre.(retries := pre.retries + 1), Running)
    else (pre, Failed)
  }

  /** The reference: what one turn of the receive loop does with an event. */
  ghost function Turn(pre: Snapshot, e: Event): (Snapshot, Status) {
    var (post, st) := match e
      case Timeout => TimeoutResult(pre)
      case Error => ErrorResult(pre)
      case Oack(opts) => OackResult(pre, opts)
      case Data(block, len) => DataResult(pre, block, len)
      case Stray => (pre, Running);
    (post.(log := Ticked(post.log)), st)
  }

  ghost predicate OpenTurn(k: int) { true }

  ghost predicate DataTurns(pre: Snapshot, block: Word16, len: Word16, post: Snapshot, st: Status) {
    forall k {:trigger OpenTurn(k)} :: OpenTurn(k) ==> DataResult(pre, block, len) == (post, st)
  }

  lemma DataIsTurn(pre: Snapshot, block: Word16, len: Word16, post: Snapshot, st: Status)
    requires DataTurns(pre, block, len, post, st)
    ensures Turns(pre, Data(block, len), post.(log := Ticked(post.log)), st)
  {
    assert OpenTurn(0);
  }

  lemma DataOutside(pre: Snapshot, block: Word16, len: Word16, post: Snapshot, st: Status)
    requires (block - pre.winstart) % 0x1_0000 >= pre.winsize
    requires (post, st) == Missed(pre, (block - pre.winstart) % 0x1_0000)
    ensures DataTurns(pre, block, len, post, st)
  {
  }

  lemma DataInside(pre: Snapshot, block: Word16, len: Word16, post: Snapshot, st: Status)
    requires (block - pre.winstart) % 0x1_0000 < pre.winsize
    requires (post, st) == Met(Begun(pre), block, (block - pre.winstart) % 0x1_0000, len)
    ensures DataTurns(pre, block, len, post, st)
  {
  }

  /** One turn of the reference leads from pre to post. */
  ghost predicate Turns(pre: Snapshot, e: Event, post: Snapshot, st: Status) {
    forall k {:trigger OpenTurn(k)} :: OpenTurn(k) ==> Turn(pre, e) == (post, st)
  }

  /** What holds between any two events: the numbers belong to the position, and before the first block nothing is received. */
  ghost predicate Consistent(s: Snapshot) {
    && s.winstart == (s.log.acked + 1) % 0x1_0000 && 0 <= s.lastblock < 0x1_0000 && s.winsize <= MAX_WINSIZE
    && (s.asked || (s.winsize == 1 && s.blksize == 512)) && (s.started ==> s.asked && s.pastrrq)
    && (s.started || (s.log.acked == 0 && s.winbits == 0))
  }

  /** The log but for the clock. */
  ghost predicate SameLog(l: Log, l': Log) { l'.acked == l.acked && l'.accepted == l.accepted && l'.acks == l.acks && l'.stores == l.stores }

  /** Nothing but the clock has moved. */
  ghost predicate Still(pre: Snapshot, post: Snapshot) { SameLog(pre.log, post.log) && post == pre.(log := post.log) }

  /** Exactly one acknowledgement was sent, it names position n, and nothing was stored. */
  ghost predicate OneAck(l: Log, l': Log, n: nat) {
    l'.acked == n && l'.acks == l.acks + [Sent(n % 0x1_0000, n, l.now)] && l'.accepted == l.accepted && l'.stores == l.stores
  }

  /** The window begins with k blocks, and the next one is missing. */
  ghost predicate Begins(bits: nat, k: nat) { !Bit(bits, k) && forall i: nat {:trigger Bit(bits, i)} :: i < k ==> Bit(bits, i) }

  /** The state after the position moved on by k blocks. */
  ghost predicate MovedBy(pre: Snapshot, k: nat, post: Snapshot) {
    var n := pre.log.acked + k;
    var last := n % 0x1_0000 == pre.lastblock;
    && post.log.acked == n && post.winbits == 0 && post.retries == 0 && post.winstart == (n + 1) % 0x1_0000
    && post.winbuf == pre.winbuf + (k - 1) * pre.blksize + (if last then pre.lastsize else pre.blksize)
    && post.cut == (pre.cut || (last && pre.lastsize < pre.blksize))
    && post == pre.(log := post.log, winbits := 0, retries := 0, winstart := post.winstart, winbuf := post.winbuf, cut := post.cut)
  }

  /**
   * An acknowledgement over the k blocks the window begins with. Without one it is a retry, of which there are at most
   * five in a row, except that a window which starts at block number 0 counts as moved.
   */
  ghost predicate AckLaw(pre: Snapshot, k: nat, post: Snapshot, st: Status) {
    if k > 0 || (pre.log.acked + 1) % 0x1_0000 == 0 then
      st == Running && OneAck(pre.log, post.log, pre.log.acked + k) && MovedBy(pre, k, post)
    else if pre.retries < 5 then
      st == Running && OneAck(pre.log, post.log, pre.log.acked) && post == pre.(log := post.log, retries := pre.retries + 1)
    else st == Failed && Still(pre, post)
  }

  /** A timeout: before the request was answered it is made again, afterwards exactly one acknowledgement is sent. */
  ghost predicate TimeoutLaw(pre: Snapshot, post: Snapshot, st: Status) {
    if pre.pastrrq then exists k: nat {:trigger Begins(pre.winbits, k)} :: Begins(pre.winbits, k) && AckLaw(pre, k, post, st)
    else if pre.retries < 5 then st == Running && SameLog(pre.log, post.log) && post == pre.(log := post.log, retries := pre.retries + 1)
    else st == Failed && Still(pre, post)
  }

  /** An error: it ends the transfer, except that a first one repeats the request, with blocks of 512 bytes one at a time. */
  ghost predicate ErrorLaw(pre: Snapshot, post: Snapshot, st: Status) {
    if pre.asked then st == Failed && Still(pre, post)
    else
      && st == Running && SameLog(pre.log, post.log)
      && post == pre.(log := post.log, asked := true, winsize := 1, blksize := 512, retries := 1, pastrrq := false)
  }

  /**
   * An OACK: nothing once a block has come. A repeated one is first answered as before, and ends the transfer at the
   * retry limit. Bad options end it; good ones are put in force and acknowledged as block 0.
   */
  ghost predicate OackLaw(pre: Snapshot, opts: seq<Opt>, post: Snapshot, st: Status) {
    if pre.started then st == Running && Still(pre, post)
    else if pre.asked && pre.retries >= 5 then st == Failed && Still(pre, post)
    else
      var again := if pre.asked then [Sent(0, 0, pre.log.now)] else [];
      if exists i {:trigger opts[i]} :: 0 <= i < |opts| && !GoodOption(opts[i]) then
        st == Failed && post.log.acked == 0 && post.log.acks == pre.log.acks + again && post.log.stores == pre.log.stores
      else
        st == Running && SettledLaw(pre, opts, post) && post.log.acks == pre.log.acks + again + [Sent(0, 0, pre.log.now)]
  }

  ghost predicate SettledLaw(pre: Snapshot, opts: seq<Opt>, post: Snapshot)
    requires forall i {:trigger opts[i]} :: 0 <= i < |opts| ==> GoodOption(opts[i])
  {
    && post.log.acked == 0 && post.log.stores == pre.log.stores && post.log.accepted == pre.log.accepted
    && post == pre.(log := post.log, winsize := LastValue(opts, WindowSize, 1), blksize := LastValue(opts, BlkSize, 512), winbits := 0,
                    winstart := 1, lastblock := 0, lastsize := 0, retries := 0, asked := true, pastrrq := true)
  }

  /** Block number `block` is that of position b in the window. */
  ghost predicate Named(s: Snapshot, block: int, b: nat) {
    s.log.acked < b <= s.log.acked + s.winsize && b % 0x1_0000 == block
  }

  /** With block b the window of this size is complete. */
  ghost predicate Completes(s: Snapshot, b: nat, size: nat) {
    forall i: nat {:trigger Bit(s.winbits, i)} :: (Bit(s.winbits, i) || s.log.acked + 1 + i == b) <==> i < size
  }

  /** The block furthest into the window is remembered with its size; if it is short, the window ends behind block b. */
  ghost predicate WindowLaw(pre: Snapshot, b: nat, block: int, len: nat, post: Snapshot)
    requires pre.log.acked < b
  {
    var behind := exists c: nat {:trigger Named(pre, pre.lastblock, c)} :: b <= c && Named(pre, pre.lastblock, c);
    && post.lastblock == (if behind then pre.lastblock else block) && post.lastsize == (if behind then pre.lastsize else len)
    && post.winsize == if post.lastsize < pre.blksize then b - pre.log.acked else pre.winsize
  }

  /** Block b is stored once, at its place in the window, and accepted. */
  ghost predicate StoreLaw(pre: Snapshot, b: nat, len: nat, post: Snapshot)
    requires pre.log.acked < b
  {
    var at := pre.winbuf + (b - pre.log.acked - 1) * pre.blksize;
    && post.log.stores == pre.log.stores + [Store(b, at, len, pre.winbuf, pre.winsize, !pre.cut, pre.log.now)]
    && post.log.accepted == pre.log.accepted + {b} && post.short == (pre.short || len < pre.blksize)
    && post.blksize == pre.blksize && post.started && post.asked && post.pastrrq
  }

  /** A complete window is acknowledged as a whole, once, and behind a short block the transfer is finished. */
  ghost predicate CompleteLaw(pre: Snapshot, b: nat, post: Snapshot, st: Status)
    requires pre.log.acked < b
  {
    if Completes(pre, b, post.winsize) then
      var n := pre.log.acked + post.winsize;
      var last := n % 0x1_0000 == post.lastblock;
      && post.log.acked == n && post.log.acks == pre.log.acks + [Sent(n % 0x1_0000, n, pre.log.now)]
      && post.winbits == 0 && post.retries == 0 && post.winstart == (n + 1) % 0x1_0000
      && post.winbuf == pre.winbuf + (post.winsize - 1) * pre.blksize + (if last then post.lastsize else pre.blksize)
      && post.cut == (pre.cut || (last && post.lastsize < pre.blksize))
      && st == if post.lastsize < pre.blksize then Finished(post.winbuf) else Running
    else
      && post.log.acked == pre.log.acked && post.log.acks == pre.log.acks && st == Running
      && (forall i: nat {:trigger Bit(post.winbits, i)} :: Bit(post.winbits, i) <==> Bit(pre.winbits, i) || pre.log.acked + 1 + i == b)
      && post.retries == pre.retries && post.winstart == pre.winstart && post.winbuf == pre.winbuf && post.cut == pre.cut
  }

  /** The block at position b of the window: one that is too long ends the transfer. */
  ghost predicate BlockLaw(pre: Snapshot, b: nat, block: int, len: nat, post: Snapshot, st: Status)
    requires pre.log.acked < b
  {
    if len > pre.blksize then
      st == Failed && SameLog(pre.log, post.log) && post == pre.(log := post.log, started := true, asked := true, pastrrq := true)
    else StoreLaw(pre, b, len, post) && WindowLaw(pre, b, block, len, post) && CompleteLaw(pre, b, post, st)
  }

  ghost predicate Outside(s: Snapshot, block: int) { forall b: nat {:trigger Named(s, block, b)} :: !Named(s, block, b) }

  /**
   * A DATA packet. A block of the window is stored. The last acknowledged block, as long as none of the window has come,
   * has its acknowledgement repeated. Any other block changes nothing.
   */
  ghost predicate DataLaw(pre: Snapshot, block: int, len: nat, post: Snapshot, st: Status) {
    forall t {:trigger OpenLaw(t)} :: OpenLaw(t) ==>
      && (forall b: nat {:trigger Named(pre, block, b)} :: Named(pre, block, b) ==> BlockLaw(pre, b, block, len, post, st))
      && (Outside(pre, block) ==>
            if block == pre.log.acked % 0x1_0000 && pre.winbits == 0 then AckLaw(pre, 0, post, st) else st == Running && Still(pre, post))
  }

  ghost predicate OpenLaw(t: int) { true }

  /** What an event does to the receiver. */
  ghost predicate EventLaw(pre: Snapshot, e: Event, post: Snapshot, st: Status) {
    forall t {:trigger OpenLaw(t)} :: OpenLaw(t) ==>
      post.log.now == pre.log.now + 1 &&
      match e
      case Timeout => TimeoutLaw(pre, post, st)
      case Error => ErrorLaw(pre, post, st)
      case Oack(opts) => OackLaw(pre, opts, post, st)
      case Data(block, len) => DataLaw(pre, block, len, post, st)
      case Stray => st == Running && Still(pre, post)
  }

  lemma {:induction false} OnesBegin(n: nat)
    ensures Begins(n, Ones(n))
  {
    if n % 2 == 1 {
      OnesBegin(n / 2);
      forall i: nat | i < Ones(n) ensures Bit(n, i) { if i > 0 { assert Bit(n / 2, i - 1); } }
    }
  }

  lemma {:induction false} MaskBits(w: nat, i: nat)
    ensures Bit(Mask(w), i) <==> i < w
  {
    if w == 0 { NoBits(i); } else if i > 0 { MaskBits(w - 1, i - 1); }
  }

  lemma AckObeys(pre: Snapshot)
    requires Consistent(pre)
    ensures Begins(pre.winbits, Ones(pre.winbits))
    ensures AckLaw(pre, Ones(pre.winbits), AckResult(pre).0, StatusOf(AckResult(pre).1))
  {
    OnesBegin(pre.winbits);
    if pre.winstart != 0 && Ones(pre.winbits) == 0 && pre.retries < MAX_RETRIES {
      assert Acked(pre.log, pre.winbits, true).acked == pre.log.acked;
    }
  }

  lemma TimeoutObeys(pre: Snapshot)
    requires Consistent(pre)
    ensures TimeoutLaw(pre, TimeoutResult(pre).0, TimeoutResult(pre).1)
  {
    AckObeys(pre);
  }

  lemma OackObeys(pre: Snapshot, opts: seq<Opt>)
    requires Consistent(pre)
    ensures OackLaw(pre, opts, OackResult(pre, opts).0, OackResult(pre, opts).1)
  {
    if !pre.started && pre.asked { AckObeys(pre); }
  }

  /** The place in the window of position b. */
  lemma NamedPlace(s: Snapshot, block: int, b: nat)
    requires Consistent(s) && Named(s, block, b)
    ensures (block - s.winstart) % 0x1_0000 == b - s.log.acked - 1
  {
    var o, n := b - s.log.acked - 1, s.log.acked + 1;
    var q, q' := n / 0x1_0000, b / 0x1_0000;
    assert n == q * 0x1_0000 + s.winstart && b == q' * 0x1_0000 + block;
    assert block - s.winstart == (q - q') * 0x1_0000 + o;
    DivModUnique(block - s.winstart, 0x1_0000, q - q', o);
  }

  lemma PlaceNamed(s: Snapshot, block: Word16)
    requires Consistent(s)
    ensures var o := (block - s.winstart) % 0x1_0000; if o < s.winsize then Named(s, block, s.log.acked + 1 + o) else Outside(s, block)
    ensures (block - s.winstart) % 0x1_0000 == 0xffff <==> block == s.log.acked % 0x1_0000
  {
    var o := (block - s.winstart) % 0x1_0000;
    BlockNumber(s.log.acked + 1, block);
    forall b: nat | Named(s, block, b) ensures o == b - s.log.acked - 1 { NamedPlace(s, block, b); }
    var r := s.log.acked % 0x1_0000;
    assert s.winstart == (if r == 0xffff then 0 else r + 1);
  }

  lemma DataObeys(pre: Snapshot, block: Word16, len: Word16)
    requires Consistent(pre)
    ensures DataLaw(pre, block, len, DataResult(pre, block, len).0, DataResult(pre, block, len).1)
  {
    var o := (block - pre.winstart) % 0x1_0000;
    PlaceNamed(pre, block);
    if o < pre.winsize {
      BlockObeys(pre, block, o, len);
      assert Named(pre, block, pre.log.acked + 1 + o);
      var (post, st) := Met(Begun(pre), block, o, len);
      forall b: nat | Named(pre, block, b) ensures BlockLaw(pre, b, block, len, post, st) { NamedPlace(pre, block, b); }
    } else {
      MissedObeys(pre, block, o);
    }
  }

  lemma MissedObeys(pre: Snapshot, block: Word16, o: nat)
    requires Consistent(pre) && (o == 0xffff <==> block == pre.log.acked % 0x1_0000)
    ensures var (post, st) := Missed(pre, o);
      if block == pre.log.acked % 0x1_0000 && pre.winbits == 0 then AckLaw(pre, 0, post, st) else st == Running && Still(pre, post)
  {
    if o == 0xffff && pre.winbits == 0 { AckObeys(pre); }
  }

  lemma BlockObeys(pre: Snapshot, block: Word16, o: nat, len: Word16)
    requires Consistent(pre) && o == (block - pre.winstart) % 0x1_0000 && o < pre.winsize
    ensures BlockLaw(pre, pre.log.acked + 1 + o, block, len, Met(Begun(pre), block, o, len).0, Met(Begun(pre), block, o, len).1)
  {
    if len <= pre.blksize {
      var mid := Stored(Begun(pre), block, o, len, pre.winbuf + o * pre.blksize);
      WindowObeys(pre, block, o, len, mid);
      CompleteObeys(pre, o, mid);
      StoredObeys(pre, block, o, len, mid);
    }
  }

  lemma StoredObeys(pre: Snapshot, block: Word16, o: nat, len: Word16, mid: Snapshot)
    requires o < pre.winsize && mid == Stored(Begun(pre), block, o, len, pre.winbuf + o * pre.blksize)
    requires WindowLaw(pre, pre.log.acked + 1 + o, block, len, mid)
    ensures StoreLaw(pre, pre.log.acked + 1 + o, len, Tested(mid).0) && WindowLaw(pre, pre.log.acked + 1 + o, block, len, Tested(mid).0)
  {
    assert mid.blksize == pre.blksize;
  }

  lemma WindowObeys(pre: Snapshot, block: Word16, o: nat, len: Word16, mid: Snapshot)
    requires Consistent(pre) && o == (block - pre.winstart) % 0x1_0000 && o < pre.winsize
    requires mid == Stored(Begun(pre), block, o, len, pre.winbuf + o * pre.blksize)
    ensures WindowLaw(pre, pre.log.acked + 1 + o, block, len, mid)
  {
    var lastoff := (pre.lastblock - pre.winstart) % 0x1_0000;
    PlaceNamed(pre, pre.lastblock);
    if lastoff < pre.winsize {
      assert Named(pre, pre.lastblock, pre.log.acked + 1 + lastoff);
      forall c: nat | Named(pre, pre.lastblock, c) ensures c == pre.log.acked + 1 + lastoff { NamedPlace(pre, pre.lastblock, c); }
    }
  }

  lemma CompleteObeys(pre: Snapshot, o: nat, mid: Snapshot)
    requires mid.log.acked == pre.log.acked && mid.log.acks == pre.log.acks && mid.log.now == pre.log.now && mid.blksize == pre.blksize
    requires mid.winbits == SetBit(pre.winbits, o) && mid.retries == pre.retries && mid.winstart == pre.winstart && mid.winbuf == pre.winbuf && mid.cut == pre.cut
    ensures CompleteLaw(pre, pre.log.acked + 1 + o, Tested(mid).0, Tested(mid).1)
  {
    forall i: nat ensures Bit(mid.winbits, i) <==> Bit(pre.winbits, i) || o == i { SetBitAt(pre.winbits, o, i); }
    forall i: nat ensures Bit(Mask(mid.winsize), i) <==> i < mid.winsize { MaskBits(mid.winsize, i); }
    MaskOnes(mid.winsize);
    if Completes(pre, pre.log.acked + 1 + o, mid.winsize) {
      forall j: nat ensures Bit(mid.winbits, j) <==> Bit(Mask(mid.winsize), j) { assert Bit(pre.winbits, j) || true; }
      SameBits(mid.winbits, Mask(mid.winsize));
    } else {
      assert mid.winbits != Mask(mid.winsize);
    }
  }

  /** What a DATA packet does, and what it does to the log when it is the last acknowledged block again. */
  lemma DataLawful(pre: Snapshot, block: Word16, len: Word16, post: Snapshot, st: Status)
    requires Consistent(pre) && DataTurns(pre, block, len, post, st)
    ensures DataLaw(pre, block, len, post, st)
    ensures block == pre.log.acked % 0x1_0000 && pre.winbits == 0 ==> Repeats(pre.log, pre.retries, post.log, st)
  {
    assert OpenTurn(0) && OpenLaw(0);
    DataObeys(pre, block, len);
    DataStores(pre, block, len);
    PlaceNamed(pre, block);
  }

  /** One more acknowledgement of the position reached, or the end at the retry limit. */
  ghost predicate Repeats(l: Log, retries: nat, l': Log, st: Status) {
    if retries >= 5 && (l.acked + 1) % 0x1_0000 != 0 then st == Failed && l' == l
    else st == Running && l' == l.(acks := l.acks + [Sent(l.acked % 0x1_0000, l.acked, l.now)])
  }

  /** The reference obeys the laws. */
  lemma TurnObeys(pre: Snapshot, e: Event, post: Snapshot, st: Status)
    requires Consistent(pre) && Turns(pre, e, post, st)
    ensures EventLaw(pre, e, post, st)
  {
    match e
    case Timeout => TimeoutTurn(pre, post, st);
    case Error => ErrorTurn(pre, post, st);
    case Oack(opts) => OackTurn(pre, opts, post, st);
    case Data(block, len) => PacketTurn(pre, block, len, post, st);
    case Stray => assert OpenTurn(0);
  }

  lemma TimeoutTurn(pre: Snapshot, post: Snapshot, st: Status)
    requires Consistent(pre) && Turns(pre, Timeout, post, st)
    ensures TimeoutLaw(pre, post, st) && post.log.now == pre.log.now + 1
  {
    assert OpenTurn(0);
    TimeoutObeys(pre);
    TimeoutTicks(pre, TimeoutResult(pre).0, st);
    AckStoresNothing(pre);
  }

  lemma ErrorTurn(pre: Snapshot, post: Snapshot, st: Status)
    requires Consistent(pre) && Turns(pre, Error, post, st)
    ensures ErrorLaw(pre, post, st) && post.log.now == pre.log.now + 1
  {
    assert OpenTurn(0);
  }

  lemma OackTurn(pre: Snapshot, opts: seq<Opt>, post: Snapshot, st: Status)
    requires Consistent(pre) && Turns(pre, Oack(opts), post, st)
    ensures OackLaw(pre, opts, post, st) && post.log.now == pre.log.now + 1
  {
    assert OpenTurn(0);
    OackObeys(pre, opts);
    OackTicks(pre, opts, OackResult(pre, opts).0, st);
    OackStoresNothing(pre, opts);
  }

  lemma PacketTurn(pre: Snapshot, block: Word16, len: Word16, post: Snapshot, st: Status)
    requires Consistent(pre) && Turns(pre, Data(block, len), post, st)
    ensures DataLaw(pre, block, len, post, st) && post.log.now == pre.log.now + 1
  {
    DataObeys(pre, block, len);
    DataTicks(pre, block, len, DataResult(pre, block, len).0, DataResult(pre, block, len).1);
    DataStores(pre, block, len);
    assert OpenTurn(0);
  }

  /** The clock does not matter to the laws. */
  lemma AckTicks(pre: Snapshot, k: nat, post: Snapshot, st: Status)
    requires AckLaw(pre, k, post, st)
    ensures AckLaw(pre, k, post.(log := Ticked(post.log)), st)
  {
  }

  lemma TimeoutTicks(pre: Snapshot, post: Snapshot, st: Status)
    requires TimeoutLaw(pre, post, st)
    ensures TimeoutLaw(pre, post.(log := Ticked(post.log)), st)
  {
    if pre.pastrrq {
      var k: nat :| Begins(pre.winbits, k) && AckLaw(pre, k, post, st);
      AckTicks(pre, k, post, st);
    }
  }

  lemma OackTicks(pre: Snapshot, opts: seq<Opt>, post: Snapshot, st: Status)
    requires OackLaw(pre, opts, post, st)
    ensures OackLaw(pre, opts, post.(log := Ticked(post.log)), st)
  {
  }

  lemma BlockTicks(pre: Snapshot, b: nat, block: int, len: nat, post: Snapshot, st: Status)
    requires pre.log.acked < b && BlockLaw(pre, b, block, len, post, st)
    ensures BlockLaw(pre, b, block, len, post.(log := Ticked(post.log)), st)
  {
  }

  lemma DataTicks(pre: Snapshot, block: int, len: nat, post: Snapshot, st: Status)
    requires DataLaw(pre, block, len, post, st)
    ensures DataLaw(pre, block, len, post.(log := Ticked(post.log)), st)
  {
    assert OpenLaw(0);
    forall b: nat | Named(pre, block, b) ensures BlockLaw(pre, b, block, len, post.(log := Ticked(post.log)), st) { BlockTicks(pre, b, block, len, post, st); }
    if Outside(pre, block) && block == pre.log.acked % 0x1_0000 && pre.winbits == 0 { AckTicks(pre, 0, post, st); }
  }

  class Client {
    var started: bool
    /** Offset of winbuf from buf; before the transfer has started the pointer is null and this is 0. */
    var winbuf: int
    var winsize: Word16
    var blksize: Word16
    var winstart: Word16
    var winbits: Word16
    var lastblock: Word16
    var lastsize: Word16
    var retries: nat
    var pastrrq: bool

    /** What has happened, whether a short block was accepted, and whether winbuf has moved by less than whole blocks. */
    ghost var log: Log
    ghost var short: bool
    ghost var cut: bool

    ghost predicate Sizes()
      reads this`started, this`winsize, this`blksize, this`retries, this`pastrrq
    {
      && winsize <= MAX_WINSIZE && blksize <= MAX_BLKSIZE && retries <= MAX_RETRIES
      && (started ==> 1 <= winsize && pastrrq) && (winsize != 0 ==> 8 <= blksize)
    }

    /** No block has been accepted yet. */
    ghost predicate Fresh()
      reads this`winbuf, this`winbits, this`lastblock, this`lastsize, this`log, this`short, this`cut
    {
      log.acked == 0 && log.stores == [] && winbits == 0 && winbuf == 0 && lastblock == 0 && lastsize == 0 && !short && !cut
    }

    /** winbuf counts the acknowledged blocks; without a short block every one is whole. */
    ghost predicate Position()
      reads this`started, this`winbuf, this`blksize, this`winbits, this`lastblock, this`lastsize, this`log, this`short, this`cut
    {
      if started then Fresh() || (lastsize <= blksize && (!short ==> lastsize == blksize && !cut) && (!cut ==> winbuf == blksize * log.acked))
      else Fresh()
    }

    ghost predicate Valid()
      reads this
    {
      Sizes() && Position() && winstart == (log.acked + 1) % 0x1_0000 && LogOk(log, winbits, blksize)
    }

    constructor ()
      ensures Valid() && !started && winsize == 0 && retries == 1 && !pastrrq && log == Log(0, {}, [], [], 0) && Snap() == Initial()
    {
      started, winbuf, winsize, blksize := false, 0, 0, 0;
      winstart, winbits, lastblock, lastsize, retries, pastrrq := 1, 0, 0, 0, 1, false;
      log, short, cut := Log(0, {}, [], [], 0), false, false;
      EmptyWindow({}, 0);
    }

    lemma SnapConsistent()
      requires Valid()
      ensures Consistent(Snap())
    {
    }

    /** The place after the window moved by k blocks that end at winlast. */
    ghost function Moved(k: nat, winlast: nat): int
      reads this`winbuf, this`blksize, this`lastblock, this`lastsize
    {
      winbuf + (k - 1) * blksize + if winlast == lastblock then lastsize else blksize
    }

    /**
     * prvTftpAck. The comparison with winstart - 1 is made on ints, so a window that starts at block 0
     * always takes the first branch, even when nothing was received.
     */
    method Ack(ghost n: nat) returns (ok: bool, winlast: Word16)
      requires Narrow(winbits, 16) && retries <= MAX_RETRIES && winstart == (n + 1) % 0x1_0000
      modifies this`winbits, this`winstart, this`winbuf, this`retries
      ensures var k := Ones(old(winbits)); k <= 16 && winlast == (n + k) % 0x1_0000
      ensures var k := Ones(old(winbits));
        if old(winstart) == 0 || k > 0 then
          ok && winbits == 0 && winstart == (n + k + 1) % 0x1_0000 && winbuf == old(Moved(k, (n + k) % 0x1_0000)) && retries == 0
        else
          winbits == old(winbits) && winstart == old(winstart) && winbuf == old(winbuf) && (ok <==> old(retries) < MAX_RETRIES)
          && retries == if ok then old(retries) + 1 else old(retries)
    {
      OnesBound(winbits, 16);
      NextStart(winstart, n, Ones(winbits));
      winlast := LastInRow();
      AckNumbers(winstart, Ones(winbits));
      if winlast != winstart - 1 {
        var numack := (winlast - winstart + 1) % 0x1_0000;
        winbits := 0;
        winstart := (winstart + numack) % 0x1_0000;
        winbuf := winbuf + (numack - 1) * blksize;
        if winlast == lastblock { winbuf := winbuf + lastsize; } else { winbuf := winbuf + blksize; }
        retries := 0;
      } else if retries == MAX_RETRIES {
        return false, winlast;
      } else {
        retries := retries + 1;
      }
      ok := true;
    }

    /** The loop of prvTftpAck: the last block of the window before the first gap. */
    method LastInRow() returns (winlast: Word16)
      requires Narrow(winbits, 16)
      ensures winlast == (winstart + Ones(winbits) - 1) % 0x1_0000
    {
      winlast := Wrapped(winstart - 1);
      var bits: nat := winbits;
      ghost var k := 0;
      while bits % 2 == 1
        invariant 0 <= k && k + Ones(bits) == Ones(winbits) && winlast == Wrapped(winstart + k - 1)
        decreases bits
      {
        WrapNext(winstart + k - 1);
        winlast := Wrapped(winlast + 1);
        bits := bits / 2;
        k := k + 1;
      }
    }

    ghost function Snap(): Snapshot
      reads this
    {
      Snapshot(winbuf, WindowInForce(), BlockInForce(), winbits, winstart, lastblock, lastsize, retries, started, winsize != 0, pastrrq, short, cut, log)
    }

    /** What prvTftpAck does in a consistent state. The window always moves if it starts at block 0. */
    ghost predicate AckEffect(pre: Snapshot, ok: bool)
      reads this
    {
      forall t {:trigger OpenAck(t)} :: OpenAck(t) ==> (Snap(), ok) == AckResult(pre)
    }

    /** prvTftpAck in a consistent state: the position moves over the accepted blocks and the packet names it. */
    method SendAck() returns (ok: bool)
      requires Valid()
      modifies this`winbits, this`winstart, this`winbuf, this`retries, this`log, this`cut
      ensures Valid() && AckEffect(old(Snap()), ok) && Forward(old(log))
      ensures log.stores == old(log).stores && log.accepted == old(log).accepted && log.acked == old(log).acked + Ones(old(winbits))
      ensures Ones(old(winbits)) > 0 ==> ok
    {
      label Before:
      ok := AckAndLog();
      AckKeepsPosition@Before(ok);
      LogGrows(old(log), old(winbits), ok, 0, StoreAt(0, 0, 0));
    }

    /** prvTftpAck and what it means for the log. */
    method AckAndLog() returns (ok: bool)
      requires Valid()
      modifies this`winbits, this`winstart, this`winbuf, this`retries, this`log, this`cut
      ensures AckEffect(old(Snap()), ok) && log == Acked(old(log), old(winbits), ok) && (Ones(old(winbits)) > 0 ==> ok)
      ensures winstart == (log.acked + 1) % 0x1_0000 && LogOk(log, winbits, blksize) && retries <= MAX_RETRIES
    {
      LogAcked(log, winbits, blksize);
      assert Ones(0) == 0;
      ok := AckFields();
    }

    /** prvTftpAck on the whole state. Before a size is settled the window cannot move. */
    method AckFields() returns (ok: bool)
      requires Narrow(winbits, 16) && retries <= MAX_RETRIES && winstart == (log.acked + 1) % 0x1_0000
      requires winsize == 0 ==> winstart != 0 && Ones(winbits) == 0
      modifies this`winbits, this`winstart, this`winbuf, this`retries, this`log, this`cut
      ensures (Snap(), ok) == AckResult(old(Snap())) && retries <= MAX_RETRIES
    {
      ghost var k, n := Ones(winbits), log.acked;
      ghost var moves := winstart == 0 || k > 0;
      var winlast;
      ok, winlast := Ack(n);
      log := Acked(log, old(winbits), ok);
      cut := cut || (winlast == lastblock && lastsize < blksize && moves);
    }

    /** winbuf still counts the acknowledged blocks. */
    twostate lemma AckKeepsPosition(ok: bool)
      requires old(Valid()) && AckEffect(old(Snap()), ok)
      requires unchanged(this`started, this`winsize, this`blksize, this`lastblock, this`lastsize, this`short)
      ensures Position()
    {
      assert OpenAck(0);
      var k, n := Ones(old(winbits)), old(log).acked;
      if started { MovedWhole(blksize, n, k, old(winbuf), (n + k) % 0x1_0000 == lastblock, lastsize, old(cut)); }
    }

    /** prvTftpRrq's retry counter; the request itself has no effect on the window. */
    method Rrq() returns (ok: bool)
      requires retries <= MAX_RETRIES
      modifies this`retries
      ensures (ok <==> old(retries) < MAX_RETRIES) && retries == if ok then old(retries) + 1 else old(retries)
    {
      ok := retries != MAX_RETRIES;
      if ok { retries := retries + 1; }
    }

    /** Everything recorded stays recorded, and the acknowledged position does not move back. */
    ghost predicate Forward(log0: Log)
      reads this`log
    {
      Extends(log0, log)
    }

    method OnTimeout() returns (st: Status)
      requires Valid()
      modifies this`winbits, this`winstart, this`winbuf, this`retries, this`log, this`cut
      ensures Valid() && Forward(old(log)) && (Snap(), st) == TimeoutResult(old(Snap())) && TimeoutLaw(old(Snap()), Snap(), st)
    {
      assert OpenAck(0);
      SnapConsistent();
      TimeoutObeys(Snap());
      var ok;
      LogGrows(log, winbits, true, 0, StoreAt(0, 0, 0));
      LogGrows(log, winbits, false, 0, StoreAt(0, 0, 0));
      if !pastrrq {
        ok := Rrq();
      } else {
        ok := SendAck();
      }
      st := if ok then Running else Failed;
    }

    /** An old server rejects options: try once more without. */
    method OnError() returns (st: Status)
      requires Valid()
      modifies this`winsize, this`blksize, this`retries, this`pastrrq
      ensures Valid()
      ensures (Snap(), st) == ErrorResult(old(Snap())) && ErrorLaw(old(Snap()), Snap(), st)
    {
      if winsize != 0 { return Failed; }
      LogEmpty(log, winbits, blksize, 512);
      winsize, blksize, retries, pastrrq := 1, 512, 0, false;
      var ok := Rrq();
      st := if ok then Running else Failed;
    }

    /** The option acknowledgement: it is in a window of its own that consists of block 0. */
    method OnOack(opts: seq<Opt>) returns (st: Status)
      requires Valid()
      modifies this`winbits, this`winstart, this`winbuf, this`retries, this`log, this`cut
      modifies this`winsize, this`blksize, this`pastrrq, this`lastblock, this`lastsize
      ensures Valid() && Forward(old(log)) && (Snap(), st) == OackResult(old(Snap()), opts) && OackLaw(old(Snap()), opts, Snap(), st)
    {
      assert OpenAck(0);
      assert OpenGrowth(0);
      SnapConsistent();
      OackObeys(Snap(), opts);
      if started { return Running; }
      if winsize != 0 {
        var ok := SendAck();
        if !ok { return Failed; }
      }
      var ok, ws, bs := ParseOptions(opts);
      if !ok { return Failed; }
      AckOptions(ws, bs);
      st := Running;
    }

    method AckOptions(ws: Word16, bs: Word16)
      requires Valid() && !started && 1 <= ws <= MAX_WINSIZE && 8 <= bs <= MAX_BLKSIZE
      modifies this`winbits, this`winstart, this`winbuf, this`retries, this`log
      modifies this`winsize, this`blksize, this`pastrrq, this`lastblock, this`lastsize
      ensures Valid() && log == old(log).(acks := old(log).acks + [Sent(0, 0, old(log).now)]) && Snap() == Settled(old(Snap()), ws, bs)
    {
      LogAcked(log, winbits, blksize);
      AckBlockZero();
      assert Ones(0) == 0;
      log := Acked(log, 0, true);
      LogEmpty(log, 0, blksize, bs);
      pastrrq := true;
      winsize, blksize := ws, bs;
    }

    /** A window that consists of block 0, which is there. */
    method AckBlockZero()
      modifies this`winsize, this`winstart, this`winbits, this`lastblock, this`lastsize, this`retries, this`winbuf
      ensures winsize == 1 && winstart == 1 && winbits == 0 && lastblock == 0 && lastsize == 0 && retries == 0 && winbuf == old(winbuf)
    {
      winsize, winstart, winbits, lastblock, lastsize, retries := 1, 0, 1, 0, 0, 0;
      assert Ones(1) == 1 && Narrow(1, 16) by { NarrowZero(15); }
      var ok, winlast := Ack(0xffff);
    }

    /** The window and block size in force for a DATA packet: without an option acknowledgement the defaults. */
    ghost function WindowInForce(): nat
      reads this`winsize
    {
      if winsize == 0 then 1 else winsize
    }

    ghost function BlockInForce(): nat
      reads this`winsize, this`blksize
    {
      if winsize == 0 then 512 else blksize
    }

    /** The start of the transfer: the first block that fits the window. */
    method Begin(winoff: Word16)
      requires Valid()
      modifies this`started, this`winbuf, this`winsize, this`blksize, this`pastrrq
      ensures Valid() && winbuf == old(winbuf)
      ensures if winoff < old(WindowInForce()) then started && winsize == old(WindowInForce()) && blksize == old(BlockInForce()) && Snap() == Begun(old(Snap()))
        else unchanged(this)
    {
      if (winoff < winsize || (winoff == 0 && winsize == 0)) && !started {
        started, winbuf := true, 0;
        pastrrq := true;
        if winsize == 0 {
          LogEmpty(log, winbits, blksize, 512);
          winsize, blksize := 1, 512;
        }
      }
    }

    ghost function WindowNow(): Window
      reads this`winsize, this`winbits, this`lastblock, this`lastsize
    {
      Window(winsize, winbits, lastblock, lastsize)
    }

    /** Remember the block furthest into the window; a short one ends the window. */
    method NoteLast(block: Word16, winoff: Word16, len: Word16)
      requires winsize <= MAX_WINSIZE && winoff < winsize
      modifies this`lastblock, this`lastsize, this`winsize
      ensures var w := Taken(old(WindowNow()), winstart, blksize, block, winoff, len);
        winsize == w.size && lastblock == w.lastblock && lastsize == w.lastsize
      ensures 1 <= winsize <= old(winsize)
    {
      var lastoff := (lastblock - winstart) % 0x1_0000;
      if winoff > lastoff || lastoff >= winsize {
        lastblock, lastsize := block, len;
      }
      if lastsize < blksize { winsize := winoff + 1; }
    }

    /** The store of a block at place winoff of the window. */
    ghost function StoreAt(winoff: nat, len: nat, at: int): Store
      reads this`winbuf, this`winsize, this`log, this`cut
    {
      Store(log.acked + 1 + winoff, at, len, winbuf, winsize, !cut, log.now)
    }

    lemma StoreIsOk(winoff: nat, len: nat, at: int)
      requires Valid() && started && winoff < winsize && len <= blksize && at == winbuf + winoff * blksize
      ensures StoreOk(StoreAt(winoff, len, at), log.accepted + {log.acked + 1 + winoff}, blksize)
    {
      StoreInside(winoff, blksize, len, winsize);
      assert blksize * (log.acked + winoff) == blksize * log.acked + winoff * blksize;
    }

    /** Take a block into the window. */
    method Accept(block: Word16, winoff: Word16, len: Word16, ghost at: int)
      requires Valid() && started && winoff < winsize && len <= blksize
      requires StoreOk(StoreAt(winoff, len, at), log.accepted + {log.acked + 1 + winoff}, blksize)
      modifies this`lastblock, this`lastsize, this`winsize, this`winbits, this`log, this`short
      ensures Valid() && Snap() == Stored(old(Snap()), block, winoff, len, at)
    {
      ghost var pre, first := Snap(), Fresh();
      LogAccepted(log, winbits, blksize, winoff, StoreAt(winoff, len, at));
      AcceptFields(block, winoff, len, at);
      AcceptKeepsPosition(pre, first, block, winoff, len, at);
    }

    /** The changes Accept makes. */
    method AcceptFields(block: Word16, winoff: Word16, len: Word16, ghost at: int)
      requires 1 <= winsize <= MAX_WINSIZE && winoff < winsize && SetBit(winbits, winoff) < 0x1_0000
      modifies this`lastblock, this`lastsize, this`winsize, this`winbits, this`log, this`short
      ensures Snap() == Stored(old(Snap()), block, winoff, len, at) && 1 <= winsize <= old(winsize)
    {
      ghost var t := StoreAt(winoff, len, at);
      NoteLast(block, winoff, len);
      log := Accepted(log, winoff, t);
      short := short || len < blksize;
      winbits := SetBit(winbits, winoff);
    }

    /** winbuf still counts the acknowledged blocks. */
    lemma AcceptKeepsPosition(pre: Snapshot, first: bool, block: Word16, winoff: Word16, len: Word16, at: int)
      requires started && blksize == pre.blksize && 1 <= winsize && len <= blksize && Snap() == Stored(pre, block, winoff, len, at)
      requires if first then pre.lastblock == 0 && pre.winstart == 1 && pre.winsize <= MAX_WINSIZE && pre.log.acked == 0 && pre.winbuf == 0 && !pre.short && !pre.cut
        else pre.lastsize <= pre.blksize && (!pre.short ==> pre.lastsize == pre.blksize && !pre.cut) && (!pre.cut ==> pre.winbuf == pre.blksize * pre.log.acked)
      ensures Position()
    {
      if first { assert (0 - 1) % 0x1_0000 == 0xffff; }
    }

    /**
     * The window test: acknowledge a complete window, and finish behind a short block. The size counts the short
     * block exactly if it is the one acknowledged last; otherwise the transfer ends before it.
     */
    method Complete() returns (st: Status)
      requires Valid() && started
      modifies this`winbits, this`winstart, this`winbuf, this`retries, this`log, this`cut
      ensures Valid() && Forward(old(log))
      ensures (Snap(), st) == Tested(old(Snap())) && (st.Finished? ==> old(winbits) == Mask(winsize) && log.acked == old(log).acked + winsize)
    {
      assert OpenAck(0);
      LogGrows(log, winbits, true, 0, StoreAt(0, 0, 0));
      FullWindow(winsize);
      if winbits == Shr(0xffff, 16 - winsize) {
        var ok := SendAck();
        if lastsize < blksize { return Finished(winbuf); }
      }
      st := Running;
    }

    /** The reported size: whole blocks, and the short one only if it is the block acknowledged last. */
    lemma ReportedSize(mid: Snapshot, st: Status)
      requires (Snap(), st) == Tested(mid) && st.Finished? && started && mid.started && 1 <= mid.winsize == winsize
      requires !mid.cut ==> mid.winbuf == mid.blksize * mid.log.acked
      ensures !mid.cut ==> st.size == SizeCounted()
    {
      MaskOnes(winsize);
      if !mid.cut { WholePlus(mid.blksize, mid.log.acked, winsize); }
    }

    /**
     * A DATA packet; `stored` tells whether its bytes went into the buffer, at offset `at`. If it is the last acknowledged
     * block and none of the window has come, the acknowledgement is repeated; any other block outside the window is ignored.
     */
    method OnData(block: Word16, len: Word16) returns (st: Status, stored: bool, at: int)
      requires Valid()
      modifies this
      ensures Valid() && Forward(old(log)) && DataTurns(old(Snap()), block, len, Snap(), st)
      ensures DataLaw(old(Snap()), block, len, Snap(), st)
      ensures block == old(log).acked % 0x1_0000 && old(winbits) == 0 ==> Repeats(old(log), old(retries), log, st)
      ensures st.Finished? ==> stored && lastsize < blksize && (!old(cut) ==> st.size == SizeCounted())
      ensures var winoff := (block - old(winstart)) % 0x1_0000;
        && (stored <==> winoff < old(WindowInForce()) && len <= old(BlockInForce()))
        && (stored ==> at == old(winbuf) + winoff * old(BlockInForce()))
    {
      ghost var pre := Snap();
      SnapConsistent();
      st, stored, at := Packet(block, len);
      DataLawful(pre, block, len, Snap(), st);
    }

    /** The window decides what becomes of the packet. */
    method Packet(block: Word16, len: Word16) returns (st: Status, stored: bool, at: int)
      requires Valid()
      modifies this
      ensures Valid() && Forward(old(log))
      ensures st.Finished? ==> stored && lastsize < blksize && (!old(cut) ==> st.size == SizeCounted())
      ensures DataTurns(old(Snap()), block, len, Snap(), st)
      ensures var winoff := (block - old(winstart)) % 0x1_0000;
        && (stored <==> winoff < old(WindowInForce()) && len <= old(BlockInForce()))
        && (stored ==> at == old(winbuf) + winoff * old(BlockInForce()))
    {
      ghost var pre := Snap();
      var winoff := (block - winstart) % 0x1_0000;
      stored, at := false, 0;
      LogGrows(log, winbits, true, 0, StoreAt(0, 0, 0));
      Begin(winoff);
      if winoff >= winsize {
        st := Outside(winoff);
        DataOutside(pre, block, len, Snap(), st);
      } else {
        st, stored, at := Inside(block, winoff, len);
        DataInside(pre, block, len, Snap(), st);
      }
    }

    /** A block inside the window: one that is too long ends the transfer. */
    method Inside(block: Word16, winoff: Word16, len: Word16) returns (st: Status, stored: bool, at: int)
      requires Valid() && started && winoff < winsize && winoff == (block - winstart) % 0x1_0000
      modifies this`lastblock, this`lastsize, this`winsize, this`short, this`winbits, this`winstart, this`winbuf, this`retries, this`log, this`cut
      ensures Valid() && Forward(old(log)) && (stored <==> len <= blksize) && (stored ==> at == old(winbuf) + winoff * blksize)
      ensures (Snap(), st) == Met(old(Snap()), block, winoff, len)
      ensures st.Finished? ==> stored && lastsize < blksize && (!old(cut) ==> st.size == SizeCounted())
    {
      LogGrows(log, winbits, true, 0, StoreAt(0, 0, 0));
      if len > blksize { return Failed, false, 0; }
      stored := true;
      st, at := StoreBlock(block, winoff, len);
    }

    /** A block outside the window: behind the last one of the previous window, the acknowledgement is repeated. */
    method Outside(winoff: Word16) returns (st: Status)
      requires Valid() && winoff >= winsize
      modifies this`winbits, this`winstart, this`winbuf, this`retries, this`log, this`cut
      ensures Valid() && Forward(old(log))
      ensures (Snap(), st) == Missed(old(Snap()), winoff)
    {
      assert OpenAck(0);
      LogGrows(log, winbits, true, 0, StoreAt(0, 0, 0));
      LogGrows(log, winbits, false, 0, StoreAt(0, 0, 0));
      st := Running;
      if winoff == 0xffff && winbits == 0 {
        var ok := SendAck();
        if !ok { st := Failed; }
      }
    }

    /** A block of the window: store it, take it into the window, and test the window. */
    method StoreBlock(block: Word16, winoff: Word16, len: Word16) returns (st: Status, at: int)
      requires Valid() && started && winoff < winsize && winoff == (block - winstart) % 0x1_0000 && len <= blksize
      modifies this`lastblock, this`lastsize, this`winsize, this`short, this`winbits, this`winstart, this`winbuf, this`retries, this`log, this`cut
      ensures Valid() && Forward(old(log)) && at == old(winbuf) + winoff * blksize && (Snap(), st) == Tested(Stored(old(Snap()), block, winoff, len, at))
      ensures st.Finished? ==> lastsize < blksize && (!old(cut) ==> st.size == SizeCounted())
    {
      at := winbuf + winoff * blksize;
      ghost var log0 := log;
      LogGrows(log, winbits, true, winoff, StoreAt(winoff, len, at));
      StoreIsOk(winoff, len, at);
      Accept(block, winoff, len, at);
      ghost var log1 := log;
      ghost var mid := Snap();
      st := Complete();
      ExtendsTrans(log0, log1, log);
      if st.Finished? { ReportedSize(mid, st); }
    }

    /** The acknowledged blocks, all whole except that the last one may be the remembered short block. */
    ghost function SizeCounted(): int
      reads this`blksize, this`lastblock, this`lastsize, this`log
    {
      if lastblock == log.acked % 0x1_0000 then blksize * (log.acked - 1) + lastsize else blksize * log.acked
    }

    /** One turn of the receive loop. */
    method Step(e: Event) returns (st: Status)
      requires Valid()
      modifies this
      ensures Valid() && Forward(old(log)) && Turns(old(Snap()), e, Snap(), st)
      ensures st.Finished? ==> lastsize < blksize && (!old(cut) ==> st.size == SizeCounted())
    {
      st := Handle(e);
      HistoryTicked(log, winbits, blksize);
      ghost var log1 := log;
      log := Ticked(log);
      assert Extends(log1, log);
      ExtendsTrans(old(log), log1, log);
    }

    method Handle(e: Event) returns (st: Status)
      requires Valid()
      modifies this
      ensures Valid() && Forward(old(log)) && Turns(old(Snap()), e, Snap().(log := Ticked(log)), st)
      ensures st.Finished? ==> lastsize < blksize && (!old(cut) ==> st.size == SizeCounted())
    {
      st := Running;
      LogGrows(log, winbits, true, 0, StoreAt(0, 0, 0));
      match e
      case Timeout => st := OnTimeout();
      case Error => st := OnError();
      case Oack(opts) => st := OnOack(opts);
      case Data(block, len) =>
        var stored, at;
        st, stored, at := OnData(block, len);
        DataIsTurn(old(Snap()), block, len, Snap(), st);
      case Stray =>
    }

    /** What the invariant says about everything that has happened. */
    lemma LogMeans()
      requires Valid()
      ensures AcksOk(log.acks, log.accepted, log.acked) && StoresOk(log.stores, log.accepted, blksize)
      ensures AcksBacked(log.acks, log.stores) && AcksBefore(log.acks, log.now)
    {
      assert OpenLog(0) && OpenHistory(0);
    }
  }

  /** The states of a run so far: each event but the last left the receiver running. */
  ghost predicate Replay(snaps: seq<Snapshot>, events: seq<Event>, st: Status) {
    && 1 <= |snaps| <= |events| + 1 && snaps[0] == Initial() && (|snaps| == 1 ==> st == Running)
    && forall i {:trigger snaps[i]} :: 0 <= i < |snaps| - 1 ==> Turns(snaps[i], events[i], snaps[i + 1], if i == |snaps| - 2 then st else Running)
  }

  /** The reference for a whole run: the state and status after the events, of which those behind the end do not count. */
  ghost function Play(events: seq<Event>): (Snapshot, Status) {
    if events == [] then (Initial(), Running)
    else
      var (s, st) := Play(events[..|events| - 1]);
      if st == Running then Turn(s, events[|events| - 1]) else (s, st)
  }

  lemma PlayOn(events: seq<Event>, e: Event)
    ensures Play(events + [e]) == if Play(events).1 == Running then Turn(Play(events).0, e) else Play(events)
  {
    assert (events + [e])[..|events|] == events;
  }

  /** The states of a run are those of the reference. */
  lemma {:induction false} ReplayIsPlay(snaps: seq<Snapshot>, events: seq<Event>, st: Status, i: nat)
    requires Replay(snaps, events, st) && i < |snaps|
    ensures Play(events[..i]) == (snaps[i], if i == |snaps| - 1 then st else Running)
  {
    if i > 0 {
      ReplayIsPlay(snaps, events, st, i - 1);
      assert events[..i] == events[..i - 1] + [events[i - 1]];
      PlayOn(events[..i - 1], events[i - 1]);
      assert Turns(snaps[i - 1], events[i - 1], snaps[i], if i - 1 == |snaps| - 2 then st else Running);
      assert OpenTurn(0);
    }
  }

  lemma ReplayExtends(snaps: seq<Snapshot>, events: seq<Event>, snap: Snapshot, st: Status)
    requires Replay(snaps, events, Running) && |snaps| <= |events| && Turns(snaps[|snaps| - 1], events[|snaps| - 1], snap, st)
    ensures Replay(snaps + [snap], events, st)
  {
    var snaps' := snaps + [snap];
    forall j {:trigger snaps'[j]} | 0 <= j < |snaps| ensures Turns(snaps'[j], events[j], snaps'[j + 1], if j == |snaps| - 1 then st else Running) {
      assert snaps'[j] == snaps[j];
    }
  }

  /** Every event of the run has the effect the laws give it. */
  ghost predicate Lawful(snaps: seq<Snapshot>, events: seq<Event>, st: Status) {
    && 1 <= |snaps| <= |events| + 1
    && forall i {:trigger snaps[i]} :: 0 <= i < |snaps| - 1 ==>
         Consistent(snaps[i]) && EventLaw(snaps[i], events[i], snaps[i + 1], if i == |snaps| - 2 then st else Running)
  }

  /** In any run, the last acknowledged block sent again is answered with one more acknowledgement, or the run ends at the retry limit. */
  lemma LastBlockAnswered(snaps: seq<Snapshot>, events: seq<Event>, st: Status, i: nat)
    requires Lawful(snaps, events, st) && i < |snaps| - 1 && events[i].Data?
    requires events[i].block == snaps[i].log.acked % 0x1_0000 && snaps[i].winbits == 0
    ensures var l, l' := snaps[i].log, snaps[i + 1].log;
      if snaps[i].retries >= 5 && (l.acked + 1) % 0x1_0000 != 0 then i == |snaps| - 2 && st == Failed && SameLog(l, l')
      else OneAck(l, l', l.acked) && (i < |snaps| - 2 || st == Running)
  {
    assert EventLaw(snaps[i], events[i], snaps[i + 1], if i == |snaps| - 2 then st else Running);
    LastBlock(snaps[i], events[i], snaps[i + 1], if i == |snaps| - 2 then st else Running);
  }

  lemma LastBlock(pre: Snapshot, e: Event, post: Snapshot, st: Status)
    requires Consistent(pre) && e.Data? && EventLaw(pre, e, post, st) && e.block == pre.log.acked % 0x1_0000 && pre.winbits == 0
    ensures AckLaw(pre, 0, post, st)
  {
    assert OpenLaw(0);
    PlaceNamed(pre, e.block);
  }

  /** In any run, a block outside the window that is not that one changes nothing. */
  lemma OthersIgnored(snaps: seq<Snapshot>, events: seq<Event>, st: Status, i: nat)
    requires Lawful(snaps, events, st) && i < |snaps| - 1 && events[i].Data?
    requires forall b: nat :: snaps[i].log.acked < b <= snaps[i].log.acked + snaps[i].winsize ==> b % 0x1_0000 != events[i].block
    requires events[i].block != snaps[i].log.acked % 0x1_0000 || snaps[i].winbits != 0
    ensures Still(snaps[i], snaps[i + 1]) && (i < |snaps| - 2 || st == Running)
  {
    assert OpenLaw(0);
    assert Outside(snaps[i], events[i].block);
  }

  lemma LawfulExtends(snaps: seq<Snapshot>, events: seq<Event>, snap: Snapshot, st: Status)
    requires Lawful(snaps, events, Running) && |snaps| <= |events| && Consistent(snaps[|snaps| - 1])
    requires EventLaw(snaps[|snaps| - 1], events[|snaps| - 1], snap, st)
    ensures Lawful(snaps + [snap], events, st)
  {
    var snaps' := snaps + [snap];
    forall j {:trigger snaps'[j]} | 0 <= j < |snaps| ensures Consistent(snaps'[j]) && EventLaw(snaps'[j], events[j], snaps'[j + 1], if j == |snaps| - 1 then st else Running) {
      assert snaps'[j] == snaps[j];
    }
  }

  /** Every stored block came with its event, which is one of the first n. */
  ghost predicate StoresFrom(stores: seq<Store>, events: seq<Event>, n: nat) {
    n <= |events| && forall j {:trigger stores[j]} :: 0 <= j < |stores| ==>
      stores[j].ev < n && stores[j].len < 0x1_0000 && events[stores[j].ev] == Data(stores[j].block % 0x1_0000, stores[j].len)
  }

  /** The number in the packet is that of the block at its place in the window. */
  lemma BlockNumber(n: nat, block: Word16)
    ensures (n + (block - n % 0x1_0000) % 0x1_0000) % 0x1_0000 == block
  {
    var r := n % 0x1_0000;
    var o := (block - r) % 0x1_0000;
    assert o == if block >= r then block - r else block - r + 0x1_0000;
    assert n + o == n / 0x1_0000 * 0x1_0000 + (r + o);
    SameRemainder(r + o, n / 0x1_0000);
  }

  /** What a DATA packet does to the stores. */
  lemma DataStores(pre: Snapshot, block: Word16, len: Word16)
    requires pre.winstart == (pre.log.acked + 1) % 0x1_0000
    ensures var log := DataResult(pre, block, len).0.log;
      log.now == pre.log.now && (log.stores == pre.log.stores || exists t: Store :: log.stores == pre.log.stores + [t] && t.block % 0x1_0000 == block && t.len == len && t.ev == pre.log.now)
  {
    var winoff := (block - pre.winstart) % 0x1_0000;
    if winoff >= pre.winsize {
      AckStoresNothing(pre);
    } else {
      BlockNumber(pre.log.acked + 1, block);
      MetStores(Begun(pre), block, winoff, len);
    }
  }

  lemma MetStores(pre: Snapshot, block: Word16, winoff: nat, len: Word16)
    requires (pre.log.acked + 1 + winoff) % 0x1_0000 == block
    ensures var log := Met(pre, block, winoff, len).0.log;
      log.now == pre.log.now && (log.stores == pre.log.stores || exists t: Store :: log.stores == pre.log.stores + [t] && t.block % 0x1_0000 == block && t.len == len && t.ev == pre.log.now)
  {
    if len <= pre.blksize {
      var mid := Stored(pre, block, winoff, len, pre.winbuf + winoff * pre.blksize);
      TestStoresNothing(mid);
      assert mid.log.stores == pre.log.stores + [mid.log.stores[|pre.log.stores|]];
    }
  }

  lemma AckStoresNothing(pre: Snapshot)
    ensures var log := AckResult(pre).0.log; log.stores == pre.log.stores && log.now == pre.log.now
  {
  }

  lemma TestStoresNothing(mid: Snapshot)
    ensures var log := Tested(mid).0.log; log.stores == mid.log.stores && log.now == mid.log.now
  {
  }

  /** Nothing but a DATA packet is stored. */
  lemma OthersStoreNothing(pre: Snapshot, e: Event)
    requires !e.Data?
    ensures var log := Turn(pre, e).0.log; log.stores == pre.log.stores && log.now == pre.log.now + 1
  {
    match e
    case Timeout =>
    case Error =>
    case Oack(opts) => OackStoresNothing(pre, opts);
    case Stray =>
  }

  lemma OackStoresNothing(pre: Snapshot, opts: seq<Opt>)
    ensures var log := OackResult(pre, opts).0.log; log.stores == pre.log.stores && log.now == pre.log.now
  {
  }

  /** A turn stores nothing, or the block of its own packet. */
  lemma TurnStores(pre: Snapshot, events: seq<Event>, post: Snapshot, st: Status)
    requires pre.winstart == (pre.log.acked + 1) % 0x1_0000 && pre.log.now < |events| && StoresFrom(pre.log.stores, events, pre.log.now)
    requires Turns(pre, events[pre.log.now], post, st)
    ensures StoresFrom(post.log.stores, events, pre.log.now + 1) && post.log.now == pre.log.now + 1
  {
    var e := events[pre.log.now];
    if e.Data? { DataTurn(pre, e, post, st); } else { OtherTurn(pre, e, post, st); }
    if post.log.stores != pre.log.stores {
      var t: Store :| post.log.stores == pre.log.stores + [t] && e.Data? && t.block % 0x1_0000 == e.block && t.len == e.len && t.ev == pre.log.now;
    }
  }

  lemma DataTurn(pre: Snapshot, e: Event, post: Snapshot, st: Status)
    requires pre.winstart == (pre.log.acked + 1) % 0x1_0000 && e.Data? && Turns(pre, e, post, st)
    ensures post.log.now == pre.log.now + 1
    ensures post.log.stores == pre.log.stores || exists t: Store :: post.log.stores == pre.log.stores + [t] && t.block % 0x1_0000 == e.block && t.len == e.len && t.ev == pre.log.now
  {
    assert OpenTurn(0);
    DataStores(pre, e.block, e.len);
  }

  lemma OtherTurn(pre: Snapshot, e: Event, post: Snapshot, st: Status)
    requires !e.Data? && Turns(pre, e, post, st)
    ensures post.log.stores == pre.log.stores && post.log.now == pre.log.now + 1
  {
    assert OpenTurn(0);
    OthersStoreNothing(pre, e);
  }

  /** One event of a run. */
  method NextEvent(c: Client, events: seq<Event>, i: nat, ghost snaps: seq<Snapshot>) returns (st: Status)
    requires c.Valid() && i < |events| && |snaps| == i + 1 && c.log.now == i
    requires Replay(snaps, events, Running) && c.Snap() == snaps[i] && StoresFrom(c.log.stores, events, i) && Lawful(snaps, events, Running)
    modifies c
    ensures c.Valid() && c.log.now == i + 1 && Replay(snaps + [c.Snap()], events, st) && StoresFrom(c.log.stores, events, i + 1)
    ensures Lawful(snaps + [c.Snap()], events, st)
    ensures st.Finished? ==> c.lastsize < c.blksize && (!snaps[i].cut ==> st.size == c.SizeCounted())
  {
    ghost var pre := c.Snap();
    c.SnapConsistent();
    st := c.Step(events[i]);
    TurnObeys(pre, events[i], c.Snap(), st);
    LawfulExtends(snaps, events, c.Snap(), st);
    TurnStores(pre, events, c.Snap(), st);
    ReplayExtends(snaps, events, c.Snap(), st);
  }

  /**
   * Every run, whatever is lost, duplicated or reordered. The receiver goes through the states of the reference, and
   * every event has the effect the laws give it: no block outside the window changes anything, but the last acknowledged
   * one, sent again before any block of the window, is answered with one acknowledgement. Every
   * stored block came with its event, and every store lay in the window in force. Every acknowledgement named a block up
   * to which all blocks had been stored by then, and the acknowledged positions never went back. While winbuf had not
   * counted a short block it was the block size times the number of acknowledged blocks, and so is the reported size.
   */
  method Receive(events: seq<Event>) returns (c: Client, st: Status, ghost snaps: seq<Snapshot>)
    ensures Lawful(snaps, events, st)
    ensures fresh(c) && c.Valid() && Replay(snaps, events, st) && c.Snap() == snaps[|snaps| - 1] && (st == Running ==> |snaps| == |events| + 1)
    ensures StoresFrom(c.log.stores, events, |snaps| - 1) && StoresOk(c.log.stores, c.log.accepted, c.blksize)
    ensures AcksOk(c.log.acks, c.log.accepted, c.log.acked) && AcksBacked(c.log.acks, c.log.stores) && AcksBefore(c.log.acks, |snaps| - 1)
    ensures !c.cut ==> c.winbuf == c.blksize * c.log.acked
    ensures !c.short ==> !c.cut
    ensures st.Finished? ==> |snaps| > 1 && c.lastsize < c.blksize && (!snaps[|snaps| - 2].cut ==> st.size == c.SizeCounted())
  {
    c := new Client();
    snaps := [c.Snap()];
    st := Running;
    var i := 0;
    while i < |events| && st == Running
      invariant c.Valid() && fresh(c) && 0 <= i <= |events| && |snaps| == i + 1 && c.log.now == i
      invariant Lawful(snaps, events, st) && Replay(snaps, events, st) && c.Snap() == snaps[i] && StoresFrom(c.log.stores, events, i)
      invariant st.Finished? ==> i > 0 && c.lastsize < c.blksize && (!snaps[i - 1].cut ==> st.size == c.SizeCounted())
      decreases |events| - i
    {
      st := NextEvent(c, events, i, snaps);
      snaps := snaps + [c.Snap()];
      i := i + 1;
    }
    c.LogMeans();
  }
}
