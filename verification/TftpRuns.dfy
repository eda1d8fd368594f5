/** Runs of the TFTP receiver that show where it falls short, and when a window it has received completes. */
module TftpRuns {
  import opened Machine
  import opened Bits
  import opened Tftp

  /** An option acknowledgement with a window size of one digit. */
  lemma SmallWindow(digit: char, w: nat)
    requires '1' <= digit <= '9' && w == digit as int - '0' as int
    ensures var opts := [Opt(WindowSize, [digit])];
      && (forall i {:trigger opts[i]} :: 0 <= i < |opts| ==> GoodOption(opts[i]))
      && LastValue(opts, WindowSize, 1) == w && LastValue(opts, BlkSize, 512) == 512
  {
    var val := [digit];
    assert val[..0] == [];
    assert Decimal(val) == w;
    var opts := [Opt(WindowSize, val)];
    assert opts[..0] == [];
  }

  /** A receiver of 512-byte blocks: where winbuf is, how many blocks are acknowledged, and the window. */
  ghost predicate At(s: Snapshot, winbuf: int, acked: nat, w: Window) {
    && s.pastrrq && s.blksize == 512 && s.winbuf == winbuf && s.log.acked == acked && s.winstart == (acked + 1) % 0x1_0000
    && Window(s.winsize, s.winbits, s.lastblock, s.lastsize) == w
  }

  ghost predicate OpenPlay(k: int) { true }

  /** The events lead to state s and not to an end. */
  ghost predicate Leads(events: seq<Event>, s: Snapshot) {
    forall k {:trigger OpenPlay(k)} :: OpenPlay(k) ==> Play(events) == (s, Running)
  }

  /** One event more. */
  lemma LeadsOn(events: seq<Event>, s: Snapshot, e: Event)
    requires Leads(events, s)
    ensures Play(events + [e]) == Turn(s, e)
    ensures Turn(s, e).1 == Running ==> Leads(events + [e], Turn(s, e).0)
  {
    assert OpenPlay(0);
    PlayOn(events, e);
  }

  /** The server settles on w blocks of 512 bytes. */
  function Settle(digit: char): Event { Oack([Opt(WindowSize, [digit])]) }

  lemma Negotiated(digit: char, w: nat) returns (s: Snapshot)
    requires '1' <= digit <= '9' && w == digit as int - '0' as int
    ensures Leads([Settle(digit)], s) && At(s, 0, 0, Window(w, 0, 0, 0)) && s.log.accepted == {}
  {
    SmallWindow(digit, w);
    LeadsOn([], Initial(), Settle(digit));
    assert [] + [Settle(digit)] == [Settle(digit)];
    s := Turn(Initial(), Settle(digit)).0;
  }

  /** Where winbuf is after k acknowledged blocks. */
  function Next(winbuf: int, acked: nat, w: Window, k: nat): int {
    winbuf + (k - 1) * 512 + if (acked + k) % 0x1_0000 == w.lastblock then w.lastsize else 512
  }

  /** Block number `block` is at place winoff of the window behind `acked` blocks, and turns w into w'. */
  ghost predicate Fits(acked: nat, block: Word16, len: Word16, winoff: nat, w: Window, w': Window) {
    forall k {:trigger OpenFits(k)} :: OpenFits(k) ==>
      var start := (acked + 1) % 0x1_0000;
      len <= 512 && winoff == (block - start) % 0x1_0000 < w.size && w' == Taken(w, start, 512, block, winoff, len)
  }

  ghost predicate OpenFits(k: int) { true }

  /** A block of the window that leaves it incomplete. */
  lemma Feed(events: seq<Event>, s: Snapshot, block: Word16, len: Word16, winbuf: int, acked: nat, winoff: nat, w: Window, w': Window) returns (r: Snapshot)
    requires Leads(events, s) && At(s, winbuf, acked, w) && Fits(acked, block, len, winoff, w, w') && w'.bits != Mask(w'.size)
    ensures Leads(events + [Data(block, len)], r) && At(r, winbuf, acked, w') && r.log.accepted == s.log.accepted + {acked + 1 + winoff}
  {
    LeadsOn(events, s, Data(block, len));
    FeedTurn(s, block, len, winbuf, acked, winoff, w, w');
    r := Turn(s, Data(block, len)).0;
  }

  lemma FeedTurn(s: Snapshot, block: Word16, len: Word16, winbuf: int, acked: nat, winoff: nat, w: Window, w': Window)
    requires At(s, winbuf, acked, w) && Fits(acked, block, len, winoff, w, w') && w'.bits != Mask(w'.size)
    ensures var (r, st) := Turn(s, Data(block, len)); st == Running && At(r, winbuf, acked, w') && r.log.accepted == s.log.accepted + {acked + 1 + winoff}
  {
    StoredIn(s, block, len, winbuf, acked, winoff, w, w');
  }

  /** A block that completes the window. */
  lemma FeedLast(events: seq<Event>, s: Snapshot, block: Word16, len: Word16, winbuf: int, acked: nat, winoff: nat, w: Window, w': Window) returns (r: Snapshot, st: Status)
    requires Leads(events, s) && At(s, winbuf, acked, w) && Fits(acked, block, len, winoff, w, w') && w'.bits == Mask(w'.size)
    ensures Play(events + [Data(block, len)]) == (r, st) && (st == Running ==> Leads(events + [Data(block, len)], r))
    ensures At(r, Next(winbuf, acked, w', w'.size), acked + w'.size, w'.(bits := 0)) && r.log.accepted == s.log.accepted + {acked + 1 + winoff}
    ensures st == if w'.lastsize < 512 then Finished(r.winbuf) else Running
  {
    LeadsOn(events, s, Data(block, len));
    LastTurn(s, block, len, winbuf, acked, winoff, w, w');
    r, st := Turn(s, Data(block, len)).0, Turn(s, Data(block, len)).1;
  }

  lemma LastTurn(s: Snapshot, block: Word16, len: Word16, winbuf: int, acked: nat, winoff: nat, w: Window, w': Window)
    requires At(s, winbuf, acked, w) && Fits(acked, block, len, winoff, w, w') && w'.bits == Mask(w'.size)
    ensures var (r, st) := Turn(s, Data(block, len));
      && At(r, Next(winbuf, acked, w', w'.size), acked + w'.size, w'.(bits := 0)) && r.log.accepted == s.log.accepted + {acked + 1 + winoff}
      && st == if w'.lastsize < 512 then Finished(r.winbuf) else Running
  {
    var mid := Stored(Begun(s), block, winoff, len, s.winbuf + winoff * s.blksize);
    StoredIn(s, block, len, winbuf, acked, winoff, w, w');
    MaskOnes(w'.size);
    AdvancedBy(mid, winbuf, acked, w');
  }

  /** A block of the window is stored. */
  lemma StoredIn(s: Snapshot, block: Word16, len: Word16, winbuf: int, acked: nat, winoff: nat, w: Window, w': Window)
    requires At(s, winbuf, acked, w) && Fits(acked, block, len, winoff, w, w')
    ensures var mid := Stored(Begun(s), block, winoff, len, s.winbuf + winoff * s.blksize);
      && At(mid, winbuf, acked, w') && mid.log.accepted == s.log.accepted + {acked + 1 + winoff}
      && DataResult(s, block, len) == Tested(mid)
  {
    assert OpenFits(0);
  }

  /** The window moves over the blocks it begins with. */
  lemma AdvancedBy(s: Snapshot, winbuf: int, acked: nat, w: Window)
    requires At(s, winbuf, acked, w)
    ensures At(Advanced(s), Next(winbuf, acked, w, Ones(w.bits)), acked + Ones(w.bits), w.(bits := 0)) && Advanced(s).log.accepted == s.log.accepted
  {
  }

  /** A timeout that moves the window: it begins with received blocks, or starts at block 0. */
  lemma Wait(events: seq<Event>, s: Snapshot, winbuf: int, acked: nat, w: Window) returns (r: Snapshot)
    requires Leads(events, s) && At(s, winbuf, acked, w) && ((acked + 1) % 0x1_0000 == 0 || Ones(w.bits) > 0)
    ensures Leads(events + [Timeout], r) && At(r, Next(winbuf, acked, w, Ones(w.bits)), acked + Ones(w.bits), w.(bits := 0))
    ensures r.log.accepted == s.log.accepted && r.retries == 0
  {
    LeadsOn(events, s, Timeout);
    WaitTurn(s, winbuf, acked, w);
    r := Turn(s, Timeout).0;
  }

  lemma WaitTurn(s: Snapshot, winbuf: int, acked: nat, w: Window)
    requires At(s, winbuf, acked, w) && ((acked + 1) % 0x1_0000 == 0 || Ones(w.bits) > 0)
    ensures var (r, st) := Turn(s, Timeout);
      && st == Running && At(r, Next(winbuf, acked, w, Ones(w.bits)), acked + Ones(w.bits), w.(bits := 0))
      && r.log.accepted == s.log.accepted && r.retries == 0
  {
  }

  /** n timeouts. */
  function Timeouts(n: nat): seq<Event> { seq(n, _ => Timeout) }

  /** Timeouts that move nothing are counted, and the one behind the limit ends the transfer. */
  lemma {:induction false} Idle(events: seq<Event>, s: Snapshot, n: nat) returns (r: Snapshot)
    requires Leads(events, s) && s.pastrrq && s.winstart != 0 && Ones(s.winbits) == 0 && s.retries == 0 && n <= MAX_RETRIES
    ensures Leads(events + Timeouts(n), r) && r.pastrrq && r.winstart != 0 && Ones(r.winbits) == 0 && r.retries == n && r.log.accepted == s.log.accepted
    ensures n == MAX_RETRIES ==> Play(events + Timeouts(n) + [Timeout]).1 == Failed
  {
    if n > 0 {
      var q := Idle(events, s, n - 1);
      assert events + Timeouts(n) == events + Timeouts(n - 1) + [Timeout];
      LeadsOn(events + Timeouts(n - 1), q, Timeout);
      r := Turn(q, Timeout).0;
    } else {
      assert events + Timeouts(0) == events;
      r := s;
    }
    LeadsOn(events + Timeouts(n), r, Timeout);
  }

  /**
   * Window size 4: block 1 arrives, then the short block 4; after a timeout acknowledged block 1, block 2 arrives. The
   * transfer ends with two whole blocks although block 3 was never received and block 4 is not counted.
   */
  lemma EarlyFinish()
    ensures var (s, st) := Play([Settle('4'), Data(1, 512), Data(4, 100), Timeout, Data(2, 512)]);
      st == Finished(1024) && s.log.acked == 2 && 3 !in s.log.accepted && 4 in s.log.accepted
  {
    EarlyNumbers();
    var e := [Settle('4')];
    var s0 := Negotiated('4', 4);
    var s1 := Feed(e, s0, 1, 512, 0, 0, 0, Window(4, 0, 0, 0), Window(4, 1, 1, 512));
    var s2 := Feed(e + [Data(1, 512)], s1, 4, 100, 0, 0, 3, Window(4, 1, 1, 512), Window(4, 9, 4, 100));
    var s3 := Wait(e + [Data(1, 512)] + [Data(4, 100)], s2, 0, 0, Window(4, 9, 4, 100));
    var s4, st := FeedLast(e + [Data(1, 512)] + [Data(4, 100)] + [Timeout], s3, 2, 512, 512, 1, 0, Window(4, 0, 4, 100), Window(1, 1, 4, 100));
    assert e + [Data(1, 512)] + [Data(4, 100)] + [Timeout] + [Data(2, 512)] == [Settle('4'), Data(1, 512), Data(4, 100), Timeout, Data(2, 512)];
  }

  lemma EarlyNumbers()
    ensures Fits(0, 1, 512, 0, Window(4, 0, 0, 0), Window(4, 1, 1, 512))
    ensures Fits(0, 4, 100, 3, Window(4, 1, 1, 512), Window(4, 9, 4, 100))
    ensures Fits(1, 2, 512, 0, Window(4, 0, 4, 100), Window(1, 1, 4, 100))
    ensures Mask(4) == 15 && Mask(1) == 1 && Ones(9) == 1
  {
    Numbers1();
    Numbers2();
    Numbers3();
    assert Mask(2) == 3;
  }

  lemma Numbers1()
    ensures Fits(0, 1, 512, 0, Window(4, 0, 0, 0), Window(4, 1, 1, 512))
  {
  }

  lemma Numbers2()
    ensures Fits(0, 4, 100, 3, Window(4, 1, 1, 512), Window(4, 9, 4, 100))
  {
    assert SetBit(0, 2) == 4;
  }

  lemma Numbers3()
    ensures Fits(1, 2, 512, 0, Window(4, 0, 4, 100), Window(1, 1, 4, 100))
  {
  }

  lemma {:induction false} MaskInjective(m: nat, n: nat)
    requires Mask(m) == Mask(n)
    ensures m == n
  {
    MaskOnes(m);
    MaskOnes(n);
  }

  /**
   * A window whose first n blocks are all there, and none beyond: it completes if and only if n is its size, or, once a
   * short block is remembered, if and only if the block that came last is the last one of the n.
   */
  lemma CompletesWhen(pre: Snapshot, block: Word16, len: Word16, n: nat)
    requires var winoff := (block - pre.winstart) % 0x1_0000; winoff < pre.winsize && len <= pre.blksize
    requires var mid := Stored(Begun(pre), block, (block - pre.winstart) % 0x1_0000, len, pre.winbuf + (block - pre.winstart) % 0x1_0000 * pre.blksize);
      mid.winbits == Mask(n)
    ensures var winoff := (block - pre.winstart) % 0x1_0000;
      && var mid := Stored(Begun(pre), block, winoff, len, pre.winbuf + winoff * pre.blksize);
      && var complete := if mid.lastsize < pre.blksize then winoff == n - 1 else n == pre.winsize;
      && DataResult(pre, block, len) == if !complete then (mid, Running) else (Advanced(mid), if mid.lastsize < pre.blksize then Finished(Advanced(mid).winbuf) else Running)
  {
    var winoff := (block - pre.winstart) % 0x1_0000;
    var mid := Stored(Begun(pre), block, winoff, len, pre.winbuf + winoff * pre.blksize);
    if Mask(n) == Mask(mid.winsize) { MaskInjective(n, mid.winsize); }
  }

  /** Window size 4: blocks 1, 2, the short block 4, and then block 3. */
  function ShortBeforeLast(): seq<Event> { [Settle('4'), Data(1, 512), Data(2, 512), Data(4, 100), Data(3, 512)] }

  /**
   * All four blocks have been received, yet the window does not complete; the next timeout acknowledges all of them, so
   * that the server is done, and the transfer fails at the retry limit.
   */
  lemma NeverCompletes()
    ensures var events := ShortBeforeLast();
      && Play(events).1 == Running && Play(events).0.log.accepted == {1, 2, 3, 4} && Play(events).0.log.acked == 0
      && Play(events + [Timeout]).1 == Running && Play(events + [Timeout]).0.log.acked == 4
      && (forall n :: 0 <= n <= MAX_RETRIES ==> Play(events + [Timeout] + Timeouts(n)).1 == Running)
      && Play(events + [Timeout] + Timeouts(MAX_RETRIES) + [Timeout]).1 == Failed
  {
    var events := ShortBeforeLast();
    var s := AllFour();
    var r := Wait(events, s, 0, 0, Window(3, 15, 4, 100));
    Retries(events + [Timeout], r);
    assert OpenPlay(0);
  }

  lemma Retries(events: seq<Event>, s: Snapshot)
    requires Leads(events, s) && s.pastrrq && s.winstart != 0 && s.winbits == 0 && s.retries == 0
    ensures forall n :: 0 <= n <= MAX_RETRIES ==> Play(events + Timeouts(n)).1 == Running
    ensures Play(events + Timeouts(MAX_RETRIES) + [Timeout]).1 == Failed
  {
    assert Ones(0) == 0;
    forall n | 0 <= n <= MAX_RETRIES ensures Play(events + Timeouts(n)).1 == Running {
      var r := Idle(events, s, n);
      assert OpenPlay(0);
    }
    var r := Idle(events, s, MAX_RETRIES);
  }

  lemma AllFour() returns (s: Snapshot)
    ensures Leads(ShortBeforeLast(), s) && At(s, 0, 0, Window(3, 15, 4, 100)) && s.log.accepted == {1, 2, 3, 4} && Ones(15) == 4
  {
    AllFourNumbers();
    var e := [Settle('4')];
    var s0 := Negotiated('4', 4);
    var s1 := Feed(e, s0, 1, 512, 0, 0, 0, Window(4, 0, 0, 0), Window(4, 1, 1, 512));
    var s2 := Feed(e + [Data(1, 512)], s1, 2, 512, 0, 0, 1, Window(4, 1, 1, 512), Window(4, 3, 2, 512));
    var s3 := Feed(e + [Data(1, 512)] + [Data(2, 512)], s2, 4, 100, 0, 0, 3, Window(4, 3, 2, 512), Window(4, 11, 4, 100));
    s := Feed(e + [Data(1, 512)] + [Data(2, 512)] + [Data(4, 100)], s3, 3, 512, 0, 0, 2, Window(4, 11, 4, 100), Window(3, 15, 4, 100));
    assert e + [Data(1, 512)] + [Data(2, 512)] + [Data(4, 100)] + [Data(3, 512)] == ShortBeforeLast();
  }

  lemma AllFourNumbers()
    ensures Fits(0, 1, 512, 0, Window(4, 0, 0, 0), Window(4, 1, 1, 512))
    ensures Fits(0, 2, 512, 1, Window(4, 1, 1, 512), Window(4, 3, 2, 512))
    ensures Fits(0, 4, 100, 3, Window(4, 3, 2, 512), Window(4, 11, 4, 100))
    ensures Fits(0, 3, 512, 2, Window(4, 11, 4, 100), Window(3, 15, 4, 100))
    ensures Mask(4) == 15 && Mask(3) == 7 && Ones(15) == 4
  {
    Numbers1();
    Numbers4();
    Numbers5();
    Numbers6();
    assert Mask(2) == 3;
    assert Ones(3) == 2;
  }

  lemma Numbers4()
    ensures Fits(0, 2, 512, 1, Window(4, 1, 1, 512), Window(4, 3, 2, 512))
  {
    assert SetBit(1, 1) == 3;
  }

  lemma Numbers5()
    ensures Fits(0, 4, 100, 3, Window(4, 3, 2, 512), Window(4, 11, 4, 100))
  {
    assert SetBit(1, 2) == 5;
  }

  lemma Numbers6()
    ensures Fits(0, 3, 512, 2, Window(4, 11, 4, 100), Window(3, 15, 4, 100))
  {
    assert SetBit(5, 1) == 7;
  }

  /** Window size 2 and n whole blocks. */
  function Blocks(n: nat): seq<Event> { [Settle('2')] + seq(n, k requires 0 <= k < n => Data((k + 1) % 0x1_0000, 512)) }

  lemma NextBlock(n: nat)
    requires n < 0xffff
    ensures Blocks(n) + [Data(n + 1, 512)] == Blocks(n + 1)
  {
  }

  lemma {:induction false} AfterPairs(i: nat) returns (s: Snapshot)
    requires i <= 0x7fff
    ensures Leads(Blocks(2 * i), s) && At(s, 1024 * i, 2 * i, Window(2, 0, 2 * i, if i == 0 then 0 else 512))
  {
    if i == 0 {
      s := Negotiated('2', 2);
      assert Blocks(0) == [Settle('2')];
    } else {
      var j, size := i - 1, if i == 1 then 0 else 512;
      var s0 := AfterPairs(j);
      NextBlock(2 * j);
      NextBlock(2 * j + 1);
      s := OnePair(Blocks(2 * j), s0, j, size);
    }
  }

  /** Two whole blocks fill the window. */
  lemma OnePair(events: seq<Event>, s: Snapshot, j: nat, size: nat) returns (r: Snapshot)
    requires j < 0x7fff && Leads(events, s) && At(s, 1024 * j, 2 * j, Window(2, 0, 2 * j, size))
    ensures Leads(events + [Data(2 * j + 1, 512)] + [Data(2 * j + 2, 512)], r) && At(r, 1024 * j + 1024, 2 * j + 2, Window(2, 0, 2 * j + 2, 512))
  {
    PairNumbers(j, size);
    WrapNumbers();
    var s1 := Feed(events, s, 2 * j + 1, 512, 1024 * j, 2 * j, 0, Window(2, 0, 2 * j, size), Window(2, 1, 2 * j + 1, 512));
    var st;
    r, st := FeedLast(events + [Data(2 * j + 1, 512)], s1, 2 * j + 2, 512, 1024 * j, 2 * j, 1, Window(2, 1, 2 * j + 1, 512), Window(2, 3, 2 * j + 2, 512));
  }

  /** The last block before block 0 arrives alone and is acknowledged after a timeout: the window starts at block 0. */
  function ToBlockZero(): seq<Event> { Blocks(0xffff) + [Timeout] }

  lemma AtBlockZero() returns (s: Snapshot)
    ensures Leads(ToBlockZero(), s) && At(s, 512 * 0xffff, 0xffff, Window(2, 0, 0xffff, 512))
  {
    var i := 0x7fff;
    var s0 := AfterPairs(i);
    NextBlock(2 * i);
    s := CrossOver(Blocks(2 * i), s0, i);
  }

  lemma CrossOver(events: seq<Event>, s: Snapshot, i: nat) returns (r: Snapshot)
    requires i == 0x7fff && Leads(events, s) && At(s, 1024 * i, 2 * i, Window(2, 0, 2 * i, 512))
    ensures Leads(events + [Data(2 * i + 1, 512)] + [Timeout], r) && At(r, 1024 * i + 512, 2 * i + 1, Window(2, 0, 2 * i + 1, 512))
  {
    PairNumbers(i, 512);
    WrapNumbers();
    var s1 := Feed(events, s, 2 * i + 1, 512, 1024 * i, 2 * i, 0, Window(2, 0, 2 * i, 512), Window(2, 1, 2 * i + 1, 512));
    r := Wait(events + [Data(2 * i + 1, 512)], s1, 1024 * i, 2 * i, Window(2, 1, 2 * i + 1, 512));
  }

  /** In a window that starts at block 0, block 65537 arrives before block 65536; n + 1 timeouts follow. */
  function Forgotten(n: nat): seq<Event> { ToBlockZero() + [Data(1, 512)] + [Timeout] + Timeouts(n) }

  /** The first timeout forgets the block; all are taken for progress, so the retry limit never applies. */
  lemma EndlessRetries(n: nat)
    ensures var (s, st) := Play(Forgotten(n));
      && st == Running && s.retries == 0 && s.winstart == 0 && s.winbits == 0 && s.log.acked == 0xffff && 0x1_0001 in s.log.accepted
  {
    var s := StillWaiting(n);
    assert OpenPlay(0);
  }

  lemma {:induction false} StillWaiting(n: nat) returns (s: Snapshot)
    ensures Leads(Forgotten(n), s) && At(s, 512 * 0xffff, 0xffff, Window(2, 0, 1, 512)) && 0x1_0001 in s.log.accepted && s.retries == 0
  {
    WrapNumbers();
    if n == 0 {
      var s0 := AtBlockZero();
      var s1 := Feed(ToBlockZero(), s0, 1, 512, 512 * 0xffff, 0xffff, 1, Window(2, 0, 0xffff, 512), Window(2, 2, 1, 512));
      s := Wait(ToBlockZero() + [Data(1, 512)], s1, 512 * 0xffff, 0xffff, Window(2, 2, 1, 512));
      assert Forgotten(0) == ToBlockZero() + [Data(1, 512)] + [Timeout];
    } else {
      var s0 := StillWaiting(n - 1);
      s := Wait(Forgotten(n - 1), s0, 512 * 0xffff, 0xffff, Window(2, 0, 1, 512));
      assert Forgotten(n - 1) + [Timeout] == Forgotten(n);
    }
  }

  lemma PairNumbers(i: nat, size: nat)
    requires i <= 0x7fff
    ensures Fits(2 * i, 2 * i + 1, 512, 0, Window(2, 0, 2 * i, size), Window(2, 1, 2 * i + 1, 512))
    ensures i < 0x7fff ==> Fits(2 * i, 2 * i + 2, 512, 1, Window(2, 1, 2 * i + 1, 512), Window(2, 3, 2 * i + 2, 512))
  {
    assert (2 * i - (2 * i + 1)) % 0x1_0000 == 0xffff;
    assert SetBit(1, 1) == 3;
  }

  lemma WrapNumbers()
    ensures Fits(0xffff, 1, 512, 1, Window(2, 0, 0xffff, 512), Window(2, 2, 1, 512))
    ensures Mask(2) == 3 && Ones(1) == 1 && Ones(2) == 0 && Ones(0) == 0
  {
    assert SetBit(0, 1) == 2;
  }
}
