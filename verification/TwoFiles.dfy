/** Two files open on one volume: what is done with one the other does not notice. */
module TwoFiles {
  import opened Machine
  import opened Geometry
  import opened Chains
  import opened FileView
  import opened DataArea
  import opened Volume
  import opened File
  import FileRuns

  /** The given chains and x, unless that is empty. */
  ghost function With(x: Chain, others: set<Chain>): set<Chain> { if x == [] then others else others + {x} }

  /** Two files on one volume that know of each other; `rest` are the chains of everything else. */
  ghost predicate Beside(a: Fil, b: Fil, rest: set<Chain>)
    reads a, b
  {
    && a != b && a.fs == b.fs && a.buf != b.buf && a.exact == b.exact
    && a.others == With(b.chain, rest) && b.others == With(a.chain, rest)
    && a.watched == b.secs && b.watched == a.secs
  }

  /** The part of a file's invariant that speaks of the file alone. */
  ghost predicate Shape(f: Fil)
    reads f
  {
    && f.objsize == |f.content| <= 512 * |f.secs| && 1 <= f.fs.g.csize <= 128 && f.fptr <= f.objsize
    && (f.fptr > 0 ==> f.At((f.fptr - 1) / 512)) && (f.fptr % 512 != 0 ==> f.sect != 0 && f.sect == f.secs[f.fptr / 512])
    && f.buf.Length == 512 && f.BufferOk()
    && f.sclust == if f.chain == [] then 0 else f.chain[0]
  }

  /** What an open file knows of the volume. */
  lemma Facts(f: Fil)
    requires f.Valid()
    ensures Shape(f) && f.fs.Valid() && DataOk(f.fs.g, |f.fs.store|) && (f.exact ==> f.fs.CountOk()) && |f.fs.fat| == f.fs.g.nFatent
    ensures f.buf != f.fs.win && f.buf != f.fs.disk
    ensures Clusters(f.fs.g, f.chain) && f.secs == Sectors(f.fs.g, f.chain) && Unseen(f.fs.g, f.secs, f.fs.winsect)
    ensures WellFormed(f.fs.fat, With(f.chain, f.others)) && f.chain !in f.others && Unseen(f.fs.g, f.watched, f.fs.winsect)
    ensures ContentHeld(f.fs.g, f.fs.store, f.fs.winsect, f.chain, f.secs, f.content, f.Buffer()) && Coherent(f.fs.store, f.Buffer())
  {
    assert OpenCore(0);
    assert OpenData(0) && OpenChain(0);
    var secs := f.secs;
    forall k {:trigger secs[k]} | 0 <= k < |secs| ensures FatEnd(f.fs.g) <= secs[k] { var p := SectorsFrom(f.fs.g, f.chain, k); }
  }

  /** What makes a file valid. */
  lemma IsValid(f: Fil)
    requires Shape(f) && f.buf != f.fs.win && f.buf != f.fs.disk
    requires f.fs.Valid() && (f.exact ==> f.fs.CountOk()) && Unseen(f.fs.g, f.watched, f.fs.winsect)
    requires ContentHeld(f.fs.g, f.fs.store, f.fs.winsect, f.chain, f.secs, f.content, f.Buffer()) && Coherent(f.fs.store, f.Buffer())
    requires WellFormed(f.fs.fat, With(f.chain, f.others)) && f.chain !in f.others && (f.sect != 0 ==> SectApart(f.fs.g, f.others, f.sect))
    ensures f.Valid()
  {
  }

  /** The window stands for none of the sectors the file watches. */
  ghost method Watch(f: Fil, secs: seq<nat>)
    requires f.Valid() && Unseen(f.fs.g, secs, f.fs.winsect)
    modifies f`watched
    ensures f.Valid() && f.watched == secs
  {
    Facts(f);
    ghost var apart := f.sect != 0;
    assert apart ==> SectApart(f.fs.g, f.others, f.sect);
    f.watched := secs;
    IsValid(f);
  }

  /** From now on two open files know of each other. */
  ghost method Acquaint(a: Fil, b: Fil, rest: set<Chain>)
    requires a.Valid() && b.Valid() && a != b && a.fs == b.fs && a.buf != b.buf && a.exact == b.exact
    requires a.others == With(b.chain, rest) && b.others == With(a.chain, rest)
    modifies a`watched, b`watched
    ensures a.Valid() && b.Valid() && Beside(a, b, rest)
  {
    ghost var xs, ys := a.secs, b.secs;
    Unwatched(a);
    Unwatched(b);
    Watch(a, ys);
    Watch(b, xs);
  }

  lemma Unwatched(f: Fil)
    requires f.Valid()
    ensures Unseen(f.fs.g, f.secs, f.fs.winsect)
  {
    Facts(f);
  }

  /** A change that leaves chain x and the buffered sector alone leaves the file with that chain alone. */
  lemma ContentStays(g: Geo, s: seq<Byte>, w: nat, r: seq<Byte>, w': nat, x: Chain, secs: seq<nat>, content: seq<Byte>, c: Cache, others: set<Chain>, y: Chain)
    requires ContentHeld(g, s, w, x, secs, content, c) && Coherent(s, c) && FileRuns.Kept(g, others, s, r) && FileRuns.OnlyIn(g, y, s, r)
    requires (x != [] ==> x in others) && NotAmong(secs, w') && (c.sect != 0 ==> SectApart(g, {y}, c.sect))
    ensures ContentHeld(g, r, w', x, secs, content, c) && Coherent(r, c)
  {
    assert OpenData(0);
    forall k {:trigger secs[k]} | 0 <= k < |secs| ensures r[512 * secs[k]..512 * secs[k] + 512] == s[512 * secs[k]..512 * secs[k] + 512] {
      SectorStays(g, s, r, x, others, k);
    }
    HoldsFrame(content, secs, s, r, c);
    if c.sect != 0 { BufferStays(g, s, r, y, c.sect); }
  }

  lemma BufferStays(g: Geo, s: seq<Byte>, r: seq<Byte>, y: Chain, sect: nat)
    requires FileRuns.OnlyIn(g, y, s, r) && SectApart(g, {y}, sect) && FatEnd(g) <= sect && 512 * sect + 512 <= |s|
    ensures r[512 * sect..512 * sect + 512] == s[512 * sect..512 * sect + 512]
  {
    assert FileRuns.OpenKept(0);
    var u, v := r[512 * sect..512 * sect + 512], s[512 * sect..512 * sect + 512];
    forall i | 0 <= i < 512 ensures u[i] == v[i] { assert (512 * sect + i) / 512 == sect && u[i] == r[512 * sect + i]; }
  }

  lemma SectorStays(g: Geo, s: seq<Byte>, r: seq<Byte>, x: Chain, others: set<Chain>, k: nat)
    requires FileRuns.Kept(g, others, s, r) && x in others && Clusters(g, x) && k < |Sectors(g, x)| && DataOk(g, |s|)
    ensures var a := 512 * Sectors(g, x)[k]; a + 512 <= |s| == |r| && r[a..a + 512] == s[a..a + 512]
  {
    var sec := Sectors(g, x)[k];
    var p := SectorsFrom(g, x, k);
    ClusterInside(g, x[p]);
    InsideIsNotApart(g, others, x, p, sec);
    assert FileRuns.OpenKept(0);
    var u, v := r[512 * sec..512 * sec + 512], s[512 * sec..512 * sec + 512];
    forall i | 0 <= i < 512 ensures u[i] == v[i] { assert (512 * sec + i) / 512 == sec && u[i] == r[512 * sec + i]; }
  }

  /** Seen from either file the volume has the same chains. */
  lemma SameChains(x: Chain, y: Chain, rest: set<Chain>)
    ensures With(x, With(y, rest)) == With(y, With(x, rest))
  {
  }

  /** Its own sectors are in no other chain. */
  lemma OwnIsApart(g: Geo, fat: Fat, others: set<Chain>, x: Chain, s: nat)
    requires WellFormed(fat, With(x, others)) && x !in others && Clusters(g, x) && OwnSect(Sectors(g, x), s)
    ensures s != 0 ==> SectApart(g, others, s)
  {
    if s != 0 {
      assert OpenSect(0);
      var secs := Sectors(g, x);
      var k :| 0 <= k < |secs| && secs[k] == s;
      ChainsApart(g, fat, others, x, k);
    }
  }

  /** The buffer of the file is empty, or its sector is in no other chain. */
  ghost predicate BufferFree(f: Fil)
    reads f
  {
    f.sect != 0 ==> SectApart(f.fs.g, f.others, f.sect)
  }

  /**
   * An operation on one file while another one is open. The other file is as it was, on the volume as it has become, if
   * and only if the operation has not taken the sector of its buffer; it cannot if the buffer is empty or stands for one of
   * the file's own sectors. Everything else keeps its data.
   */
  method Operate(a: Fil, b: Fil, op: FileRuns.Op, ghost rest: set<Chain>) returns (out: FileRuns.Report)
    requires a.Valid() && b.Valid() && Beside(a, b, rest) && a.readable && a.writable && (op.Write? ==> |op.data| <= 0xFFFF_FFFF)
    modifies a, b`others, b`watched, a.buf, a.fs, a.fs.win, a.fs.disk
    ensures a.Valid() && Beside(a, b, rest) && (b.Valid() <==> BufferFree(b)) && (b.owned ==> b.Valid())
    ensures FileRuns.Step(a.fs.g, a.exact, old(FileRuns.StateOf(a)), op, out, FileRuns.StateOf(a))
    ensures FileRuns.ImageOf(b) == old(FileRuns.ImageOf(b)) && b.chain == old(b.chain) && b.buf[..] == old(b.buf[..])
    ensures !FileRuns.Abandons(old(FileRuns.ImageOf(a)), op) ==> a.owned == old(a.owned)
    ensures FileRuns.Kept(a.fs.g, rest, old(a.fs.store), a.fs.store)
  {
    ghost var s, w, x := b.fs.store, b.fs.winsect, a.chain;
    Calm(a, b, rest);
    out := Act(a, b, op, s, w);
    KeptByBoth(a.fs.g, a.others, rest, s, a.fs.store);
    BringUpToDate(a, b, s, w, rest, if op.Truncate? then x else a.chain);
  }

  /** The invariant of a file whose owner is idle, on the disk image s with the window on sector w. */
  ghost predicate Idle(f: Fil, s: seq<Byte>, w: nat)
    reads f, f.buf
  {
    forall k {:trigger OpenIdle(k)} :: OpenIdle(k) ==>
      && Shape(f) && f.buf != f.fs.win && f.buf != f.fs.disk && Clusters(f.fs.g, f.chain) && f.secs == Sectors(f.fs.g, f.chain)
      && ContentHeld(f.fs.g, s, w, f.chain, f.secs, f.content, f.Buffer()) && Coherent(s, f.Buffer())
  }

  ghost predicate OpenIdle(k: int) { true }

  lemma Calm(a: Fil, f: Fil, rest: set<Chain>)
    requires f.Valid() && f.others == With(a.chain, rest)
    ensures Idle(f, f.fs.store, f.fs.winsect) && f.chain !in rest && (f.sect != 0 ==> SectApart(f.fs.g, {a.chain}, f.sect))
  {
    Facts(f);
    if f.sect != 0 { OneApart(f.fs.g, rest, a.chain, f.sect); }
  }

  /** Apart from all chains is apart from the one. */
  lemma OneApart(g: Geo, rest: set<Chain>, x: Chain, s: nat)
    requires SectApart(g, With(x, rest), s)
    ensures SectApart(g, {x}, s)
  {
    assert OpenSect(0);
  }

  /** The idle file learns what the other one has become; y is the chain in which the medium has changed. */
  ghost method BringUpToDate(a: Fil, b: Fil, s: seq<Byte>, w: nat, rest: set<Chain>, y: Chain)
    requires a.Valid() && a != b && a.fs == b.fs && a.buf != b.buf && a.exact == b.exact && a.others == With(b.chain, rest) && a.watched == b.secs
    requires b.chain !in rest && Idle(b, s, w) && FileRuns.Kept(a.fs.g, a.others, s, a.fs.store)
    requires FileRuns.OnlyIn(a.fs.g, y, s, a.fs.store) && (y == a.chain || (b.sect != 0 ==> SectApart(b.fs.g, {y}, b.sect)))
    modifies b`others, b`watched
    ensures Beside(a, b, rest) && (b.Valid() <==> BufferFree(b)) && (b.owned ==> b.Valid())
  {
    b.others, b.watched := With(a.chain, rest), a.secs;
    if b.owned { OwnBuffer(a, b, s, w, rest); }
    if BufferFree(b) { Unnoticed(a, b, s, w, rest, y); }
  }

  lemma OwnBuffer(a: Fil, b: Fil, s: seq<Byte>, w: nat, rest: set<Chain>)
    requires a.Valid() && Beside(a, b, rest) && Idle(b, s, w) && b.owned && b.chain !in rest
    ensures BufferFree(b)
  {
    assert OpenIdle(0);
    Facts(a);
    SameChains(a.chain, b.chain, rest);
    OwnIsApart(b.fs.g, b.fs.fat, b.others, b.chain, b.sect);
  }

  /** The operation itself, on the disk image s with the window on sector w. */
  method Act(a: Fil, b: Fil, op: FileRuns.Op, ghost s: seq<Byte>, ghost w: nat) returns (out: FileRuns.Report)
    requires a.Valid() && a != b && a.fs == b.fs && a.buf != b.buf && a.readable && a.writable && (op.Write? ==> |op.data| <= 0xFFFF_FFFF)
    requires Idle(b, s, w) && s == b.fs.store
    modifies a, a.buf, a.fs, a.fs.win, a.fs.disk
    ensures a.Valid() && a.others == old(a.others) && a.watched == old(a.watched)
    ensures FileRuns.Step(a.fs.g, a.exact, old(FileRuns.StateOf(a)), op, out, FileRuns.StateOf(a))
    ensures FileRuns.Kept(a.fs.g, a.others, s, a.fs.store) && FileRuns.OnlyIn(a.fs.g, if op.Truncate? then old(a.chain) else a.chain, s, a.fs.store)
    ensures !FileRuns.Abandons(old(FileRuns.ImageOf(a)), op) ==> a.owned == old(a.owned)
    ensures Idle(b, s, w) && b.buf[..] == old(b.buf[..])
  {
    out := FileRuns.Perform(a, op);
  }

  /** The file b after an operation on a. */
  lemma Unnoticed(a: Fil, b: Fil, s: seq<Byte>, w: nat, rest: set<Chain>, y: Chain)
    requires a.Valid() && Beside(a, b, rest) && Idle(b, s, w) && b.chain !in rest && FileRuns.Kept(a.fs.g, a.others, s, a.fs.store)
    requires FileRuns.OnlyIn(a.fs.g, y, s, a.fs.store) && BufferFree(b) && (y == a.chain || (b.sect != 0 ==> SectApart(b.fs.g, {y}, b.sect)))
    ensures b.Valid()
  {
    assert OpenIdle(0);
    Facts(a);
    SameChains(a.chain, b.chain, rest);
    if b.sect != 0 && y == a.chain { OneApart(b.fs.g, rest, a.chain, b.sect); }
    ContentStays(b.fs.g, s, w, b.fs.store, b.fs.winsect, b.chain, b.secs, b.content, b.Buffer(), a.others, y);
    IsValid(b);
  }

  lemma KeptByBoth(g: Geo, others: set<Chain>, rest: set<Chain>, s: seq<Byte>, r: seq<Byte>)
    requires FileRuns.Kept(g, others, s, r) && rest <= others
    ensures FileRuns.Kept(g, rest, s, r)
  {
    assert FileRuns.OpenKept(0);
    forall a {:trigger r[a]} | 0 <= a < |s| && OutsideFats(g, a) && FileRuns.Foreign(g, rest, a / 512) ensures r[a] == s[a] {
      FewerApart(g, others, rest, a / 512);
    }
  }

  /** Whose turn it is, and what is done. */
  datatype Turn = Turn(first: bool, op: FileRuns.Op)

  /** Both files, on one FAT with one count. */
  datatype Pair = Pair(a: FileRuns.State, b: FileRuns.State)

  ghost predicate PairSound(g: Geo, rest: set<Chain>, p: Pair) {
    && p.a.fat == p.b.fat && p.a.free == p.b.free
    && FileRuns.Sound(g, With(p.b.chain, rest), p.a) && FileRuns.Sound(g, With(p.a.chain, rest), p.b)
  }

  /** The one file makes a step of its own; of the other only the volume around it changes. */
  ghost predicate PairStep(g: Geo, exact: bool, p: Pair, t: Turn, out: FileRuns.Report, p': Pair) {
    if t.first then FileRuns.Step(g, exact, p.a, t.op, out, p'.a) && p'.b == p.b.(fat := p'.a.fat, free := p'.a.free)
    else FileRuns.Step(g, exact, p.b, t.op, out, p'.b) && p'.a == p.a.(fat := p'.b.fat, free := p'.b.free)
  }

  /** The first |outs| turns of an interleaved run. */
  ghost predicate PairRun(g: Geo, exact: bool, rest: set<Chain>, ps: seq<Pair>, ts: seq<Turn>, outs: seq<FileRuns.Report>) {
    && |ps| == |outs| + 1 && |outs| <= |ts|
    && (forall i {:trigger ps[i]} :: 0 <= i < |ps| ==> PairSound(g, rest, ps[i]))
    && (forall i {:trigger outs[i]} :: 0 <= i < |outs| ==> PairStep(g, exact, ps[i], ts[i], outs[i], ps[i + 1]))
  }

  ghost function PairOf(a: Fil, b: Fil): Pair
    reads a, b, a.fs, b.fs
  {
    Pair(FileRuns.StateOf(a), FileRuns.StateOf(b))
  }

  lemma PairIsSound(a: Fil, b: Fil, rest: set<Chain>)
    requires a.Valid() && b.Valid() && Beside(a, b, rest)
    ensures PairSound(a.fs.g, rest, PairOf(a, b))
  {
    FileRuns.StateIsSound(a);
    FileRuns.StateIsSound(b);
  }

  lemma Backwards(a: Fil, b: Fil, rest: set<Chain>)
    ensures Beside(a, b, rest) <==> Beside(b, a, rest)
  {
  }

  ghost predicate Abandoning(p: Pair, t: Turn) { FileRuns.Abandons(if t.first then p.a.m else p.b.m, t.op) }

  /** One turn. */
  method TakeTurn(a: Fil, b: Fil, t: Turn, ghost rest: set<Chain>) returns (out: FileRuns.Report)
    requires a.Valid() && b.Valid() && Beside(a, b, rest) && a.owned && b.owned && a.readable && a.writable && b.readable && b.writable
    requires t.op.Write? ==> |t.op.data| <= 0xFFFF_FFFF
    modifies a, b, a.buf, b.buf, a.fs, a.fs.win, a.fs.disk
    ensures a.Valid() && b.Valid() && Beside(a, b, rest) && (!Abandoning(old(PairOf(a, b)), t) ==> a.owned && b.owned)
    ensures PairStep(a.fs.g, a.exact, old(PairOf(a, b)), t, out, PairOf(a, b)) && FileRuns.Kept(a.fs.g, rest, old(a.fs.store), a.fs.store)
  {
    if t.first {
      out := Operate(a, b, t.op, rest);
    } else {
      out := Operate(b, a, t.op, rest);
    }
  }

  /**
   * Every interleaving of operations on two open files: each file refines a byte array of its own, they share the free
   * clusters, and everything else keeps its data. The run goes on until an operation cuts a file at the end of a sector,
   * after which its buffer may stand for a sector that the other file can take.
   */
  method Interleave(a: Fil, b: Fil, ts: seq<Turn>, ghost rest: set<Chain>) returns (outs: seq<FileRuns.Report>, ghost ps: seq<Pair>)
    requires a.Valid() && b.Valid() && Beside(a, b, rest) && a.owned && b.owned && a.readable && a.writable && b.readable && b.writable
    requires forall i {:trigger ts[i]} :: 0 <= i < |ts| && ts[i].op.Write? ==> |ts[i].op.data| <= 0xFFFF_FFFF
    modifies a, b, a.buf, b.buf, a.fs, a.fs.win, a.fs.disk
    ensures a.Valid() && b.Valid() && Beside(a, b, rest)
    ensures PairRun(a.fs.g, a.exact, rest, ps, ts, outs) && ps[0] == old(PairOf(a, b)) && ps[|outs|] == PairOf(a, b)
    ensures |outs| == |ts| || (|outs| > 0 && Abandoning(ps[|outs| - 1], ts[|outs| - 1]))
    ensures FileRuns.Kept(a.fs.g, rest, old(a.fs.store), a.fs.store)
  {
    outs, ps := [], [PairOf(a, b)];
    PairIsSound(a, b, rest);
    ghost var p0, s0 := PairOf(a, b), a.fs.store;
    var i, stop := 0, false;
    while i < |ts| && !stop
      invariant Live(a, b, ts, rest, s0, ps, outs) && (!stop ==> a.owned && b.owned)
      invariant 0 <= i == |outs| <= |ts| && |ps| == i + 1 && ps[0] == p0
      invariant stop ==> i > 0 && Abandoning(ps[i - 1], ts[i - 1])
      decreases |ts| - i
    {
      var out;
      out, stop := NextTurn(a, b, ts, rest, s0, ps, outs);
      outs, ps := outs + [out], ps + [PairOf(a, b)];
      i := i + 1;
    }
    assert OpenLive(0);
  }

  ghost predicate OpenLive(k: int) { true }

  /** Both files are valid, and a run that began on the disk image s0 has led to them. */
  ghost predicate Live(a: Fil, b: Fil, ts: seq<Turn>, rest: set<Chain>, s0: seq<Byte>, ps: seq<Pair>, outs: seq<FileRuns.Report>)
    reads a, b, a.buf, b.buf, a.fs, b.fs, a.fs.win, a.fs.disk, b.fs.win, b.fs.disk
  {
    forall k {:trigger OpenLive(k)} :: OpenLive(k) ==>
      && a.Valid() && b.Valid() && Beside(a, b, rest)
      && PairRun(a.fs.g, a.exact, rest, ps, ts, outs) && ps[|outs|] == PairOf(a, b)
      && FileRuns.Kept(a.fs.g, rest, s0, a.fs.store)
  }

  /** The operation cuts the file at the end of a sector. */
  method Abandons(f: Fil, op: FileRuns.Op) returns (yes: bool)
    requires f.Valid()
    ensures yes == FileRuns.Abandons(FileRuns.ImageOf(f), op)
  {
    yes := op.Truncate? && f.fptr % 512 == 0 && f.fptr < f.objsize;
  }

  /** One turn of a run; `stop` if it cuts a file at the end of a sector. */
  method NextTurn(a: Fil, b: Fil, ts: seq<Turn>, ghost rest: set<Chain>, ghost s0: seq<Byte>, ghost ps: seq<Pair>, outs: seq<FileRuns.Report>)
    returns (out: FileRuns.Report, stop: bool)
    requires Live(a, b, ts, rest, s0, ps, outs) && a.owned && b.owned && a.readable && a.writable && b.readable && b.writable
    requires |outs| < |ts| && |ps| == |outs| + 1 && (ts[|outs|].op.Write? ==> |ts[|outs|].op.data| <= 0xFFFF_FFFF)
    modifies a, b, a.buf, b.buf, a.fs, a.fs.win, a.fs.disk
    ensures Live(a, b, ts, rest, s0, ps + [PairOf(a, b)], outs + [out])
    ensures (stop <==> Abandoning(ps[|outs|], ts[|outs|])) && (!stop ==> a.owned && b.owned)
  {
    assert OpenLive(0);
    ghost var s1 := a.fs.store;
    out, stop := TurnAndTell(a, b, ts[|outs|], rest);
    FileRuns.KeptTrans(a.fs.g, rest, s0, s1, a.fs.store);
    LivesOn(a, b, ts, rest, s0, ps, outs, out);
  }

  /** One turn, and whether it cuts a file at the end of a sector. */
  method TurnAndTell(a: Fil, b: Fil, t: Turn, ghost rest: set<Chain>) returns (out: FileRuns.Report, stop: bool)
    requires a.Valid() && b.Valid() && Beside(a, b, rest) && a.owned && b.owned && a.readable && a.writable && b.readable && b.writable
    requires t.op.Write? ==> |t.op.data| <= 0xFFFF_FFFF
    modifies a, b, a.buf, b.buf, a.fs, a.fs.win, a.fs.disk
    ensures a.Valid() && b.Valid() && Beside(a, b, rest) && (stop <==> Abandoning(old(PairOf(a, b)), t)) && (!stop ==> a.owned && b.owned)
    ensures PairStep(a.fs.g, a.exact, old(PairOf(a, b)), t, out, PairOf(a, b)) && FileRuns.Kept(a.fs.g, rest, old(a.fs.store), a.fs.store)
  {
    stop := Abandons(if t.first then a else b, t.op);
    out := TakeTurn(a, b, t, rest);
  }

  lemma LivesOn(a: Fil, b: Fil, ts: seq<Turn>, rest: set<Chain>, s0: seq<Byte>, ps: seq<Pair>, outs: seq<FileRuns.Report>, out: FileRuns.Report)
    requires a.Valid() && b.Valid() && Beside(a, b, rest) && FileRuns.Kept(a.fs.g, rest, s0, a.fs.store)
    requires PairRun(a.fs.g, a.exact, rest, ps, ts, outs) && |outs| < |ts| && PairStep(a.fs.g, a.exact, ps[|outs|], ts[|outs|], out, PairOf(a, b))
    ensures Live(a, b, ts, rest, s0, ps + [PairOf(a, b)], outs + [out])
  {
    PairIsSound(a, b, rest);
    PairExtends(a.fs.g, a.exact, rest, ps, ts, outs, out, PairOf(a, b));
  }

  lemma PairExtends(g: Geo, exact: bool, rest: set<Chain>, ps: seq<Pair>, ts: seq<Turn>, outs: seq<FileRuns.Report>, out: FileRuns.Report, p: Pair)
    requires PairRun(g, exact, rest, ps, ts, outs) && |outs| < |ts| && PairSound(g, rest, p) && PairStep(g, exact, ps[|outs|], ts[|outs|], out, p)
    ensures PairRun(g, exact, rest, ps + [p], ts, outs + [out])
  {
    var outs', ps' := outs + [out], ps + [p];
    forall i {:trigger outs'[i]} | 0 <= i < |outs'| ensures PairStep(g, exact, ps'[i], ts[i], outs'[i], ps'[i + 1]) {
      assert i < |outs| ==> outs'[i] == outs[i];
    }
  }

  /** A chain of its own covers as many clusters as it is long. */
  lemma CoveredWith(fat: Fat, chains: set<Chain>, rest: set<Chain>, y: Chain)
    requires WellFormed(fat, chains) && With(y, rest) <= chains && y !in rest
    ensures |Covered(With(y, rest), |fat|)| == |Covered(rest, |fat|)| + |y|
  {
    if y == [] { return; }
    assert IsChain(fat, y);
    ChainIsAcyclic(fat, y);
    ElementCount(y);
    var all, cs, es := Covered(rest + {y}, |fat|), Covered(rest, |fat|), Elements(y);
    forall d ensures d in all <==> d in cs || d in es { CoveredOrOwn(fat, rest, y, d); }
    forall d | d in cs ensures d !in es {
      var x :| x in rest && d in x;
      assert Apart(x, y);
      assert d in es ==> d in y;
    }
    assert all == cs + es && cs !! es;
  }

  lemma CoveredOrOwn(fat: Fat, rest: set<Chain>, y: Chain, d: int)
    requires IsChain(fat, y)
    ensures d in Covered(rest + {y}, |fat|) <==> d in Covered(rest, |fat|) || d in Elements(y)
  {
    if d in Covered(rest + {y}, |fat|) {
      var x :| x in rest + {y} && d in x;
      if x in rest { assert InUse(rest, d); }
    }
    if d in Covered(rest, |fat|) {
      var x :| x in rest && d in x;
      assert x in rest + {y};
    }
    if d in Elements(y) {
      var i :| 0 <= i < |y| && y[i] == d;
      assert y in rest + {y} && d in y;
    }
  }

  /** Conservation for two files: their chains and the free clusters make up a constant number. */
  lemma PairKeepsClusters(g: Geo, rest: set<Chain>, p: Pair, p': Pair)
    requires PairSound(g, rest, p) && PairSound(g, rest, p')
    ensures |p.a.chain| + |p.b.chain| + FreeCount(p.a.fat) == |p'.a.chain| + |p'.b.chain| + FreeCount(p'.a.fat)
  {
    PairBudget(g, rest, p);
    PairBudget(g, rest, p');
  }

  lemma PairBudget(g: Geo, rest: set<Chain>, p: Pair)
    requires PairSound(g, rest, p)
    ensures |Covered(rest, g.nFatent)| + |p.a.chain| + |p.b.chain| + FreeCount(p.a.fat) == g.nFatent - 2
  {
    var x, y := p.a.chain, p.b.chain;
    Budget(p.a.fat, With(y, rest), x);
    NotInRest(p, rest);
    CoveredWith(p.a.fat, With(x, With(y, rest)), rest, y);
  }

  lemma NotInRest(p: Pair, rest: set<Chain>)
    requires p.b.chain !in With(p.a.chain, rest)
    ensures p.b.chain !in rest
  {
  }
}
