/** Whole runs of operations on one open file, and what they leave alone. */
module FileRuns {
  import opened Machine
  import opened Geometry
  import opened Chains
  import opened FileView
  import opened DataArea
  import opened File

  /** What a user of a file sees: its bytes, the read/write pointer and whether f_sync has something to record. */
  datatype Image = Image(bytes: seq<Byte>, pos: nat, modified: bool)

  /** The image with the file's chain, the FAT and the volume's count of free clusters. */
  datatype State = State(m: Image, chain: Chain, fat: Fat, free: nat)

  datatype Op = Read(count: nat) | Write(data: seq<Byte>) | Seek(ofs: Word32) | Truncate

  /** What an operation reports: bytes read, or how many bytes were written. */
  datatype Report = Got(bytes: seq<Byte>) | Put(count: nat) | Done

  function Min(a: nat, b: nat): nat { if a <= b then a else b }
  function Max(a: nat, b: nat): nat { if a <= b then b else a }

  /** The number of clusters that n bytes take. */
  function Need(g: Geo, n: nat): nat
    requires g.csize > 0
  {
    (n + (512 * g.csize - 1)) / (512 * g.csize)
  }

  /** How many bytes k clusters hold. */
  function Capacity(g: Geo, k: nat): nat { 512 * Times(g.csize, k) }

  /** The most the file can grow to: its own clusters and all free ones. */
  ghost function Limit(g: Geo, st: State): nat
    requires 2 <= |st.fat|
  {
    Capacity(g, |st.chain| + FreeCount(st.fat))
  }

  /** The chain is one of a well-formed FAT, whose other chains are `others`, and the file fits into it. */
  ghost predicate Sound(g: Geo, others: set<Chain>, st: State) {
    && 1 <= g.csize && |st.fat| == g.nFatent && 2 <= g.nFatent
    && WellFormed(st.fat, if st.chain == [] then others else others + {st.chain}) && st.chain !in others
    && st.m.pos <= |st.m.bytes| <= Capacity(g, |st.chain|)
  }

  /** Every cluster is taken. If the free count was wrong from the start, it may only say so. */
  ghost predicate Full(exact: bool, st: State) { |st.fat| >= 2 && (FreeCount(st.fat) == 0 || (!exact && st.free == 0)) }

  /** The chain grows by what the pointer needs and no more; a known count goes down by as much. */
  ghost predicate Grown(g: Geo, st: State, st': State)
    requires g.csize > 0
  {
    && st.chain <= st'.chain && |st'.chain| == Max(|st.chain|, Need(g, st'.m.pos))
    && if Known(g, st.free) then st'.free + (|st'.chain| - |st.chain|) == st.free else st'.free == st.free
  }

  /** A count of free clusters that is not out of range is taken for true. */
  predicate Known(g: Geo, free: nat) { free <= g.nFatent - 2 }

  /** A known count goes up by k, at most to the number of clusters. */
  function Raised(g: Geo, free: nat, k: nat): nat { if free < g.nFatent - 2 then Min(free + k, g.nFatent - 2) else free }

  /** The file fills its last cluster and there is no further one. */
  ghost predicate Stuck(g: Geo, exact: bool, st: State) {
    Full(exact, st) && st.m.pos == |st.m.bytes| == Capacity(g, |st.chain|)
  }

  /**
   * The meaning of an operation on a file open for reading and writing. With an exact free count a write or seek goes as
   * far as the limit allows; otherwise it may also stop where the count denies a free cluster.
   */
  ghost predicate Step(g: Geo, exact: bool, st: State, op: Op, out: Report, st': State) {
    var m, m' := st.m, st'.m;
    && g.csize > 0 && |st.fat| >= 2 && m.pos <= |m.bytes| && m.pos <= Limit(g, st) &&
    match op
    case Read(n) =>
      var k := Min(n, |m.bytes| - m.pos);
      && out == Got(m.bytes[m.pos..m.pos + k])
      && st' == st.(m := m.(pos := m.pos + k))
    case Write(data) =>
      var k := Min(|data|, Max(0xFFFF_FFFF, m.pos) - m.pos);
      && out.Put? && out.count <= k && (exact ==> out.count == Min(k, Limit(g, st) - m.pos))
      && (out.count < k ==> Stuck(g, exact, st'))
      && m' == Image(Overwrite(m.bytes, m.pos, data[..out.count]), m.pos + out.count, true)
      && Grown(g, st, st')
    case Seek(ofs) =>
      && out == Done && m'.pos <= ofs && (exact ==> m'.pos == Min(ofs, Limit(g, st)))
      && (m'.pos < ofs ==> Stuck(g, exact, st'))
      && m.bytes <= m'.bytes && |m'.bytes| == Max(m'.pos, |m.bytes|)
      && m'.modified == (m.modified || m'.pos > |m.bytes|)
      && Grown(g, st, st')
    case Truncate =>
      && out == Done
      && if m.pos < |m.bytes| then
           && m' == Image(m.bytes[..m.pos], m.pos, true)
           && st'.chain <= st.chain && |st'.chain| == Need(g, m.pos) && st'.free == Raised(g, st.free, |st.chain| - |st'.chain|)
         else st' == st
  }

  /** A run: every operation takes the state the one before it left, and every state is sound. */
  ghost predicate Run(g: Geo, others: set<Chain>, exact: bool, sts: seq<State>, ops: seq<Op>, outs: seq<Report>) {
    && |sts| == |ops| + 1 && |outs| == |ops|
    && (forall i {:trigger sts[i]} :: 0 <= i < |sts| ==> Sound(g, others, sts[i]))
    && (forall i {:trigger ops[i]} :: 0 <= i < |ops| ==> Step(g, exact, sts[i], ops[i], outs[i], sts[i + 1]))
  }

  ghost function ImageOf(f: Fil): Image
    reads f`content, f`fptr, f`modified
  {
    Image(f.content, f.fptr, f.modified)
  }

  ghost function StateOf(f: Fil): State
    reads f`content, f`fptr, f`modified, f`chain, f.fs`fat, f.fs`freeClst
  {
    State(ImageOf(f), f.chain, f.fs.fat, f.fs.freeClst)
  }

  lemma StateIsSound(f: Fil)
    requires f.Valid()
    ensures Sound(f.fs.g, f.others, StateOf(f)) && f.secs == Sectors(f.fs.g, f.chain) && Clusters(f.fs.g, f.chain)
  {
    assert OpenCore(0);
    assert OpenChain(0) && OpenData(0);
  }

  /** n bytes need as many clusters as it takes to hold them. */
  lemma NeedFits(g: Geo, n: nat, k: nat)
    requires g.csize > 0
    ensures n <= Capacity(g, k) <==> Need(g, n) <= k
  {
    TimesIsProduct(g.csize, k);
    CeilingFits(512 * g.csize, n, k);
    ProductOrder(512, g.csize, k);
  }

  lemma ProductOrder(a: nat, b: nat, c: nat)
    ensures a * (b * c) == a * b * c
  {
  }

  lemma CeilingFits(b: nat, n: nat, k: nat)
    requires b > 0
    ensures n <= b * k <==> (n + (b - 1)) / b <= k
  {
    var q := (n + (b - 1)) / b;
    assert b * q <= n + (b - 1) < b * q + b;
    if q <= k {
      assert b * q <= b * k by { ProductMonotone(b, q, k); }
    } else {
      assert b * (k + 1) <= b * q by { ProductMonotone(b, k + 1, q); }
    }
  }

  lemma ProductMonotone(b: nat, p: nat, q: nat)
    requires p <= q
    ensures b * p <= b * q
  {
  }

  /** A chain that grew only as far as byte n - 1 needs has exactly that length. */
  lemma TightIsNeed(g: Geo, k0: nat, k: nat, n: nat)
    requires g.csize > 0 && k0 <= k && n <= Capacity(g, k) && (k > k0 ==> Capacity(g, k - 1) < n)
    ensures k == Max(k0, Need(g, n))
  {
    NeedFits(g, n, k);
    if k > k0 { NeedFits(g, n, k - 1); }
  }

  /** Along a run the limit stays: what the file gains the volume loses. */
  lemma SameLimit(g: Geo, others: set<Chain>, st: State, st': State)
    requires Sound(g, others, st) && Sound(g, others, st')
    ensures Limit(g, st) == Limit(g, st') && |st.m.bytes| <= Limit(g, st)
  {
    Conservation(st.fat, st'.fat, others, st.chain, st'.chain);
    TimesMonotone(g.csize, |st.chain|, |st.chain| + FreeCount(st.fat));
  }

  /** Where growing stops early, the limit is reached. */
  lemma StuckAtLimit(g: Geo, st: State)
    requires |st.fat| >= 2 && FreeCount(st.fat) == 0 && st.m.pos == Capacity(g, |st.chain|)
    ensures st.m.pos == Limit(g, st)
  {
  }

  lemma NoRoomIsFull(f: Fil)
    requires f.NoRoom() && |f.fs.fat| >= 2
    ensures Full(f.exact, StateOf(f))
  {
    NoneFree(f.fs.fat, 2);
  }

  /** A truncation at the end of a sector, after which the buffer may stand for a sector the file has given up. */
  ghost predicate Abandons(m: Image, op: Op) { op.Truncate? && m.pos % 512 == 0 && m.pos < |m.bytes| }

  method DoRead(f: Fil, n: nat) returns (out: Report)
    requires f.Valid() && f.readable
    modifies f, f.buf, f.fs, f.fs.win, f.fs.disk
    ensures f.Valid() && f.others == old(f.others) && f.watched == old(f.watched) && f.owned == old(f.owned)
    ensures Step(f.fs.g, f.exact, old(StateOf(f)), Read(n), out, StateOf(f)) && Kept(f.fs.g, f.others, old(f.fs.store), f.fs.store)
    ensures OnlyIn(f.fs.g, f.chain, old(f.fs.store), f.fs.store)
  {
    StateIsSound(f);
    SameLimit(f.fs.g, f.others, StateOf(f), StateOf(f));
    var bytes := ReadBytes(f, n);
    out := Got(bytes);
    OwnChangesOnly(f, old(f.fs.store));
  }

  method ReadBytes(f: Fil, n: nat) returns (bytes: seq<Byte>)
    requires f.Valid() && f.readable
    modifies f`clust, f`ix, f`dirty, f`sect, f`fptr, f.buf, f.fs`store, f.fs`wflag, f.fs`winsect, f.fs.win, f.fs.disk
    ensures f.Valid() && f.fptr == old(f.fptr) + Min(n, |f.content| - old(f.fptr)) && bytes == f.content[old(f.fptr)..f.fptr]
    ensures Confined(f.fs.g, f.secs, old(f.fs.store), f.fs.store)
  {
    var buff := new Byte[n];
    var res, br := f.FRead(buff, n);
    bytes := buff[..br];
    assert buff[..][..br] == buff[..br];
  }

  method DoWrite(f: Fil, data: seq<Byte>) returns (out: Report)
    requires f.Valid() && f.writable && |data| <= 0xFFFF_FFFF
    modifies f, f.buf, f.fs, f.fs.win, f.fs.disk
    ensures f.Valid() && f.others == old(f.others) && f.watched == old(f.watched) && f.owned == old(f.owned)
    ensures Step(f.fs.g, f.exact, old(StateOf(f)), Write(data), out, StateOf(f)) && Kept(f.fs.g, f.others, old(f.fs.store), f.fs.store)
    ensures OnlyIn(f.fs.g, f.chain, old(f.fs.store), f.fs.store)
  {
    ghost var st := StateOf(f);
    StateIsSound(f);
    var bw := WriteAll(f, data, st);
    out := Put(bw);
    StateIsSound(f);
    WriteReaches(f.fs.g, f.others, f.exact, st, data, out.count, StateOf(f));
  }

  method WriteAll(f: Fil, data: seq<Byte>, ghost st: State) returns (bw: nat)
    requires f.Valid() && f.writable && |data| <= 0xFFFF_FFFF && st == StateOf(f)
    modifies f, f.buf, f.fs, f.fs.win, f.fs.disk
    ensures f.Valid() && f.others == old(f.others) && f.watched == old(f.watched) && f.owned == old(f.owned) && f.fs.g.csize > 0 && Kept(f.fs.g, f.others, old(f.fs.store), f.fs.store)
    ensures Grown(f.fs.g, st, StateOf(f)) && bw <= |data| && st.m.pos <= |st.m.bytes|
    ensures ImageOf(f) == Image(Overwrite(st.m.bytes, st.m.pos, data[..bw]), st.m.pos + bw, true)
    ensures var k := Min(|data|, Max(0xFFFF_FFFF, st.m.pos) - st.m.pos); bw <= k && (bw < k ==> Stuck(f.fs.g, f.exact, StateOf(f)))
    ensures OnlyIn(f.fs.g, f.chain, old(f.fs.store), f.fs.store)
  {
    bw := WriteBytes(f, data);
    OwnChangesOnly(f, old(f.fs.store));
    StateIsSound(f);
    GrowthIs(f, st);
  }

  method WriteBytes(f: Fil, data: seq<Byte>) returns (bw: nat)
    requires f.Valid() && f.writable && |data| <= 0xFFFF_FFFF
    modifies f`clust, f`ix, f`chain, f`secs, f`sclust, f`dirty, f`content, f`fptr, f`objsize, f`sect, f`modified, f.buf
    modifies f.fs`wflag, f.fs`winsect, f.fs`store, f.fs`fat, f.fs`lastClst, f.fs`freeClst, f.fs`fsiFlag, f.fs.win, f.fs.disk
    ensures f.Valid() && old(f.chain) <= f.chain && f.modified && f.Tight(|old(f.chain)|, f.fptr) && f.Counted(|old(f.chain)|, old(f.fs.freeClst))
    ensures bw <= |data| && f.fptr == old(f.fptr) + bw && old(f.fptr) <= |old(f.content)|
    ensures f.content == Overwrite(old(f.content), old(f.fptr), data[..bw])
    ensures bw < Min(|data|, Max(0xFFFF_FFFF, old(f.fptr)) - old(f.fptr)) ==> f.NoRoom() && f.fptr / 512 >= |f.secs|
    ensures bw <= Max(0xFFFF_FFFF, old(f.fptr)) - old(f.fptr)
    ensures Confined(f.fs.g, f.secs, old(f.fs.store), f.fs.store)
  {
    var buff := new Byte[|data|](i requires 0 <= i < |data| => data[i]);
    assert buff[..] == data;
    WriteLimit(f.fptr, |data|);
    var res;
    res, bw := f.FWrite(buff, |data|);
    assert buff[..bw] == data[..bw];
  }

  /** What a write or seek says about the chain. */
  lemma GrowthIs(f: Fil, st: State)
    requires f.Valid() && st.chain <= f.chain && f.Tight(|st.chain|, f.fptr) && f.Counted(|st.chain|, st.free)
    requires Sound(f.fs.g, f.others, StateOf(f)) && |f.secs| == Times(f.fs.g.csize, |f.chain|)
    ensures Grown(f.fs.g, st, StateOf(f))
    ensures f.NoRoom() && f.fptr / 512 >= |f.secs| ==> Stuck(f.fs.g, f.exact, StateOf(f))
  {
    TightIsNeed(f.fs.g, |st.chain|, |f.chain|, f.fptr);
    if f.NoRoom() { NoRoomIsFull(f); }
  }

  /** f_write with an exact count stops early only at the limit. */
  lemma WriteReaches(g: Geo, others: set<Chain>, exact: bool, st: State, data: seq<Byte>, n: nat, st': State)
    requires Sound(g, others, st) && Sound(g, others, st') && Grown(g, st, st') && n <= |data|
    requires var k := Min(|data|, Max(0xFFFF_FFFF, st.m.pos) - st.m.pos); n <= k && (n < k ==> Stuck(g, exact, st'))
    requires st'.m == Image(Overwrite(st.m.bytes, st.m.pos, data[..n]), st.m.pos + n, true)
    ensures Step(g, exact, st, Write(data), Put(n), st')
  {
    SameLimit(g, others, st, st');
    SameLimit(g, others, st', st);
    if exact && Stuck(g, exact, st') { StuckAtLimit(g, st'); }
  }

  method DoSeek(f: Fil, ofs: Word32) returns (out: Report)
    requires f.Valid() && f.writable
    modifies f, f.buf, f.fs, f.fs.win, f.fs.disk
    ensures f.Valid() && f.others == old(f.others) && f.watched == old(f.watched) && f.owned == old(f.owned)
    ensures Step(f.fs.g, f.exact, old(StateOf(f)), Seek(ofs), out, StateOf(f)) && Kept(f.fs.g, f.others, old(f.fs.store), f.fs.store)
    ensures OnlyIn(f.fs.g, f.chain, old(f.fs.store), f.fs.store)
  {
    ghost var st := StateOf(f);
    StateIsSound(f);
    SeekAll(f, ofs, st);
    out := Done;
    StateIsSound(f);
    SeekReaches(f.fs.g, f.others, f.exact, st, ofs, StateOf(f));
  }

  method SeekAll(f: Fil, ofs: Word32, ghost st: State)
    requires f.Valid() && f.writable && st == StateOf(f)
    modifies f, f.buf, f.fs, f.fs.win, f.fs.disk
    ensures f.Valid() && f.others == old(f.others) && f.watched == old(f.watched) && f.owned == old(f.owned)
    ensures f.fs.g.csize > 0 && Grown(f.fs.g, st, StateOf(f)) && Kept(f.fs.g, f.others, old(f.fs.store), f.fs.store)
    ensures f.fptr <= ofs && (f.fptr < ofs ==> Stuck(f.fs.g, f.exact, StateOf(f)))
    ensures st.m.bytes <= f.content && |f.content| == Max(f.fptr, |st.m.bytes|) && f.modified == (st.m.modified || f.fptr > |st.m.bytes|)
    ensures OnlyIn(f.fs.g, f.chain, old(f.fs.store), f.fs.store)
  {
    var res := f.FLseek(ofs);
    StateIsSound(f);
    OwnChangesOnly(f, old(f.fs.store));
    GrowthIs(f, st);
  }

  lemma SeekReaches(g: Geo, others: set<Chain>, exact: bool, st: State, ofs: Word32, st': State)
    requires Sound(g, others, st) && Sound(g, others, st') && Grown(g, st, st')
    requires st'.m.pos <= ofs && (st'.m.pos < ofs ==> Stuck(g, exact, st'))
    requires st.m.bytes <= st'.m.bytes && |st'.m.bytes| == Max(st'.m.pos, |st.m.bytes|)
    requires st'.m.modified == (st.m.modified || st'.m.pos > |st.m.bytes|)
    ensures Step(g, exact, st, Seek(ofs), Done, st')
  {
    SameLimit(g, others, st, st');
    SameLimit(g, others, st', st);
    if exact && Stuck(g, exact, st') { StuckAtLimit(g, st'); }
  }

  method DoTruncate(f: Fil) returns (out: Report)
    requires f.Valid() && f.writable
    modifies f, f.buf, f.fs, f.fs.win, f.fs.disk
    ensures f.Valid() && f.others == old(f.others) && f.watched == old(f.watched) && (!Abandons(old(ImageOf(f)), Truncate) ==> f.owned == old(f.owned))
    ensures Step(f.fs.g, f.exact, old(StateOf(f)), Truncate, out, StateOf(f)) && Kept(f.fs.g, f.others, old(f.fs.store), f.fs.store)
    ensures OnlyIn(f.fs.g, old(f.chain), old(f.fs.store), f.fs.store)
  {
    ghost var st := StateOf(f);
    StateIsSound(f);
    CutOff(f, st);
    out := Done;
    SameLimit(f.fs.g, f.others, st, st);
  }

  method CutOff(f: Fil, ghost st: State)
    requires f.Valid() && f.writable && st == StateOf(f)
    modifies f, f.buf, f.fs, f.fs.win, f.fs.disk
    ensures f.Valid() && f.others == old(f.others) && f.watched == old(f.watched) && (!Abandons(old(ImageOf(f)), Truncate) ==> f.owned == old(f.owned)) && Kept(f.fs.g, f.others, old(f.fs.store), f.fs.store)
    ensures st.m.pos <= |st.m.bytes| && f.fs.g.csize > 0
    ensures if st.m.pos < |st.m.bytes| then
        && ImageOf(f) == Image(st.m.bytes[..st.m.pos], st.m.pos, true)
        && f.chain <= st.chain && |f.chain| == Need(f.fs.g, st.m.pos) && f.fs.freeClst == Raised(f.fs.g, st.free, |st.chain| - |f.chain|)
      else StateOf(f) == st
    ensures OnlyIn(f.fs.g, old(f.chain), old(f.fs.store), f.fs.store)
  {
    ghost var s := f.fs.store;
    StateIsSound(f);
    var res := f.FTruncate();
    CutKeeps(f.fs.g, st.fat, f.others, st.chain, s, f.fs.store);
    if f.fptr < |st.m.bytes| { CutIsNeed(f); }
  }

  lemma CutKeeps(g: Geo, fat: Fat, others: set<Chain>, x: Chain, s: seq<Byte>, r: seq<Byte>)
    requires WellFormed(fat, if x == [] then others else others + {x}) && x !in others && Clusters(g, x) && Confined(g, Sectors(g, x), s, r)
    ensures Kept(g, others, s, r) && OnlyIn(g, x, s, r)
  {
    ConfinedKeeps(g, fat, others, x, s, r);
    ConfinedIsOnlyIn(g, x, s, r);
  }

  lemma CutIsNeed(f: Fil)
    requires f.Valid() && f.Tight(0, f.fptr)
    ensures f.fs.g.csize > 0 && |f.chain| == Need(f.fs.g, f.fptr)
  {
    StateIsSound(f);
    TightIsNeed(f.fs.g, 0, |f.chain|, f.fptr);
  }

  /** One operation of a run. */
  method Perform(f: Fil, op: Op) returns (out: Report)
    requires f.Valid() && f.readable && f.writable && (op.Write? ==> |op.data| <= 0xFFFF_FFFF)
    modifies f, f.buf, f.fs, f.fs.win, f.fs.disk
    ensures f.Valid() && f.others == old(f.others) && f.watched == old(f.watched) && (!Abandons(old(ImageOf(f)), op) ==> f.owned == old(f.owned))
    ensures Step(f.fs.g, f.exact, old(StateOf(f)), op, out, StateOf(f)) && Kept(f.fs.g, f.others, old(f.fs.store), f.fs.store)
    ensures OnlyIn(f.fs.g, if op.Truncate? then old(f.chain) else f.chain, old(f.fs.store), f.fs.store)
  {
    match op {
      case Read(n) => out := DoRead(f, n);
      case Write(data) => out := DoWrite(f, data);
      case Seek(ofs) => out := DoSeek(f, ofs);
      case Truncate => out := DoTruncate(f);
    }
  }

  /** Every run of operations on an open file refines the byte array and leaves the rest of the volume alone. */
  method Execute(f: Fil, ops: seq<Op>) returns (outs: seq<Report>, ghost sts: seq<State>)
    requires f.Valid() && f.readable && f.writable
    requires forall i {:trigger ops[i]} :: 0 <= i < |ops| && ops[i].Write? ==> |ops[i].data| <= 0xFFFF_FFFF
    modifies f, f.buf, f.fs, f.fs.win, f.fs.disk
    ensures f.Valid() && f.others == old(f.others) && f.watched == old(f.watched)
    ensures Run(f.fs.g, f.others, f.exact, sts, ops, outs) && sts[0] == old(StateOf(f)) && sts[|ops|] == StateOf(f)
    ensures Kept(f.fs.g, f.others, old(f.fs.store), f.fs.store)
  {
    outs, sts := [], [StateOf(f)];
    StateIsSound(f);
    ghost var others, st0, s0 := f.others, StateOf(f), f.fs.store;
    for i := 0 to |ops|
      invariant f.Valid() && f.others == others && f.watched == old(f.watched)
      invariant Run(f.fs.g, others, f.exact, sts, ops[..i], outs) && sts[0] == st0 && sts[i] == StateOf(f)
      invariant Kept(f.fs.g, others, s0, f.fs.store)
    {
      ghost var s1 := f.fs.store;
      var out := Perform(f, ops[i]);
      StateIsSound(f);
      KeptTrans(f.fs.g, others, s0, s1, f.fs.store);
      RunExtends(f.fs.g, others, f.exact, sts, ops, i, outs, out, StateOf(f));
      outs, sts := outs + [out], sts + [StateOf(f)];
    }
    assert ops[..|ops|] == ops;
  }

  lemma RunExtends(g: Geo, others: set<Chain>, exact: bool, sts: seq<State>, ops: seq<Op>, i: nat, outs: seq<Report>, out: Report, st: State)
    requires i < |ops| && Run(g, others, exact, sts, ops[..i], outs) && Sound(g, others, st) && Step(g, exact, sts[i], ops[i], out, st)
    ensures Run(g, others, exact, sts + [st], ops[..i + 1], outs + [out])
  {
    var ops', sts', outs' := ops[..i + 1], sts + [st], outs + [out];
    forall j {:trigger ops'[j]} | 0 <= j < i + 1 ensures Step(g, exact, sts'[j], ops'[j], outs'[j], sts'[j + 1]) {
      assert j < i ==> ops[..i][j] == ops'[j];
    }
  }

  /** Conservation along a run: the limit never moves. */
  lemma RunKeepsLimit(g: Geo, others: set<Chain>, exact: bool, sts: seq<State>, ops: seq<Op>, outs: seq<Report>, i: nat)
    requires Run(g, others, exact, sts, ops, outs) && i <= |ops|
    ensures Limit(g, sts[i]) == Limit(g, sts[0]) && |sts[i].m.bytes| <= Limit(g, sts[0])
    ensures |sts[i].chain| + FreeCount(sts[i].fat) == |sts[0].chain| + FreeCount(sts[0].fat)
  {
    SameLimit(g, others, sts[i], sts[0]);
    Conservation(sts[i].fat, sts[0].fat, others, sts[i].chain, sts[0].chain);
  }

  ghost predicate OpenKept(k: int) { true }

  /** The sector is outside the data area or belongs to one of the given chains. */
  ghost predicate Foreign(g: Geo, others: set<Chain>, k: nat) { k < g.database || VolumeEnd(g) <= k || !SectApart(g, others, k) }

  /** Between two images, what lies outside the FATs and outside the data area and what belongs to other chains is the same. */
  ghost predicate Kept(g: Geo, others: set<Chain>, s: seq<Byte>, r: seq<Byte>) {
    |r| == |s| && forall k {:trigger OpenKept(k)} :: OpenKept(k) ==>
      forall a {:trigger r[a]} :: 0 <= a < |s| && OutsideFats(g, a) && Foreign(g, others, a / 512) ==> r[a] == s[a]
  }

  /** Between two images, what lies outside the FATs and outside the clusters of x is the same. */
  ghost predicate OnlyIn(g: Geo, x: Chain, s: seq<Byte>, r: seq<Byte>) {
    |r| == |s| && forall k {:trigger OpenKept(k)} :: OpenKept(k) ==>
      forall a {:trigger r[a]} :: 0 <= a < |s| && OutsideFats(g, a) && SectApart(g, {x}, a / 512) ==> r[a] == s[a]
  }

  /** A change confined to the sectors of a chain. */
  lemma ConfinedIsOnlyIn(g: Geo, x: Chain, s: seq<Byte>, r: seq<Byte>)
    requires Clusters(g, x) && Confined(g, Sectors(g, x), s, r)
    ensures OnlyIn(g, x, s, r)
  {
    assert OpenConfined(0);
    var secs := Sectors(g, x);
    forall a {:trigger r[a]} | 0 <= a < |s| && OutsideFats(g, a) && SectApart(g, {x}, a / 512) ensures r[a] == s[a] {
      forall k | 0 <= k < |secs| ensures secs[k] != a / 512 {
        var p := SectorsFrom(g, x, k);
        InsideIsNotApart(g, {x}, x, p, secs[k]);
      }
    }
  }

  lemma KeptTrans(g: Geo, others: set<Chain>, s: seq<Byte>, r: seq<Byte>, t: seq<Byte>)
    requires Kept(g, others, s, r) && Kept(g, others, r, t)
    ensures Kept(g, others, s, t)
  {
    assert OpenKept(0);
  }

  lemma OwnChangesOnly(f: Fil, s: seq<Byte>)
    requires f.Valid() && Confined(f.fs.g, f.secs, s, f.fs.store)
    ensures Kept(f.fs.g, f.others, s, f.fs.store) && OnlyIn(f.fs.g, f.chain, s, f.fs.store)
  {
    StateIsSound(f);
    ConfinedIsOnlyIn(f.fs.g, f.chain, s, f.fs.store);
    ConfinedKeeps(f.fs.g, f.fs.fat, f.others, f.chain, s, f.fs.store);
  }

  /** A change confined to one chain's sectors leaves the system area and the other chains alone. */
  lemma ConfinedKeeps(g: Geo, fat: Fat, others: set<Chain>, x: Chain, s: seq<Byte>, r: seq<Byte>)
    requires WellFormed(fat, if x == [] then others else others + {x}) && x !in others && Clusters(g, x)
    requires Confined(g, Sectors(g, x), s, r)
    ensures Kept(g, others, s, r)
  {
    assert OpenConfined(0);
    var secs := Sectors(g, x);
    forall a {:trigger r[a]} | 0 <= a < |s| && OutsideFats(g, a) && Foreign(g, others, a / 512) ensures r[a] == s[a] {
      forall k | 0 <= k < |secs| ensures secs[k] != a / 512 {
        var p := SectorsFrom(g, x, k);
        InsideVolume(g, x[p], secs[k]);
        ChainsApart(g, fat, others, x, k);
      }
    }
  }

  /** An operation on one file leaves the data of every other chain as it was. */
  lemma OthersKeepTheirData(g: Geo, fat: Fat, chains: set<Chain>, x: Chain, y: Chain, s: seq<Byte>, r: seq<Byte>, k: nat)
    requires WellFormed(fat, chains) && |fat| == g.nFatent && DataOk(g, |s|)
    requires x in chains && y in chains && x != y
    requires Clusters(g, x) && Clusters(g, y) && Confined(g, Sectors(g, x), s, r) && k < |Sectors(g, y)|
    ensures var a := 512 * Sectors(g, y)[k]; a + 512 <= |s| == |r| && r[a..a + 512] == s[a..a + 512]
  {
    assert OpenConfined(0);
    var sec := Sectors(g, y)[k];
    var p := SectorsFrom(g, y, k);
    ClusterInside(g, y[p]);
    assert Apart(x, y) && y[p] in y;
    var xs := Sectors(g, x);
    forall j | 0 <= j < |xs| ensures xs[j] != sec {
      var q := SectorsFrom(g, x, j);
      assert x[q] in x;
      if xs[j] == sec { OneCluster(g, x[q], y[p], sec); }
    }
  }
}
