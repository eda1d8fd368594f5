/** Runs of operations on one directory: the table refines a map from names to entries. */
module DirRuns {
  import opened Machine
  import opened Geometry
  import opened Chains
  import opened DataArea
  import opened DirTable
  import opened Directory
  import File

  /** Look a name up; create an entry unless the name exists, as f_open does; delete it, as f_unlink does. */
  datatype Op = Find(name: Name) | Create(name: Name) | Delete(name: Name)
  datatype Report = Found | NotFound | Created | Exists | NoRoom | Deleted

  /** Every entry is used and the table cannot grow. If the free count was wrong from the start, it may only say so. */
  ghost predicate IsFull(exact: bool, fixed: bool, st: State)
    requires SlotsOk(st.table) && |st.fat| >= 2
  {
    FullTo(st.table, |st.table|) && (fixed || |st.table| == 65536 || FreeCount(st.fat) == 0 || (!exact && st.free == 0))
  }

  /** The table is in order and as long as its chain, which is one of a well-formed FAT whose other chains are `others`. */
  ghost predicate Sound(g: Geo, fixed: bool, others: set<Chain>, st: State) {
    && InOrder(st.table) && 1 <= g.csize && |st.fat| == g.nFatent && 2 <= g.nFatent
    && WellFormed(st.fat, if st.chain == [] then others else others + {st.chain}) && st.chain !in others
    && (fixed ==> st.chain == [])
    && (!fixed ==> |st.table| == Entries(Times(g.csize, |st.chain|)))
  }

  /** One operation: what it does to the map of names, to the table, to the chain and to the rest of the volume. */
  ghost predicate Step(g: Geo, exact: bool, fixed: bool, st: State, op: Op, out: Report, st': State)
    requires SlotsOk(st.table) && SlotsOk(st'.table) && |st.fat| >= 2
  {
    var n, m, m' := op.name, Meaning(st.table), Meaning(st'.table);
    && |n| == 11 && File.Confined(g, st'.secs, st.store, st'.store) &&
    match op
    case Find(_) => st' == st && out == if n in m then Found else NotFound
    case Create(_) =>
      if n in m then st' == st && out == Exists
      else if IsFull(exact, fixed, st) then st' == st && out == NoRoom
      else out == Created && m' == m[n := NewSlot(n)] && exists k: nat :: Registered(st, st', n, k)
    case Delete(_) =>
      if n in m then
        && out == Deleted && m' == m - {n} && Lookup(st.table, n, 0).Some? && Lookup(st.table, n, 0).value < |st.table|
        && st'.table == Marked(st.table, Lookup(st.table, n, 0).value)
        && st'.chain == st.chain && st'.fat == st.fat && st'.free == st.free
      else st' == st && out == NotFound
  }

  /** The table with entry k marked deleted. */
  ghost function Marked(es: seq<Slot>, k: nat): seq<Slot>
    requires SlotsOk(es) && k < |es|
  {
    es[k := es[k][0 := 0xE5]]
  }

  /** A run: every operation takes the state the one before it left, and every state is sound. */
  ghost predicate Run(g: Geo, exact: bool, fixed: bool, others: set<Chain>, sts: seq<State>, ops: seq<Op>, outs: seq<Report>) {
    && |sts| == |ops| + 1 && |outs| == |ops|
    && (forall i {:trigger sts[i]} :: 0 <= i < |sts| ==> Sound(g, fixed, others, sts[i]))
    && (forall i {:trigger ops[i]} :: 0 <= i < |ops| ==> Steps(g, exact, fixed, sts[i], ops[i], outs[i], sts[i + 1]))
  }

  ghost predicate Steps(g: Geo, exact: bool, fixed: bool, st: State, op: Op, out: Report, st': State) {
    SlotsOk(st.table) && SlotsOk(st'.table) && |st.fat| >= 2 && Step(g, exact, fixed, st, op, out, st')
  }

  lemma StateIsSound(d: Dir)
    requires d.Valid() && InOrder(d.table)
    ensures Sound(d.fs.g, d.Static(), d.others, d.Snap())
    ensures d.Full() <==> IsFull(d.exact, d.Static(), d.Snap())
  {
    assert OpenTable(0);
    NoneFree(d.fs.fat, 2);
  }

  method Perform(d: Dir, op: Op) returns (out: Report)
    requires d.Valid() && InOrder(d.table) && NameOk(op.name)
    modifies d, d.fs, d.fs.win, d.fs.disk
    ensures d.Valid() && InOrder(d.table) && d.others == old(d.others) && |old(d.fs.fat)| >= 2
    ensures Step(d.fs.g, d.exact, d.Static(), old(d.Snap()), op, out, d.Snap())
  {
    MeaningOf(d.table, op.name);
    StateIsSound(d);
    d.fn := op.name;
    var res;
    ghost var k;
    res, k := d.DirFind();
    File.ConfinedSelf(d.fs.g, d.secs, d.fs.store);
    match op
    case Find(_) =>
      out := if res == FrOk then Found else NotFound;
    case Create(n) =>
      if res == FrOk { return Exists; }
      out := AddName(d, n, d.Snap());
    case Delete(n) =>
      if res != FrOk { return NotFound; }
      RemoveName(d, n, k, d.Snap());
      out := Deleted;
  }

  /** dir_register for a name that is not there. */
  method AddName(d: Dir, n: Name, ghost st: State) returns (out: Report)
    requires d.Valid() && InOrder(d.table) && NameOk(n) && d.fn == n && n !in Meaning(d.table) && st == d.Snap() && |st.fat| >= 2
    requires d.Full() <==> IsFull(d.exact, d.Static(), st)
    modifies d`dptr, d`clust, d`sect, d`ix, d`table, d`chain, d`secs
    modifies d.fs`wflag, d.fs`winsect, d.fs`store, d.fs`fat, d.fs`lastClst, d.fs`freeClst, d.fs`fsiFlag, d.fs.win, d.fs.disk
    ensures d.Valid() && InOrder(d.table) && Step(d.fs.g, d.exact, d.Static(), st, Create(n), out, d.Snap())
  {
    var res;
    ghost var k;
    res, k := d.DirRegister();
    out := if res == FrOk then Created else NoRoom;
  }

  /** dir_remove for a name that was found. */
  method RemoveName(d: Dir, n: Name, ghost k: nat, ghost st: State)
    requires d.Valid() && d.At(k) && InOrder(d.table) && NameOk(n) && Lookup(d.table, n, 0) == Some(k) && n in Meaning(d.table) && st == d.Snap() && |st.fat| >= 2
    modifies d`table, d.fs`wflag, d.fs`winsect, d.fs`store, d.fs.win, d.fs.disk
    ensures d.Valid() && InOrder(d.table) && Step(d.fs.g, d.exact, d.Static(), st, Delete(n), Deleted, d.Snap())
  {
    var res := d.DirRemove(k);
  }

  /** Every run of operations on a directory refines the map. */
  method Execute(d: Dir, ops: seq<Op>) returns (outs: seq<Report>, ghost sts: seq<State>)
    requires d.Valid() && InOrder(d.table)
    requires forall i {:trigger ops[i]} :: 0 <= i < |ops| ==> NameOk(ops[i].name)
    modifies d, d.fs, d.fs.win, d.fs.disk
    ensures d.Valid() && InOrder(d.table) && d.others == old(d.others)
    ensures Run(d.fs.g, d.exact, d.Static(), d.others, sts, ops, outs) && sts[0] == old(d.Snap()) && sts[|ops|] == d.Snap()
  {
    outs, sts := [], [d.Snap()];
    StateIsSound(d);
    ghost var others, st0 := d.others, d.Snap();
    for i := 0 to |ops|
      invariant d.Valid() && InOrder(d.table) && d.others == others
      invariant Run(d.fs.g, d.exact, d.Static(), others, sts, ops[..i], outs) && sts[0] == st0 && sts[i] == d.Snap()
    {
      var out := Perform(d, ops[i]);
      StateIsSound(d);
      RunExtends(d.fs.g, d.exact, d.Static(), others, sts, ops, i, outs, out, d.Snap());
      outs, sts := outs + [out], sts + [d.Snap()];
    }
    assert ops[..|ops|] == ops;
  }

  lemma RunExtends(g: Geo, exact: bool, fixed: bool, others: set<Chain>, sts: seq<State>, ops: seq<Op>, i: nat, outs: seq<Report>, out: Report, st: State)
    requires i < |ops| && Run(g, exact, fixed, others, sts, ops[..i], outs) && Sound(g, fixed, others, st)
    requires SlotsOk(sts[i].table) && |sts[i].fat| >= 2 && Step(g, exact, fixed, sts[i], ops[i], out, st)
    ensures Run(g, exact, fixed, others, sts + [st], ops[..i + 1], outs + [out])
  {
    var ops', sts', outs' := ops[..i + 1], sts + [st], outs + [out];
    SoundExtends(g, fixed, others, sts, st);
    forall j {:trigger ops'[j]} | 0 <= j < i + 1 ensures Steps(g, exact, fixed, sts'[j], ops'[j], outs'[j], sts'[j + 1]) {
      if j < i { assert Steps(g, exact, fixed, sts[j], ops[..i][j], outs[j], sts[j + 1]); }
    }
  }

  lemma SoundExtends(g: Geo, fixed: bool, others: set<Chain>, sts: seq<State>, st: State)
    requires Sound(g, fixed, others, st) && forall i {:trigger sts[i]} :: 0 <= i < |sts| ==> Sound(g, fixed, others, sts[i])
    ensures var sts' := sts + [st]; forall i {:trigger sts'[i]} :: 0 <= i < |sts'| ==> Sound(g, fixed, others, sts'[i])
  {
  }

  /** The greatest length the table can reach: fixed, or with all free clusters of the volume, at most 65536 entries. */
  ghost function Most(g: Geo, fixed: bool, st: State): nat
    requires |st.fat| >= 2
  {
    if fixed then |st.table| else Entries(Times(g.csize, |st.chain| + FreeCount(st.fat)))
  }

  /** The place of the first free entry from k on; the length of the table if there is none. */
  ghost function FreePlace(es: seq<Slot>, k: nat): nat
    requires SlotsOk(es) && k <= |es|
    decreases |es| - k
  {
    if k == |es| || IsFree(es[k]) then k else FreePlace(es, k + 1)
  }

  /** The table with one cleared cluster more. */
  ghost function Longer(g: Geo, es: seq<Slot>): seq<Slot> {
    es + ZeroSlots(if |es| + 16 * g.csize <= 65536 then 16 * g.csize else if |es| <= 65536 then 65536 - |es| else 0)
  }

  /** The reference: operations on a table that may grow to `most` entries. */
  ghost function Apply(g: Geo, most: nat, es: seq<Slot>, op: Op): (r: (seq<Slot>, Report))
    requires SlotsOk(es) && |op.name| == 11
  {
    var at := Lookup(es, op.name, 0);
    match op
    case Find(_) => (es, if at.Some? then Found else NotFound)
    case Create(n) =>
      var k := FreePlace(es, 0);
      if at.Some? then (es, Exists)
      else if k < |es| then (es[k := NewSlot(n)], Created)
      else if |es| >= most || k >= |Longer(g, es)| then (es, NoRoom)
      else (Longer(g, es)[k := NewSlot(n)], Created)
    case Delete(_) => if at.Some? && at.value < |es| then (Marked(es, at.value), Deleted) else (es, NotFound)
  }

  lemma {:induction false} FreePlaceIs(es: seq<Slot>, k: nat, i: nat)
    requires SlotsOk(es) && i <= k <= |es| && (k < |es| ==> IsFree(es[k])) && forall j {:trigger es[j]} :: 0 <= j < k ==> !IsFree(es[j])
    ensures FreePlace(es, i) == k
    decreases k - i
  {
    if i < k { FreePlaceIs(es, k, i + 1); }
  }

  /** Conservation along a run: the greatest length never moves. */
  lemma SameMost(g: Geo, others: set<Chain>, st: State, st': State)
    requires Sound(g, false, others, st) && Sound(g, false, others, st')
    ensures Most(g, false, st) == Most(g, false, st') && |st.table| <= Most(g, false, st)
  {
    Conservation(st.fat, st'.fat, others, st.chain, st'.chain);
    TimesMonotone(g.csize, |st.chain|, |st.chain| + FreeCount(st.fat));
  }

  /** With an exact count a table is full if and only if all its entries are used and it has its greatest length. */
  lemma FullIsLongest(g: Geo, fixed: bool, others: set<Chain>, st: State)
    requires Sound(g, fixed, others, st)
    ensures IsFull(true, fixed, st) <==> FullTo(st.table, |st.table|) && |st.table| >= Most(g, fixed, st)
  {
    if !fixed && FreeCount(st.fat) > 0 { TimesStrict(g.csize, |st.chain|, |st.chain| + FreeCount(st.fat)); }
  }

  /** An operation on a volume with an exact count does what the reference does. */
  lemma StepIsApply(g: Geo, fixed: bool, others: set<Chain>, st: State, op: Op, out: Report, st': State)
    requires Sound(g, fixed, others, st) && Sound(g, fixed, others, st') && NameOk(op.name) && Step(g, true, fixed, st, op, out, st')
    ensures Apply(g, Most(g, fixed, st), st.table, op) == (st'.table, out)
  {
    MeaningOf(st.table, op.name);
    LookupMeans(st.table, op.name, 0);
    FullIsLongest(g, fixed, others, st);
    if op.Create? && op.name !in Meaning(st.table) {
      if IsFull(true, fixed, st) {
        FreePlaceIs(st.table, |st.table|, 0);
      } else {
        var k: nat :| Registered(st, st', op.name, k);
        CreateIsApply(g, fixed, others, st, op.name, k, st');
      }
    }
  }

  lemma CreateIsApply(g: Geo, fixed: bool, others: set<Chain>, st: State, n: Name, k: nat, st': State)
    requires Sound(g, fixed, others, st) && Sound(g, fixed, others, st') && Registered(st, st', n, k)
    requires !IsFull(true, fixed, st) && Lookup(st.table, n, 0) == None
    ensures Apply(g, Most(g, fixed, st), st.table, Create(n)) == (st'.table, Created)
  {
    FullIsLongest(g, fixed, others, st);
    FreePlaceIs(st.table, k, 0);
    if k == |st.table| {
      assert |st'.table| == |Longer(g, st.table)|;
      assert Longer(g, st.table)[k := NewSlot(n)] == st'.table;
    }
  }

  /** On a volume with an exact count all tables and reports of a run are determined by the first table and its greatest length. */
  lemma RunIsDetermined(g: Geo, fixed: bool, others: set<Chain>, sts: seq<State>, ops: seq<Op>, outs: seq<Report>, i: nat)
    requires Run(g, true, fixed, others, sts, ops, outs) && i < |ops| && NameOk(ops[i].name)
    ensures Apply(g, Most(g, fixed, sts[0]), sts[i].table, ops[i]) == (sts[i + 1].table, outs[i])
  {
    assert Steps(g, true, fixed, sts[i], ops[i], outs[i], sts[i + 1]);
    StepIsApply(g, fixed, others, sts[i], ops[i], outs[i], sts[i + 1]);
    SameLength(g, fixed, others, sts, ops, outs, i);
    if !fixed { SameMost(g, others, sts[i], sts[0]); }
  }

  lemma {:induction false} SameLength(g: Geo, fixed: bool, others: set<Chain>, sts: seq<State>, ops: seq<Op>, outs: seq<Report>, i: nat)
    requires Run(g, true, fixed, others, sts, ops, outs) && i <= |ops|
    ensures fixed ==> |sts[i].table| == |sts[0].table|
  {
    if i > 0 {
      SameLength(g, fixed, others, sts, ops, outs, i - 1);
      assert Steps(g, true, fixed, sts[i - 1], ops[i - 1], outs[i - 1], sts[i]);
    }
  }
}
