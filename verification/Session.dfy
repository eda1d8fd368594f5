/** A file from its creation in a directory to the next mount: what was written is what is read back under its name. */
module Session {
  import opened Machine
  import opened Bits
  import opened Geometry
  import opened Chains
  import opened FileView
  import opened DataArea
  import opened Volume
  import opened DirTable
  import opened Directory
  import opened File
  import opened Durable
  import opened Lifecycle
  import opened Mount
  import Mkfs
  import FileRuns

  /** What f_open makes of a new entry: creation time, archive attribute, no cluster and size 0. */
  function CreatedSlot(t: FatType, e: Slot, tm: Word32): (r: Slot)
    requires |e| == 32
    ensures |r| == 32
  {
    seq(32, i requires 0 <= i < 32 =>
      if i == 11 then 0x20
      else if 14 <= i < 18 then DwordBytes(tm)[i - 14]
      else if t == Fat32 && 20 <= i < 22 then 0
      else if 26 <= i then 0
      else e[i])
  }

  /** Such an entry carries the name and describes an empty file. */
  lemma CreatedIsEmpty(t: FatType, n: Name, tm: Word32)
    requires |n| == 11
    ensures var r := CreatedSlot(t, NewSlot(n), tm); Matches(r, n) && r[0] == n[0] && Describes(t, r, [], 0)
  {
    var r := CreatedSlot(t, NewSlot(n), tm);
    assert r[..11] == n;
  }

  /** The entry of a file just created, by its bytes: the name, the archive attribute, the time, and zeros. */
  ghost predicate BornEntry(r: Slot, n: Name, tm: Word32) {
    && |r| == 32 && r[..11] == n && r[11] == 0x20 && r[12] == 0 && r[13] == 0 && Little(r, 14, 4) == tm
    && forall i {:trigger r[i]} :: 18 <= i < 32 ==> r[i] == 0
  }

  lemma CreatedMeans(t: FatType, n: Name, tm: Word32)
    requires |n| == 11
    ensures BornEntry(CreatedSlot(t, NewSlot(n), tm), n, tm)
  {
    var r := CreatedSlot(t, NewSlot(n), tm);
    assert r[..11] == n;
    DwordLittle(r, 14, tm);
  }

  ghost predicate OpenList(k: int) { true }

  /** The table t is in order and gives the map m with the name n added, whose entry is the k-th. */
  ghost predicate Listed(m: imap<Name, Slot>, t: seq<Slot>, n: Name, k: nat) {
    && SlotsOk(t) && NameOk(n) && k < |t|
    && forall j {:trigger OpenList(j)} :: OpenList(j) ==> InOrder(t) && Lookup(t, n, 0) == Some(k) && Meaning(t) == m[n := t[k]]
  }

  lemma ListedOn(m: imap<Name, Slot>, t: seq<Slot>, t': seq<Slot>, n: Name, k: nat)
    requires Listed(m, t, n, k) && Renewed(t, t', n, k)
    ensures Listed(m, t', n, k)
  {
    assert OpenList(0);
    RenewMeaning(t, t', n, k);
  }

  lemma ListedIsFound(m: imap<Name, Slot>, t: seq<Slot>, n: Name, k: nat)
    requires Listed(m, t, n, k)
    ensures InOrder(t) && Lookup(t, n, 0) == Some(k) && Matches(t[k], n) && t[k][0] != 0 && Meaning(t) == m[n := t[k]]
  {
    assert OpenList(0);
    LookupMeans(t, n, 0);
  }

  /** A new entry in a table in order is found. */
  lemma NewIsFound(pre: State, post: State, n: Name, k: nat)
    requires InOrder(pre.table) && NameOk(n) && n !in Meaning(pre.table) && Registered(pre, post, n, k)
    ensures SlotsOk(post.table) && Lookup(post.table, n, 0) == Some(k) && post.table[k] == NewSlot(n)
  {
    MeaningOf(pre.table, n);
    var es := if k < |pre.table| then pre.table else pre.table + ZeroSlots(|post.table| - k);
    assert Lengthened(pre.table, es);
    StretchKeeps(pre.table, es);
    StretchLaw(pre.table, es, n, 0);
    assert post.table == es[k := NewSlot(n)];
    assert FirstFree(es, k);
    RegisterLaw(es, n, k);
  }

  /** All chains besides a new, empty file: the directory's and those it leaves alone. */
  ghost function ChainsBeside(x: Chain, others: set<Chain>): set<Chain> { if x == [] then others else others + {x} }

  /** Every sector of a directory is in the static root area or in a cluster of the given chains. */
  ghost predicate Placed(g: Geo, others: set<Chain>, secs: seq<nat>, size: nat) {
    && SecsOk(secs, size)
    && forall k {:trigger secs[k]} :: 0 <= k < |secs| ==> FatEnd(g) <= secs[k] < NONE && secs[k] < VolumeEnd(g) && (secs[k] < g.database || !SectApart(g, others, secs[k]))
  }

  lemma DirIsPlaced(d: Dir)
    requires d.Valid()
    ensures Placed(d.fs.g, ChainsBeside(d.chain, d.others), d.secs, |d.fs.store|) && d.table == TableOf(d.secs, d.fs.store)
    ensures d.fs.Valid() && DataOk(d.fs.g, |d.fs.store|) && WellFormed(d.fs.fat, ChainsBeside(d.chain, d.others)) && d.chain !in d.others
    ensures [] !in ChainsBeside(d.chain, d.others)
  {
    assert OpenTable(0);
    var g, secs, x, all := d.fs.g, d.secs, d.chain, ChainsBeside(d.chain, d.others);
    assert forall y :: y in all ==> IsChain(d.fs.fat, y);
    forall k {:trigger secs[k]} | 0 <= k < |secs| ensures secs[k] < NONE && secs[k] < VolumeEnd(g) && (secs[k] < g.database || !SectApart(g, all, secs[k])) {
      if x != [] {
        var p := SectorsFrom(g, x, k);
        ClusterInside(g, x[p]);
        InsideVolume(g, x[p], secs[k]);
        InsideIsNotApart(g, all, x, p, secs[k]);
      }
    }
  }

  /** None of the sectors is in a cluster of the given chains. */
  ghost predicate AllApart(g: Geo, others: set<Chain>, secs: seq<nat>) {
    forall k {:trigger secs[k]} :: 0 <= k < |secs| ==> SectApart(g, others, secs[k])
  }

  /** A sector outside the data area is in no cluster. */
  lemma OutsideData(g: Geo, fat: Fat, chains: set<Chain>, others: set<Chain>, s: nat)
    requires WellFormed(fat, chains) && others <= chains && |fat| == g.nFatent && s < g.database
    ensures SectApart(g, others, s)
  {
    forall y, i {:trigger y[i], y in others} | y in others && 0 <= i < |y| ensures !InCluster(g, y[i], s) {
      assert IsChain(fat, y);
      if InCluster(g, y[i], s) { InsideVolume(g, y[i], s); }
    }
  }

  /** A directory is in no cluster of another chain. */
  lemma DirIsApart(d: Dir)
    requires d.Valid()
    ensures AllApart(d.fs.g, d.others, d.secs)
  {
    assert OpenTable(0);
    var secs := d.secs;
    forall k {:trigger secs[k]} | 0 <= k < |secs| ensures SectApart(d.fs.g, d.others, secs[k]) {
      if d.chain != [] {
        ChainsApart(d.fs.g, d.fs.fat, d.others, d.chain, k);
      } else {
        OutsideData(d.fs.g, d.fs.fat, d.others, d.others, secs[k]);
      }
    }
  }

  /** A file is in no cluster of another chain. */
  lemma FileIsApart(f: Fil, rest: set<Chain>)
    requires f.Valid() && rest <= f.others
    ensures AllApart(f.fs.g, rest, f.secs) && (InfoSafe(f.fs.g) ==> SectApart(f.fs.g, rest, f.fs.g.volbase + 1))
  {
    var secs := f.secs;
    forall k {:trigger secs[k]} | 0 <= k < |secs| ensures SectApart(f.fs.g, rest, secs[k]) {
      f.OwnSectorApart(k);
      assert OpenSect(0);
    }
    VolumeFacts(f);
    assert OpenCore(0);
    assert OpenChain(0) && OpenData(0);
    if InfoSafe(f.fs.g) { OutsideData(f.fs.g, f.fs.fat, f.Everything(), rest, f.fs.g.volbase + 1); }
  }

  /** Between two images the data of the given chains is the same. */
  ghost predicate DataKept(g: Geo, others: set<Chain>, s: seq<Byte>, r: seq<Byte>) {
    |r| == |s| && forall k {:trigger OpenList(k)} :: OpenList(k) ==>
      forall a {:trigger r[a]} :: 0 <= a < |s| && OutsideFats(g, a) && !SectApart(g, others, a / 512) ==> r[a] == s[a]
  }

  lemma DataKeptTrans(g: Geo, others: set<Chain>, s: seq<Byte>, r: seq<Byte>, t: seq<Byte>)
    requires DataKept(g, others, s, r) && DataKept(g, others, r, t)
    ensures DataKept(g, others, s, t)
  {
    assert OpenList(0);
  }

  /** A change confined to sectors that are apart. */
  lemma ConfinedKeepsData(g: Geo, others: set<Chain>, secs: seq<nat>, s: seq<Byte>, r: seq<Byte>)
    requires Confined(g, secs, s, r) && AllApart(g, others, secs)
    ensures DataKept(g, others, s, r)
  {
    assert OpenConfined(0);
    forall a {:trigger r[a]} | 0 <= a < |s| && OutsideFats(g, a) && !SectApart(g, others, a / 512) ensures r[a] == s[a] {
      assert forall k {:trigger secs[k]} :: 0 <= k < |secs| ==> secs[k] != a / 512;
    }
  }

  /** A run on a file. */
  lemma KeptKeepsData(g: Geo, others: set<Chain>, rest: set<Chain>, s: seq<Byte>, r: seq<Byte>)
    requires FileRuns.Kept(g, others, s, r) && rest <= others
    ensures DataKept(g, rest, s, r)
  {
    assert FileRuns.OpenKept(0);
    forall a {:trigger r[a]} | 0 <= a < |s| && OutsideFats(g, a) && !SectApart(g, rest, a / 512) ensures r[a] == s[a] {
      FewerApart(g, others, rest, a / 512);
    }
  }

  /** The record f_sync makes. */
  lemma RecordKeepsData(g: Geo, rest: set<Chain>, own: seq<nat>, s: seq<Byte>, r: seq<Byte>, dirSect: nat, o: nat, e: Slot)
    requires Recorded(g, own, s, r, dirSect, o, e) && AllApart(g, rest, own) && SectApart(g, rest, dirSect) && SectApart(g, rest, g.volbase + 1)
    ensures DataKept(g, rest, s, r)
  {
    assert OpenRecord(0);
    forall a {:trigger r[a]} | 0 <= a < |s| && OutsideFats(g, a) && !SectApart(g, rest, a / 512) ensures r[a] == s[a] {
      assert forall k {:trigger own[k]} :: 0 <= k < |own| ==> own[k] != a / 512;
    }
  }

  /** A change in a directory leaves the boot record and everything outside the volume alone. */
  lemma DirKeepsInside(g: Geo, others: set<Chain>, secs: seq<nat>, s: seq<Byte>, r: seq<Byte>)
    requires Confined(g, secs, s, r) && Placed(g, others, secs, |s|) && g.volbase < g.fatbase && FatEnd(g) <= g.database
    ensures OutsideKept(g, s, r)
  {
    assert OpenConfined(0);
  }

  /** f_open's change of a new entry. */
  method InitEntry(d: Dir, tm: Word32, ghost m: imap<Name, Slot>, ghost n: Name, ghost k: nat)
    requires d.Valid() && d.At(k) && Listed(m, d.table, n, k) && d.table[k] == NewSlot(n)
    modifies d`table, d.fs`wflag, d.fs`winsect, d.fs`store, d.fs.win, d.fs.disk
    ensures d.Valid() && d.At(k) && Listed(m, d.table, n, k) && Describes(d.fs.g.fsType, d.table[k], [], 0) && BornEntry(d.table[k], n, tm)
    ensures d.fs.winsect == d.sect && Confined(d.fs.g, d.secs, old(d.fs.store), d.fs.store)
  {
    d.LoadEntry(k);
    var o := d.dptr % 512;
    var e := CreatedSlot(d.fs.g.fsType, d.fs.win[o..o + 32], tm);
    ghost var es := d.table;
    CreatedIsEmpty(d.fs.g.fsType, n, tm);
    CreatedMeans(d.fs.g.fsType, n, tm);
    d.StoreEntry(e, k);
    assert Patch(es[k], 0, e) == e;
    ListedOn(m, es, d.table, n, k);
  }

  /** Where entry k is. */
  lemma EntryIsThere(d: Dir, k: nat)
    requires d.Valid() && d.At(k)
    ensures SecsOk(d.secs, |d.fs.store|) && k / 16 < |d.secs| && d.sect == d.secs[k / 16] && d.dptr % 512 == 32 * (k % 16)
    ensures SlotAddr(d.secs, k) == 512 * d.sect + d.dptr % 512 && 512 * d.sect + 512 <= |d.fs.store| && d.table[k] == EntryOf(d.fs.store, d.sect, d.dptr % 512)
    ensures EntryPlace(d.fs.g, ChainsBeside(d.chain, d.others), |d.fs.store|, d.sect, d.dptr % 512)
  {
    DirIsPlaced(d);
    d.AddressOf(k);
    assert Directory.OpenAt(0);
    OffsetFacts(d.dptr, |d.secs|);
  }

  /** What a new entry takes: nothing, or one cluster behind a table of which every entry was used. */
  ghost predicate Hosted(pre: State, chain: Chain, fat: Fat, free: nat) {
    SlotsOk(pre.table) &&
    if FullTo(pre.table, |pre.table|) then pre.chain <= chain && |chain| == |pre.chain| + 1 && free == CountLess(pre)
    else chain == pre.chain && fat == pre.fat && free == pre.free
  }

  /** A change in the directory's own sectors. */
  lemma OnlyDirChanged(d: Dir, s: seq<Byte>)
    requires d.Valid() && d.fs.g.volbase < d.fs.g.fatbase && Confined(d.fs.g, d.secs, s, d.fs.store)
    ensures OutsideKept(d.fs.g, s, d.fs.store) && DataKept(d.fs.g, d.others, s, d.fs.store)
  {
    DirIsPlaced(d);
    DirIsApart(d);
    DirKeepsInside(d.fs.g, ChainsBeside(d.chain, d.others), d.secs, s, d.fs.store);
    ConfinedKeepsData(d.fs.g, d.others, d.secs, s, d.fs.store);
  }

  /** The name gets an entry unless it has one. */
  method AddName(d: Dir, n: Name, tm: Word32) returns (res: FResult, ghost k: nat)
    requires d.Valid() && InOrder(d.table) && NameOk(n) && d.fs.g.volbase < d.fs.g.fatbase
    modifies d, d.fs, d.fs.win, d.fs.disk
    ensures d.Valid() && d.others == old(d.others)
    ensures res == if n in Meaning(old(d.table)) then FrExist else if old(d.Full()) then FrDenied else FrOk
    ensures res == FrOk ==> d.At(k) && d.fs.winsect == d.sect && Listed(Meaning(old(d.table)), d.table, n, k) && Describes(d.fs.g.fsType, d.table[k], [], 0) && BornEntry(d.table[k], n, tm)
    ensures if res == FrOk then Hosted(old(d.Snap()), d.chain, d.fs.fat, d.fs.freeClst) else d.Snap() == old(d.Snap())
    ensures OutsideKept(d.fs.g, old(d.fs.store), d.fs.store) && DataKept(d.fs.g, d.others, old(d.fs.store), d.fs.store)
  {
    MeaningOf(d.table, n);
    ghost var pre := d.Snap();
    d.fn := n;
    res, k := d.DirFind();
    if res == FrOk { return FrExist, k; }
    res, k := RegisterName(d, n, tm, pre);
    OnlyDirChanged(d, pre.store);
  }

  /** dir_register and f_open's change of the new entry. */
  method RegisterName(d: Dir, n: Name, tm: Word32, ghost pre: State) returns (res: FResult, ghost k: nat)
    requires d.Valid() && InOrder(d.table) && NameOk(n) && d.fn == n && n !in Meaning(d.table) && pre == d.Snap()
    modifies d`dptr, d`clust, d`sect, d`ix, d`table, d`chain, d`secs
    modifies d.fs`wflag, d.fs`winsect, d.fs`store, d.fs`fat, d.fs`lastClst, d.fs`freeClst, d.fs`fsiFlag, d.fs.win, d.fs.disk
    ensures d.Valid() && (res == if old(d.Full()) then FrDenied else FrOk) && Confined(d.fs.g, d.secs, pre.store, d.fs.store)
    ensures res == FrOk ==> d.At(k) && d.fs.winsect == d.sect && Listed(Meaning(pre.table), d.table, n, k) && Describes(d.fs.g.fsType, d.table[k], [], 0) && BornEntry(d.table[k], n, tm)
    ensures if res == FrOk then Hosted(pre, d.chain, d.fs.fat, d.fs.freeClst) else d.Snap() == pre
  {
    res, k := d.DirRegister();
    if res == FrOk {
      NewIsFound(pre, d.Snap(), n, k);
      ghost var s1 := d.fs.store;
      InitEntry(d, tm, Meaning(pre.table), n, k);
      ConfinedTrans(d.fs.g, d.secs, pre.store, s1, d.fs.store);
    }
  }

  /** f_open of a new file: an empty file that f_sync has to record, and the place of its entry. */
  method CreateFile(d: Dir, n: Name, tm: Word32) returns (res: FResult, f: Fil?, ghost k: nat)
    requires d.Valid() && InOrder(d.table) && NameOk(n) && d.fs.g.volbase < d.fs.g.fatbase
    modifies d, d.fs, d.fs.win, d.fs.disk
    ensures d.Valid() && d.others == old(d.others) && (res == FrOk <==> f != null)
    ensures res == if n in Meaning(old(d.table)) then FrExist else if old(d.Full()) then FrDenied else FrOk
    ensures res == FrOk ==> d.At(k) && Listed(Meaning(old(d.table)), d.table, n, k) && BornEntry(d.table[k], n, tm)
    ensures if res == FrOk then Hosted(old(d.Snap()), d.chain, d.fs.fat, d.fs.freeClst) else d.Snap() == old(d.Snap())
    ensures res == FrOk ==> fresh(f) && fresh(f.buf) && f.fs == d.fs && f.Valid() && f.readable && f.writable && (d.exact ==> f.exact)
    ensures res == FrOk ==> FileRuns.ImageOf(f) == FileRuns.Image([], 0, true) && f.watched == [] && f.chain == [] && f.others == ChainsBeside(d.chain, d.others)
    ensures OutsideKept(d.fs.g, old(d.fs.store), d.fs.store) && DataKept(d.fs.g, d.others, old(d.fs.store), d.fs.store)
  {
    f := null;
    res, k := AddName(d, n, tm);
    if res == FrOk { f := OpenNew(d, k); }
  }

  /** The end of f_open on the entry in the window. */
  method OpenNew(d: Dir, ghost k: nat) returns (f: Fil)
    requires d.Valid() && d.At(k) && d.fs.winsect == d.sect && Describes(d.fs.g.fsType, d.table[k], [], 0)
    ensures fresh(f) && fresh(f.buf) && f.fs == d.fs && f.Valid() && f.readable && f.writable && (d.exact ==> f.exact)
    ensures FileRuns.ImageOf(f) == FileRuns.Image([], 0, true) && f.watched == [] && f.chain == [] && f.others == ChainsBeside(d.chain, d.others)
  {
    var e := EntryInWindow(d, k);
    DirIsPlaced(d);
    assert d.exact ==> d.fs.CountOk() by { assert OpenTable(0); }
    f := new Fil(d.fs, true, true, LdClust(d.fs.g.fsType, e), LdDword(e, 28), [], ChainsBeside(d.chain, d.others));
    f.modified := true;
  }

  method EntryInWindow(d: Dir, ghost k: nat) returns (e: Slot)
    requires d.Valid() && d.At(k) && d.fs.winsect == d.sect
    ensures e == d.table[k]
  {
    EntryIsThere(d, k);
    DirIsPlaced(d);
    assert d.fs.WindowFacts() by { assert Unseal(0); }
    var o := d.dptr % 512;
    e := d.fs.win[o..o + 32];
    assert e == EntryOf(d.fs.store, d.sect, o);
  }

  /** A run on a file leaves a directory alone. */
  lemma KeptTable(g: Geo, others: set<Chain>, secs: seq<nat>, s: seq<Byte>, r: seq<Byte>)
    requires Placed(g, others, secs, |s|) && FileRuns.Kept(g, others, s, r)
    ensures TableOf(secs, r) == TableOf(secs, s)
  {
    assert FileRuns.OpenKept(0);
    var es, es' := TableOf(secs, s), TableOf(secs, r);
    forall j | 0 <= j < |es| ensures es'[j] == es[j] {
      var a := SlotAddr(secs, j);
      assert FatEnd(g) <= secs[j / 16];
      forall i | 0 <= i < 32 ensures es'[j][i] == es[j][i] { assert (a + i) / 512 == secs[j / 16] && es'[j][i] == r[a + i]; }
    }
  }

  /** f_sync changes the file's own entry of a directory and no other. */
  lemma RecordedTable(g: Geo, own: seq<nat>, secs: seq<nat>, s: seq<Byte>, r: seq<Byte>, k: nat, e: Slot)
    requires SecsOk(secs, |s|) && k < Entries(|secs|) && Recorded(g, own, s, r, secs[k / 16], 32 * (k % 16), e)
    requires forall j {:trigger secs[j]} :: 0 <= j < |secs| ==> secs[j] != g.volbase + 1 && secs[j] !in own
    ensures TableOf(secs, r) == TableOf(secs, s)[k := e]
  {
    assert OpenRecord(0);
    var es, es', at := TableOf(secs, s), TableOf(secs, r), SlotAddr(secs, k);
    forall j | 0 <= j < |es| ensures es'[j] == es[k := e][j] {
      var a := SlotAddr(secs, j);
      if j == k {
        assert es'[j] == EntryOf(r, secs[k / 16], 32 * (k % 16));
      } else {
        SlotsApart(secs, |s|, j, k);
        forall i | 0 <= i < 32 ensures es'[j][i] == es[j][i] { assert (a + i) / 512 == secs[j / 16] && es'[j][i] == r[a + i]; }
      }
    }
  }

  /** A directory and a file share no sector. */
  lemma NotInDirectory(f: Fil, secs: seq<nat>, j: nat)
    requires f.Valid() && f.watched == [] && Placed(f.fs.g, f.others, secs, |f.fs.store|) && j < |secs| && InfoSafe(f.fs.g)
    ensures secs[j] !in f.secs && secs[j] != f.fs.g.volbase + 1
  {
    PlaceIsApart(f, secs[j], 0);
    VolumeFacts(f);
  }

  /** f_sync of a file whose entry is the k-th of a directory with the sectors secs. */
  method SaveFile(f: Fil, dirSect: Word32, o: nat, tm: Word32, ghost secs: seq<nat>, ghost m: imap<Name, Slot>, ghost n: Name, ghost k: nat, ghost rest: set<Chain>)
    requires f.Valid() && f.modified && f.watched == [] && InfoSafe(f.fs.g) && Mountable(f.fs.g, f.fs.store) && Placed(f.fs.g, f.others, secs, |f.fs.store|)
    requires k < Entries(|secs|) && dirSect == secs[k / 16] && o == 32 * (k % 16) && Listed(m, TableOf(secs, f.fs.store), n, k)
    requires rest <= f.others && AllApart(f.fs.g, rest, secs)
    modifies f`dirty, f`modified, f.fs`wflag, f.fs`winsect, f.fs`store, f.fs`fsiFlag, f.fs.win, f.fs.disk
    ensures f.Valid() && !f.dirty && !f.fs.wflag && f.fs.disk[..] == f.fs.store && Mountable(f.fs.g, f.fs.store) && |f.fs.store| == |old(f.fs.store)|
    ensures Describes(f.fs.g.fsType, EntryOf(f.fs.store, dirSect, o), f.chain, |f.content|) && NotAmong(f.secs, dirSect)
    ensures Listed(m, TableOf(secs, f.fs.store), n, k) && DataKept(f.fs.g, rest, old(f.fs.store), f.fs.store)
    ensures HintsCurrent(f.fs.g, f.fs.store, f.fs.freeClst, f.fs.lastClst)
  {
    ghost var s := f.fs.store;
    ghost var e := Updated(f.fs.g.fsType, EntryOf(s, dirSect, o), f.sclust, f.objsize, tm);
    PlaceIsApart(f, dirSect, o);
    forall j {:trigger secs[j]} | 0 <= j < |secs| ensures secs[j] !in f.secs && secs[j] != f.fs.g.volbase + 1 { NotInDirectory(f, secs, j); }
    FileIsApart(f, rest);
    ghost var own, c, size := f.secs, f.sclust, f.objsize;
    SyncToMedium(f, dirSect, o, tm);
    EntryRenewed(f.fs.g, own, secs, s, f.fs.store, m, n, k, c, size, tm);
    RecordKeepsData(f.fs.g, rest, own, s, f.fs.store, dirSect, o, e);
  }

  /** What f_sync makes of the directory. */
  lemma EntryRenewed(g: Geo, own: seq<nat>, secs: seq<nat>, s: seq<Byte>, r: seq<Byte>, m: imap<Name, Slot>, n: Name, k: nat, sclust: Word32, size: Word32, tm: Word32)
    requires SecsOk(secs, |s|) && k < Entries(|secs|) && Listed(m, TableOf(secs, s), n, k)
    requires Recorded(g, own, s, r, secs[k / 16], 32 * (k % 16), Updated(g.fsType, EntryOf(s, secs[k / 16], 32 * (k % 16)), sclust, size, tm))
    requires forall j {:trigger secs[j]} :: 0 <= j < |secs| ==> secs[j] != g.volbase + 1 && secs[j] !in own
    ensures Listed(m, TableOf(secs, r), n, k)
  {
    var es, e0 := TableOf(secs, s), EntryOf(s, secs[k / 16], 32 * (k % 16));
    RecordedTable(g, own, secs, s, r, k, Updated(g.fsType, e0, sclust, size, tm));
    ListedIsFound(m, es, n, k);
    assert es[k] == e0;
    NameKept(g.fsType, e0, sclust, size, tm);
    ListedOn(m, es, TableOf(secs, r), n, k);
  }

  /** What a file's run leaves modified stays modified. */
  lemma {:induction false} StaysModified(g: Geo, others: set<Chain>, exact: bool, sts: seq<FileRuns.State>, ops: seq<FileRuns.Op>, outs: seq<FileRuns.Report>, i: nat)
    requires FileRuns.Run(g, others, exact, sts, ops, outs) && sts[0].m.modified && i <= |ops|
    ensures sts[i].m.modified
  {
    if i > 0 {
      StaysModified(g, others, exact, sts, ops, outs, i - 1);
      assert FileRuns.Step(g, exact, sts[i - 1], ops[i - 1], outs[i - 1], sts[i]);
    }
  }

  /** Where dir_sdi looks for the table. */
  lemma DirStart(d: Dir)
    requires d.Valid()
    ensures if Start(d.fs.g, d.sclust) == 0 then d.chain == [] && RootOk(d.fs.g) else d.chain != [] && d.chain[0] == Start(d.fs.g, d.sclust)
  {
    assert OpenTable(0);
  }

  /** The sectors of the table of a directory. */
  ghost function DirSectors(g: Geo, sclust: nat, x: Chain): seq<nat>
    requires Clusters(g, x)
  {
    if Start(g, sclust) == 0 then Run(g.dirbase, g.nRootdir / 16) else Sectors(g, x)
  }

  lemma DirSecs(d: Dir)
    requires d.Valid()
    ensures Clusters(d.fs.g, d.chain) && d.secs == DirSectors(d.fs.g, d.sclust, d.chain)
  {
    assert OpenTable(0);
  }

  /** What is known of a directory and of a file in it, once both are on the medium. */
  datatype Home = Home(sclust: Word32, chain: Chain, others: set<Chain>, secs: seq<nat>, k: nat)

  ghost predicate AtHome(g: Geo, s: seq<Byte>, fat: Fat, h: Home, n: Name, x: Chain) {
    && Clusters(g, h.chain) && h.secs == DirSectors(g, h.sclust, h.chain) && SecsOk(h.secs, |s|) && h.k < Entries(|h.secs|)
    && (if Start(g, h.sclust) == 0 then h.chain == [] && RootOk(g) else h.chain != [] && h.chain[0] == Start(g, h.sclust))
    && WellFormed(fat, ChainsBeside(x, ChainsBeside(h.chain, h.others))) && x !in ChainsBeside(h.chain, h.others) && h.chain !in h.others
    && |n| == 11 && Lookup(TableOf(h.secs, s), n, 0) == Some(h.k)
  }

  /** Open the directory on a mounted volume and look the name up. */
  method FindFile(fs: Fatfs, sclust: Word32, n: Name, ghost h: Home, ghost x: Chain) returns (dirSect: Word32, o: nat)
    requires fs.Valid() && DataOk(fs.g, |fs.store|) && AtHome(fs.g, fs.store, fs.fat, h, n, x) && h.sclust == sclust
    modifies fs, fs.win, fs.disk
    ensures fs.Valid() && fs.store == old(fs.store) && fs.fat == old(fs.fat) && fs.freeClst == old(fs.freeClst)
    ensures dirSect == h.secs[h.k / 16] && o == 32 * (h.k % 16)
  {
    ghost var others := ChainsBeside(x, h.others);
    assert ChainsBeside(h.chain, others) == ChainsBeside(x, ChainsBeside(h.chain, h.others));
    var d := new Dir(fs, sclust, n, h.chain, others);
    DirSecs(d);
    DirIsPlaced(d);
    var res;
    ghost var k;
    res, k := d.DirFind();
    EntryIsThere(d, k);
    DirIsPlaced(d);
    dirSect, o := d.sect, d.dptr % 512;
  }

  /** A mount of the medium; then the file is opened by its name and read from start to end. */
  method MountAndRead(disk: array<Byte>, sclust: Word32, n: Name, ghost g: Geo, ghost s: seq<Byte>, ghost fat: Fat, ghost h: Home, ghost x: Chain, ghost data: seq<Byte>)
    returns (got: seq<Byte>, f: Fil)
    requires disk[..] == s && Mountable(g, s) && |s| <= 512 * NONE && Fits(g, |s|) && g.volbase < g.fatbase && Mirrored(g, s) && IsTable(g, s, fat) && DataOk(g, |s|)
    requires AtHome(g, s, fat, h, n, x) && h.sclust == sclust && Clusters(g, x) && OnMedium(data, Sectors(g, x), s)
    requires FatEnd(g) <= h.secs[h.k / 16] && NotAmong(Sectors(g, x), h.secs[h.k / 16])
    requires Describes(g.fsType, EntryOf(s, h.secs[h.k / 16], 32 * (h.k % 16)), x, |data|)
    modifies disk
    ensures got == data && fresh(f) && fresh(f.fs) && f.fs.disk == disk && f.fs.g == g && f.Valid() && f.content == got
    ensures f.chain == x && f.others == ChainsBeside(h.chain, h.others) && f.fs.fat == fat && FileRuns.Kept(g, f.others, s, f.fs.store)
    ensures 512 * g.volbase + 1024 <= |s| && (CountFits(g, fat, Hints(g, s).freeClst) ==> f.exact)
  {
    var fs := MountAgain(disk, g, s, fat);
    got, f := OpenAndRead(fs, sclust, n, h, x, Sectors(g, x), data);
  }

  /** Open the file by its name on a mounted volume and read it. */
  method OpenAndRead(fs: Fatfs, sclust: Word32, n: Name, ghost h: Home, ghost x: Chain, ghost own: seq<nat>, ghost data: seq<Byte>) returns (got: seq<Byte>, f: Fil)
    requires fs.Valid() && DataOk(fs.g, |fs.store|) && AtHome(fs.g, fs.store, fs.fat, h, n, x) && h.sclust == sclust
    requires Clusters(fs.g, x) && own == Sectors(fs.g, x) && OnMedium(data, own, fs.store)
    requires FatEnd(fs.g) <= h.secs[h.k / 16] && NotAmong(own, h.secs[h.k / 16])
    requires Describes(fs.g.fsType, EntryOf(fs.store, h.secs[h.k / 16], 32 * (h.k % 16)), x, |data|)
    modifies fs, fs.win, fs.disk
    ensures got == data && fresh(f) && f.fs == fs && f.Valid() && f.content == got
    ensures f.chain == x && f.others == ChainsBeside(h.chain, h.others) && fs.fat == old(fs.fat) && FileRuns.Kept(fs.g, f.others, old(fs.store), fs.store)
    ensures old(fs.CountOk()) ==> f.exact
  {
    ghost var s := fs.store;
    var dirSect, o := FindFile(fs, sclust, n, h, x);
    f := OpenEntry(fs, dirSect, o, x, ChainsBeside(h.chain, h.others), own, |data|);
    OneContent(data, f.content, own, s);
    got := ReadAll(f);
  }

  method ReadAll(f: Fil) returns (got: seq<Byte>)
    requires f.Valid() && f.readable && f.fptr == 0
    modifies f`clust, f`ix, f`dirty, f`sect, f`fptr, f.buf, f.fs`store, f.fs`wflag, f.fs`winsect, f.fs.win, f.fs.disk
    ensures got == f.content && f.Valid() && FileRuns.Kept(f.fs.g, f.others, old(f.fs.store), f.fs.store)
  {
    got := FileRuns.ReadBytes(f, f.objsize);
    FileRuns.OwnChangesOnly(f, old(f.fs.store));
  }

  /** Any run on a file that f_sync has to record, and then f_sync. */
  method RunAndSave(f: Fil, ops: seq<FileRuns.Op>, dirSect: Word32, o: nat, tm: Word32, ghost secs: seq<nat>, ghost m: imap<Name, Slot>, ghost n: Name, ghost k: nat, ghost rest: set<Chain>)
    returns (outs: seq<FileRuns.Report>, ghost sts: seq<FileRuns.State>)
    requires f.Valid() && f.readable && f.writable && f.modified && f.watched == []
    requires forall i {:trigger ops[i]} :: 0 <= i < |ops| && ops[i].Write? ==> |ops[i].data| <= 0xFFFF_FFFF
    requires InfoSafe(f.fs.g) && Mountable(f.fs.g, f.fs.store) && Placed(f.fs.g, f.others, secs, |f.fs.store|)
    requires k < Entries(|secs|) && dirSect == secs[k / 16] && o == 32 * (k % 16) && Listed(m, TableOf(secs, f.fs.store), n, k)
    requires rest <= f.others && AllApart(f.fs.g, rest, secs)
    modifies f, f.buf, f.fs, f.fs.win, f.fs.disk
    ensures FileRuns.Run(f.fs.g, f.others, f.exact, sts, ops, outs) && sts[0] == old(FileRuns.StateOf(f))
    ensures sts[|ops|].m.bytes == f.content && sts[|ops|].chain == f.chain && sts[|ops|].fat == f.fs.fat
    ensures f.Valid() && f.others == old(f.others) && !f.dirty && !f.fs.wflag && f.fs.disk[..] == f.fs.store && Mountable(f.fs.g, f.fs.store)
    ensures |f.fs.store| == |old(f.fs.store)| && Describes(f.fs.g.fsType, EntryOf(f.fs.store, dirSect, o), f.chain, |f.content|) && NotAmong(f.secs, dirSect)
    ensures Listed(m, TableOf(secs, f.fs.store), n, k) && DataKept(f.fs.g, rest, old(f.fs.store), f.fs.store)
    ensures HintsCurrent(f.fs.g, f.fs.store, f.fs.freeClst, f.fs.lastClst)
  {
    VolumeFacts(f);
    ghost var s := f.fs.store;
    outs, sts := FileRuns.Execute(f, ops);
    StaysModified(f.fs.g, f.others, f.exact, sts, ops, outs, |ops|);
    ghost var s1 := f.fs.store;
    KeptTable(f.fs.g, f.others, secs, s, s1);
    KeptInside(f.fs.g, f.others, s, s1);
    MountableKept(f.fs.g, s, s1);
    KeptKeepsData(f.fs.g, f.others, rest, s, s1);
    SaveFile(f, dirSect, o, tm, secs, m, n, k, rest);
    DataKeptTrans(f.fs.g, rest, s, s1, f.fs.store);
  }

  /** After f_sync everything the next session needs is on the medium. */
  lemma Saved(f: Fil, h: Home, m: imap<Name, Slot>, n: Name)
    requires f.Valid() && !f.dirty && !f.fs.wflag && f.others == ChainsBeside(h.chain, h.others) && h.chain !in h.others
    requires Clusters(f.fs.g, h.chain) && h.secs == DirSectors(f.fs.g, h.sclust, h.chain) && SecsOk(h.secs, |f.fs.store|) && h.k < Entries(|h.secs|)
    requires if Start(f.fs.g, h.sclust) == 0 then h.chain == [] && RootOk(f.fs.g) else h.chain != [] && h.chain[0] == Start(f.fs.g, h.sclust)
    requires Listed(m, TableOf(h.secs, f.fs.store), n, h.k)
    ensures AtHome(f.fs.g, f.fs.store, f.fs.fat, h, n, f.chain)
  {
    ListedIsFound(m, TableOf(h.secs, f.fs.store), n, h.k);
    SyncedFacts(f);
  }

  /** The file is open on a volume mounted from the disk, and the directory lists it with its chain and size. */
  ghost predicate ReadBack(f: Fil, disk: array<Byte>, g: Geo, secs: seq<nat>, others: set<Chain>, m: imap<Name, Slot>, n: Name, st: FileRuns.State)
    reads f, f.buf, f.fs, f.fs.win, f.fs.disk
  {
    && f.Valid() && f.fs.disk == disk && f.fs.g == g && f.others == others
    && f.content == st.m.bytes && f.chain == st.chain && f.fs.fat == st.fat
    && SecsOk(secs, |f.fs.store|) && exists k: nat :: OnList(f, secs, m, n, k)
  }

  ghost predicate OnList(f: Fil, secs: seq<nat>, m: imap<Name, Slot>, n: Name, k: nat)
    reads f, f.fs
    requires SecsOk(secs, |f.fs.store|)
  {
    var t := TableOf(secs, f.fs.store);
    Listed(m, t, n, k) && Describes(f.fs.g.fsType, t[k], f.chain, |f.content|)
  }

  /**
   * In any directory in order: a new name, any run of operations on its file, f_sync; then a new mount of the medium, the
   * name looked up, the file opened and read to its end. What is read is what the run left. The run starts on the volume
   * as it was, but for the cluster a full directory takes. All other names stay, and so does the data of all other chains.
   */
  method WriteAndReadBack(d: Dir, n: Name, ops: seq<FileRuns.Op>, tm0: Word32, tm: Word32)
    returns (res: FResult, outs: seq<FileRuns.Report>, got: seq<Byte>, f': Fil?, ghost exact: bool, ghost sts: seq<FileRuns.State>)
    requires d.Valid() && InOrder(d.table) && NameOk(n) && InfoSafe(d.fs.g) && Mountable(d.fs.g, d.fs.store)
    requires forall i {:trigger ops[i]} :: 0 <= i < |ops| && ops[i].Write? ==> |ops[i].data| <= 0xFFFF_FFFF
    modifies d, d.fs, d.fs.win, d.fs.disk
    ensures res == if n in Meaning(old(d.table)) then FrExist else if old(d.Full()) then FrDenied else FrOk
    ensures d.others == old(d.others) && (res == FrOk <==> f' != null) && (res != FrOk ==> d.Valid() && d.Snap() == old(d.Snap()))
    ensures res == FrOk ==> FileRuns.Run(d.fs.g, ChainsBeside(d.chain, d.others), exact, sts, ops, outs) && (d.exact ==> exact)
    ensures res == FrOk ==> sts[0].m == FileRuns.Image([], 0, true) && sts[0].chain == [] && Hosted(old(d.Snap()), d.chain, sts[0].fat, sts[0].free)
    ensures res == FrOk ==> fresh(f') && fresh(f'.fs) && got == f'.content && Clusters(d.fs.g, d.chain) && d.secs == DirSectors(d.fs.g, d.sclust, d.chain)
    ensures res == FrOk ==> ReadBack(f', d.fs.disk, d.fs.g, d.secs, ChainsBeside(d.chain, d.others), Meaning(old(d.table)), n, sts[|ops|])
    ensures res == FrOk ==> DataKept(d.fs.g, d.others, old(d.fs.store), f'.fs.store)
    ensures res == FrOk && exact ==> f'.exact
  {
    outs, got, f', exact, sts := [], [], null, d.exact, [];
    var f: Fil?;
    ghost var k;
    ghost var s0, m := d.fs.store, Meaning(d.table);
    res, f, k := CreateFile(d, n, tm0);
    if res != FrOk { return; }
    ghost var s1 := d.fs.store;
    MountableKept(d.fs.g, s0, s1);
    exact := f.exact;
    outs, got, f', sts := UseFile(d, f, n, ops, tm, m, k);
    DataKeptTrans(d.fs.g, d.others, s0, s1, f'.fs.store);
  }

  /** The rest of it, with the file open. */
  method UseFile(d: Dir, f: Fil, n: Name, ops: seq<FileRuns.Op>, tm: Word32, ghost m: imap<Name, Slot>, ghost k: nat)
    returns (outs: seq<FileRuns.Report>, got: seq<Byte>, f': Fil, ghost sts: seq<FileRuns.State>)
    requires d.Valid() && d.At(k) && Listed(m, d.table, n, k) && InfoSafe(d.fs.g) && Mountable(d.fs.g, d.fs.store)
    requires f.fs == d.fs && f.Valid() && f.readable && f.writable && f.modified && f.watched == [] && f.others == ChainsBeside(d.chain, d.others)
    requires forall i {:trigger ops[i]} :: 0 <= i < |ops| && ops[i].Write? ==> |ops[i].data| <= 0xFFFF_FFFF
    modifies f, f.buf, f.fs, f.fs.win, f.fs.disk
    ensures FileRuns.Run(f.fs.g, ChainsBeside(d.chain, d.others), f.exact, sts, ops, outs) && sts[0] == old(FileRuns.StateOf(f))
    ensures fresh(f') && fresh(f'.fs) && got == f'.content && Clusters(f.fs.g, d.chain) && d.secs == DirSectors(f.fs.g, d.sclust, d.chain)
    ensures ReadBack(f', f.fs.disk, f.fs.g, d.secs, ChainsBeside(d.chain, d.others), m, n, sts[|ops|])
    ensures DataKept(f.fs.g, d.others, old(f.fs.store), f'.fs.store)
    ensures f.exact ==> f'.exact
  {
    DirSecs(d);
    DirStart(d);
    ghost var s, h := f.fs.store, Home(d.sclust, d.chain, d.others, d.secs, k);
    var sclust := d.sclust;
    outs, sts := SaveRun(d, f, n, ops, tm, m, k);
    ghost var s1 := f.fs.store;
    Saved(f, h, m, n);
    SyncedFacts(f);
    if f.exact { CountSurvives(f); }
    got, f' := MountAndRead(f.fs.disk, sclust, n, f.fs.g, s1, f.fs.fat, h, f.chain, f.content);
    StillListed(f', s1, d.others, d.secs, m, n, k);
    DataKeptTrans(f.fs.g, d.others, s, s1, f'.fs.store);
  }

  /** The run and f_sync. */
  method SaveRun(d: Dir, f: Fil, n: Name, ops: seq<FileRuns.Op>, tm: Word32, ghost m: imap<Name, Slot>, ghost k: nat)
    returns (outs: seq<FileRuns.Report>, ghost sts: seq<FileRuns.State>)
    requires d.Valid() && d.At(k) && Listed(m, d.table, n, k) && InfoSafe(d.fs.g) && Mountable(d.fs.g, d.fs.store)
    requires f.fs == d.fs && f.Valid() && f.readable && f.writable && f.modified && f.watched == [] && f.others == ChainsBeside(d.chain, d.others)
    requires forall i {:trigger ops[i]} :: 0 <= i < |ops| && ops[i].Write? ==> |ops[i].data| <= 0xFFFF_FFFF
    modifies f, f.buf, f.fs, f.fs.win, f.fs.disk
    ensures FileRuns.Run(f.fs.g, f.others, f.exact, sts, ops, outs) && sts[0] == old(FileRuns.StateOf(f))
    ensures sts[|ops|].m.bytes == f.content && sts[|ops|].chain == f.chain && sts[|ops|].fat == f.fs.fat
    ensures f.Valid() && f.others == ChainsBeside(d.chain, d.others) && d.chain !in d.others && !f.dirty && !f.fs.wflag && Mountable(f.fs.g, f.fs.store)
    ensures Placed(f.fs.g, f.others, d.secs, |f.fs.store|) && k < Entries(|d.secs|) && NotAmong(f.secs, d.secs[k / 16])
    ensures Describes(f.fs.g.fsType, EntryOf(f.fs.store, d.secs[k / 16], 32 * (k % 16)), f.chain, |f.content|)
    ensures Listed(m, TableOf(d.secs, f.fs.store), n, k) && DataKept(f.fs.g, d.others, old(f.fs.store), f.fs.store)
    ensures HintsCurrent(f.fs.g, f.fs.store, f.fs.freeClst, f.fs.lastClst)
  {
    DirIsPlaced(d);
    DirIsApart(d);
    EntryIsThere(d, k);
    outs, sts := RunAndSave(f, ops, d.sect, d.dptr % 512, tm, d.secs, m, n, k, d.others);
  }

  /** Reading changes neither the directory nor the data of other chains. */
  lemma StillListed(f: Fil, s: seq<Byte>, rest: set<Chain>, secs: seq<nat>, m: imap<Name, Slot>, n: Name, k: nat)
    requires f.Valid() && FileRuns.Kept(f.fs.g, f.others, s, f.fs.store) && Placed(f.fs.g, f.others, secs, |s|) && rest <= f.others
    requires k < Entries(|secs|) && Listed(m, TableOf(secs, s), n, k) && Describes(f.fs.g.fsType, EntryOf(s, secs[k / 16], 32 * (k % 16)), f.chain, |f.content|)
    ensures SecsOk(secs, |f.fs.store|) && OnList(f, secs, m, n, k) && DataKept(f.fs.g, rest, s, f.fs.store)
  {
    KeptTable(f.fs.g, f.others, secs, s, f.fs.store);
    KeptKeepsData(f.fs.g, f.others, rest, s, f.fs.store);
    assert TableOf(secs, s)[k] == EntryOf(s, secs[k / 16], 32 * (k % 16));
  }

  /** The state a run on a new file of a new volume starts from: an empty file, and all clusters but the root directory's free. */
  ghost predicate NewFile(g: Geo, st: FileRuns.State) {
    && st.m == FileRuns.Image([], 0, true) && st.chain == [] && g.nFatent >= 3 && st.fat == Mkfs.NewTable(g.fsType, g.nFatent)
    && (st.free == NONE || st.free == FreeCount(st.fat))
  }

  /** The whole life of a drive: f_mkfs, mount, a new file in the root directory, any run on it, f_sync, mount, read. */
  method FormatWriteRead(disk: array<Byte>, work: array<Byte>, opt: Mkfs.Options, bytes: nat, volId: Word32, n: Name, ops: seq<FileRuns.Op>, tm0: Word32, tm: Word32)
    returns (res: FResult, outs: seq<FileRuns.Report>, got: seq<Byte>, f': Fil?, ghost sts: seq<FileRuns.State>)
    requires disk != work && disk.Length % 512 == 0 && disk.Length < 512 * NONE && NameOk(n)
    requires forall i {:trigger ops[i]} :: 0 <= i < |ops| && ops[i].Write? ==> |ops[i].data| <= 0xFFFF_FFFF
    modifies disk, work
    ensures res == FrOk <==> f' != null
    ensures res == FrOk ==> fresh(f') && fresh(f'.fs) && got == f'.content && Clusters(f'.fs.g, RootChain(f'.fs.g))
    ensures res == FrOk ==> FileRuns.Run(f'.fs.g, Mkfs.NewChains(f'.fs.g.fsType), true, sts, ops, outs) && NewFile(f'.fs.g, sts[0])
    ensures res == FrOk ==>
      ReadBack(f', disk, f'.fs.g, DirSectors(f'.fs.g, 0, RootChain(f'.fs.g)), Mkfs.NewChains(f'.fs.g.fsType), imap[], n, sts[|ops|])
    ensures bytes == 0 && work.Length >= 512 && (opt.fat || opt.fat32) ==>
      var b := if opt.sfd then 0 else 63;
      res == FrOk <==> b + 128 <= disk.Length / 512 && Mkfs.AutoFits(disk.Length / 512 - b, Mkfs.FirstType(opt), opt)
    ensures res == FrOk ==> f'.exact
  {
    outs, got, f', sts := [], [], null, [];
    var d: Dir?;
    res, d := FormatAndOpenRoot(disk, work, opt, bytes, volId, n);
    if res == FrOk { outs, got, f', sts := UseRoot(d, n, ops, tm0, tm); }
  }

  /** The rest of it, in the root directory. */
  method UseRoot(d: Dir, n: Name, ops: seq<FileRuns.Op>, tm0: Word32, tm: Word32)
    returns (outs: seq<FileRuns.Report>, got: seq<Byte>, f': Fil, ghost sts: seq<FileRuns.State>)
    requires d.Valid() && d.exact && InOrder(d.table) && Meaning(d.table) == imap[] && NameOk(n) && InfoSafe(d.fs.g) && Mountable(d.fs.g, d.fs.store)
    requires d.sclust == 0 && d.chain == RootChain(d.fs.g) && d.others == {} && !FullTo(d.table, |d.table|)
    requires d.fs.g.nFatent >= 3 && d.fs.fat == Mkfs.NewTable(d.fs.g.fsType, d.fs.g.nFatent)
    requires 2 <= |d.fs.fat| && (d.fs.freeClst == NONE || d.fs.freeClst == FreeCount(d.fs.fat))
    requires forall i {:trigger ops[i]} :: 0 <= i < |ops| && ops[i].Write? ==> |ops[i].data| <= 0xFFFF_FFFF
    modifies d, d.fs, d.fs.win, d.fs.disk
    ensures fresh(f') && fresh(f'.fs) && got == f'.content && f'.fs.g == d.fs.g && Clusters(d.fs.g, RootChain(d.fs.g))
    ensures FileRuns.Run(d.fs.g, Mkfs.NewChains(d.fs.g.fsType), true, sts, ops, outs) && NewFile(d.fs.g, sts[0])
    ensures ReadBack(f', d.fs.disk, d.fs.g, DirSectors(d.fs.g, 0, RootChain(d.fs.g)), Mkfs.NewChains(d.fs.g.fsType), imap[], n, sts[|ops|])
    ensures f'.exact
  {
    RootChains(d.fs.g);
    var res, f;
    ghost var exact;
    res, outs, got, f, exact, sts := WriteAndReadBack(d, n, ops, tm0, tm);
    f' := f;
  }

  lemma RootChains(g: Geo)
    ensures ChainsBeside(RootChain(g), {}) == Mkfs.NewChains(g.fsType)
  {
  }
}
