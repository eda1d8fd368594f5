/** The cluster link map of fast seek: a chain as a table of contiguous fragments. */
module LinkMap {
  import opened Machine
  import opened Geometry
  import opened Chains
  import opened Volume

  /** `len` consecutive clusters from `top` on. */
  datatype Fragment = Fragment(len: nat, top: nat)

  /** The end of the contiguous run that cluster i of the chain is in. */
  function RunEnd(x: Chain, i: nat): (e: nat)
    requires i < |x|
    ensures i < e <= |x|
    decreases |x| - i
  {
    if i + 1 == |x| || x[i + 1] != x[i] + 1 then i + 1 else RunEnd(x, i + 1)
  }

  /** The maximal contiguous fragments of a chain from position i on. */
  function Fragments(x: Chain, i: nat): (f: seq<Fragment>)
    requires i <= |x|
    ensures i == |x| <==> f == []
    decreases |x| - i
  {
    if i == |x| then [] else [Fragment(RunEnd(x, i) - i, x[i])] + Fragments(x, RunEnd(x, i))
  }

  /** The places where a chain does not go on with the next cluster number. */
  ghost function Breaks(x: Chain, i: nat): nat
    requires i <= |x|
    decreases |x| - i
  {
    if |x| - i <= 1 then 0 else (if x[i + 1] == x[i] + 1 then 0 else 1) + Breaks(x, i + 1)
  }

  /** There is one fragment more than there are breaks: the fragments are maximal. */
  lemma {:induction false} FragmentCount(x: Chain, i: nat)
    requires i < |x|
    ensures |Fragments(x, i)| == Breaks(x, i) + 1
    decreases |x| - i
  {
    var e := RunEnd(x, i);
    NoBreakInRun(x, i);
    if e < |x| { FragmentCount(x, e); }
  }

  lemma {:induction false} NoBreakInRun(x: Chain, i: nat)
    requires i < |x|
    ensures Breaks(x, i) == if RunEnd(x, i) == |x| then 0 else 1 + Breaks(x, RunEnd(x, i))
    decreases |x| - i
  {
    if RunEnd(x, i) > i + 1 { NoBreakInRun(x, i + 1); }
  }

  /** Inside a fragment the cluster numbers are consecutive. */
  lemma {:induction false} RunIsConsecutive(x: Chain, i: nat, p: nat)
    requires i <= p < |x| && p < RunEnd(x, i)
    ensures x[p] == x[i] + (p - i)
    decreases p - i
  {
    if i < p { RunIsConsecutive(x, i + 1, p); }
  }

  /** The table holds the fragments from item `at` on, each as length and top. */
  ghost predicate Stored(t: seq<nat>, f: seq<Fragment>, at: nat) {
    at + 2 * |f| <= |t| && forall k {:trigger f[k]} :: 0 <= k < |f| ==> t[at + 2 * k] == f[k].len && t[at + 2 * k + 1] == f[k].top
  }

  /** cltbl is the link map of the chain x. */
  ghost predicate IsLinkMap(t: seq<nat>, x: Chain) {
    var f := Fragments(x, 0);
    |t| >= 2 + 2 * |f| && t[0] == 2 + 2 * |f| && Stored(t, f, 1) && t[1 + 2 * |f|] == 0
  }

  /** The items in order: the size of the table, length and top of every fragment, and a zero. */
  lemma MapItems(t: seq<nat>)
    requires IsLinkMap(t, [5, 6, 7, 3, 9, 10])
    ensures t[..8] == [8, 3, 5, 1, 3, 2, 9, 0]
  {
    var x := [5, 6, 7, 3, 9, 10];
    assert RunEnd(x, 0) == 3 && RunEnd(x, 3) == 4 && RunEnd(x, 4) == 6;
    var f := Fragments(x, 0);
    assert Fragments(x, 4) == [Fragment(2, 9)];
    assert f == [Fragment(3, 5), Fragment(1, 3), Fragment(2, 9)];
    assert f[0].len == 3 && f[1].len == 1 && f[2].len == 2;
  }

  /** clmt_clust: the cluster that holds offset ofs. */
  method ClmtClust(cltbl: array<nat>, csize: nat, ofs: nat, ghost x: Chain) returns (c: nat)
    requires csize > 0 && IsLinkMap(cltbl[..], x)
    ensures c == if ofs / 512 / csize < |x| then x[ofs / 512 / csize] else 0
  {
    var tbl := 1;
    var cl := ofs / 512 / csize;
    ghost var f := Fragments(x, 0);
    ghost var p, i, k := cl, 0, 0;
    while true
      invariant 0 <= k <= |f| && 0 <= i <= |x| && Fragments(x, i) == f[k..] && tbl == 1 + 2 * k && 0 <= cl && cl + i == p
      decreases |f| - k
    {
      assert k < |f| ==> f[k] == Fragments(x, i)[0];
      var ncl := cltbl[tbl];
      tbl := tbl + 1;
      if ncl == 0 { return 0; }
      if cl < ncl { break; }
      cl := cl - ncl;
      tbl := tbl + 1;
      i := i + ncl;
      k := k + 1;
    }
    RunIsConsecutive(x, i, p);
    c := cl + cltbl[tbl];
  }

  /** An end mark that looks like the cluster after the last one of the volume. */
  ghost predicate Misleading(fat: Fat, x: Chain) {
    IsChain(fat, x) && x[|x| - 1] == |fat| - 1 && fat[|fat| - 1] == |fat|
  }

  /** A FAT12 table of two clusters whose second one ends a chain with such a mark. */
  lemma MisleadingMark()
    ensures var fat := [0xFF8, 0xFFF, 0, 4]; WellFormed(fat, {[3]}) && Misleading(fat, [3])
  {
    var fat: Fat := [0xFF8, 0xFFF, 0, 4];
    assert IsChain(fat, [3]);
    assert InUse({[3]}, 3) by { assert [3] in {[3]} && 3 in [3]; }
  }

  /** One fragment of f_lseek's link map: follow the chain while it is contiguous. */
  method GetFragment(fs: Fatfs, start: nat, ghost x: Chain, ghost i: nat) returns (ok: bool, ncl: nat, cl: nat)
    requires fs.Valid() && IsChain(fs.fat, x) && i < |x| && start == x[i]
    modifies fs`wflag, fs`winsect, fs.win, fs.disk
    ensures fs.Valid()
    ensures !ok ==> Misleading(fs.fat, x)
    ensures ok ==> ncl == RunEnd(x, i) - i && !(RunEnd(x, i) == |x| && Misleading(fs.fat, x))
    ensures ok ==> if RunEnd(x, i) < |x| then cl == x[RunEnd(x, i)] else cl >= |fs.fat|
  {
    ghost var j := i;
    cl, ncl := start, 0;
    while true
      invariant fs.Valid() && i <= j <= |x| && ncl == j - i
      invariant j < |x| ==> cl == x[j] && RunEnd(x, i) == RunEnd(x, j)
      invariant j == |x| ==> cl == |fs.fat| && Misleading(fs.fat, x)
      decreases |x| - j
    {
      var pcl := cl;
      ncl := ncl + 1;
      cl := fs.GetFat(cl);
      assert j + 1 < |x| ==> fs.fat[x[j]] == x[j + 1];
      if cl <= 1 { return false, ncl, cl; }
      if cl == NONE { return false, ncl, cl; }
      if cl != pcl + 1 { break; }
      j := j + 1;
    }
    ok := true;
  }

  /** The first n fragments are in the table. */
  ghost predicate StoredTo(t: seq<nat>, f: seq<Fragment>, n: nat) {
    n <= |f| && 1 + 2 * n <= |t| && forall k {:trigger f[k]} :: 0 <= k < n ==> t[1 + 2 * k] == f[k].len && t[2 + 2 * k] == f[k].top
  }

  method StoreFragment(cltbl: array<nat>, tbl: nat, ncl: nat, tcl: nat, ghost f: seq<Fragment>, ghost k: nat)
    requires tbl == 1 + 2 * k && tbl + 2 <= cltbl.Length && k < |f| && f[k] == Fragment(ncl, tcl) && StoredTo(cltbl[..], f, k)
    modifies cltbl
    ensures StoredTo(cltbl[..], f, k + 1)
  {
    cltbl[tbl], cltbl[tbl + 1] := ncl, tcl;
  }

  /** The end of f_lseek's link map: the number of items, and the end of the table if there is room. */
  method Terminate(cltbl: array<nat>, tbl: nat, tlen: nat, ulen: nat, ghost f: seq<Fragment>) returns (res: FResult)
    requires 1 <= cltbl.Length && tlen <= cltbl.Length && ulen == 2 + 2 * |f|
    requires ulen <= tlen ==> tbl == 1 + 2 * |f| && StoredTo(cltbl[..], f, |f|)
    modifies cltbl
    ensures cltbl[0] == 2 + 2 * |f|
    ensures res == if 2 + 2 * |f| <= tlen then FrOk else FrNotEnoughCore
    ensures res == FrOk ==> Stored(cltbl[..], f, 1) && cltbl[1 + 2 * |f|] == 0
  {
    cltbl[0] := ulen;
    if ulen <= tlen {
      cltbl[tbl] := 0;
      res := FrOk;
    } else {
      res := FrNotEnoughCore;
    }
  }

  /** The end marks this program writes do not mislead. */
  lemma OwnMarksAreClear(g: Geo, fat: Fat, x: Chain)
    requires |fat| == g.nFatent <= MaxEntries(g.fsType) && IsChain(fat, x) && fat[x[|x| - 1]] == EntryMask(g.fsType)
    ensures !Misleading(fat, x)
  {
  }

  /** f_lseek with CREATE_LINKMAP: build the link map of the chain that starts at sclust. */
  method CreateLinkMap(fs: Fatfs, sclust: nat, cltbl: array<nat>, ghost x: Chain) returns (res: FResult)
    requires fs.Valid() && (if sclust == 0 then x == [] else IsChain(fs.fat, x) && sclust == x[0])
    requires 1 <= cltbl.Length && cltbl[0] <= cltbl.Length
    modifies cltbl, fs`wflag, fs`winsect, fs.win, fs.disk
    ensures fs.Valid()
    ensures res == FrIntErr <==> Misleading(fs.fat, x)
    ensures res != FrIntErr ==> cltbl[0] == 2 + 2 * |Fragments(x, 0)|
    ensures res != FrIntErr ==> res == if cltbl[0] <= old(cltbl[0]) then FrOk else FrNotEnoughCore
    ensures res == FrOk ==> IsLinkMap(cltbl[..], x)
  {
    var tlen := cltbl[0];
    var tbl, ulen := 1, 2;
    ghost var f := Fragments(x, 0);
    if sclust != 0 {
      var ok;
      ok, tbl, ulen := MapChain(fs, sclust, cltbl, tlen, x);
      if !ok { return FrIntErr; }
    }
    res := Terminate(cltbl, tbl, tlen, ulen, f);
  }

  /** The loop over the fragments: store each while the table has room, count them all. */
  method MapChain(fs: Fatfs, sclust: nat, cltbl: array<nat>, tlen: nat, ghost x: Chain) returns (ok: bool, tbl: nat, ulen: nat)
    requires fs.Valid() && IsChain(fs.fat, x) && sclust == x[0] && 1 <= cltbl.Length && tlen <= cltbl.Length
    modifies cltbl, fs`wflag, fs`winsect, fs.win, fs.disk
    ensures fs.Valid() && (!ok <==> Misleading(fs.fat, x))
    ensures ok ==> ulen == 2 + 2 * |Fragments(x, 0)|
    ensures ok && ulen <= tlen ==> tbl == 1 + 2 * |Fragments(x, 0)| && StoredTo(cltbl[..], Fragments(x, 0), |Fragments(x, 0)|)
  {
    tbl, ulen := 1, 2;
    var cl := sclust;
    ghost var f, k, i := Fragments(x, 0), 0, 0;
    assert f[0..] == f;
    while true
      invariant fs.Valid() && IsChain(fs.fat, x) && 0 <= i < |x| && cl == x[i]
      invariant 0 <= k < |f| && Fragments(x, i) == f[k..] && ulen == 2 + 2 * k
      invariant ulen <= tlen ==> tbl == 1 + 2 * k && StoredTo(cltbl[..], f, k)
      decreases |x| - i
    {
      assert f[k] == Fragments(x, i)[0];
      var tcl := cl;
      ulen := ulen + 2;
      var ncl;
      ok, ncl, cl := GetFragment(fs, cl, x, i);
      if !ok { return; }
      if ulen <= tlen {
        StoreFragment(cltbl, tbl, ncl, tcl, f, k);
        tbl := tbl + 2;
      }
      i := i + ncl;
      k := k + 1;
      assert f[k..] == Fragments(x, i);
      if cl >= fs.g.nFatent { break; }
    }
  }

  /** get_fat applied n times. */
  ghost function Follow(fat: Fat, c: nat, n: nat): nat {
    if n == 0 then c else
      var d := Follow(fat, c, n - 1);
      if d < |fat| then fat[d] else d
  }

  /** The p-th cluster of a chain is what p steps along the FAT reach: what clmt_clust finds without reading the FAT. */
  lemma {:induction false} FollowReaches(fat: Fat, x: Chain, p: nat)
    requires IsChain(fat, x) && p < |x|
    ensures Follow(fat, x[0], p) == x[p]
  {
    if p > 0 {
      FollowReaches(fat, x, p - 1);
      assert fat[x[p - 1]] == x[p];
    }
  }
}
