/** Cluster chains over an abstract FAT: entry c of `fat` is the status of cluster c. */
module Chains {

  type Fat = seq<nat>
  type Chain = seq<nat>

  /** x follows the links of the FAT from x[0] to an end mark. */
  ghost predicate IsChain(fat: Fat, x: Chain) {
    && |x| > 0
    && (forall i {:trigger x[i]} :: 0 <= i < |x| ==> 2 <= x[i] < |fat|)
    && (forall i {:trigger fat[x[i]]} :: 0 <= i < |x| - 1 ==> fat[x[i]] == x[i + 1])
    && fat[x[|x| - 1]] >= |fat|
  }

  ghost predicate Apart(x: Chain, y: Chain) {
    forall c {:trigger c in x, c in y} :: !(c in x && c in y)
  }

  /** The chains partition the clusters in use. */
  ghost predicate WellFormed(fat: Fat, chains: set<Chain>) {
    && (forall x {:trigger IsChain(fat, x)} {:trigger x in chains} :: x in chains ==> IsChain(fat, x))
    && (forall x, y {:trigger Apart(x, y)} :: x in chains && y in chains && x != y ==> Apart(x, y))
    && (forall c {:trigger InUse(chains, c)} :: 2 <= c < |fat| && fat[c] != 0 ==> InUse(chains, c))
  }

  ghost predicate InUse(chains: set<Chain>, c: nat) { exists x :: x in chains && c in x }

  ghost predicate Distinct(x: Chain) { forall i, j {:trigger x[i], x[j]} :: 0 <= i < j < |x| ==> x[i] != x[j] }

  /** No chain visits a cluster twice. */
  lemma {:induction false} ChainIsAcyclic(fat: Fat, x: Chain)
    requires IsChain(fat, x)
    ensures Distinct(x)
  {
    forall i, j | 0 <= i < j < |x| ensures x[i] != x[j] { NoRepeat(fat, x, i, j); }
  }

  lemma {:induction false} NoRepeat(fat: Fat, x: Chain, i: nat, j: nat)
    requires IsChain(fat, x) && i < j < |x|
    ensures x[i] != x[j]
    decreases |x| - j
  {
    if x[i] == x[j] {
      assert fat[x[i]] == x[i + 1];
      if j + 1 < |x| {
        assert fat[x[j]] == x[j + 1];
        NoRepeat(fat, x, i + 1, j + 1);
      }
    }
  }

  lemma FreeIsUnchained(fat: Fat, chains: set<Chain>, c: nat)
    requires WellFormed(fat, chains) && c < |fat| && fat[c] == 0
    ensures forall x :: x in chains ==> c !in x
  {
    forall x | x in chains ensures c !in x { FreeNotIn(fat, x, c); }
  }

  lemma FreeNotIn(fat: Fat, x: Chain, c: nat)
    requires IsChain(fat, x) && c < |fat| && fat[c] == 0
    ensures c !in x
  {
    forall i | 0 <= i < |x| ensures x[i] != c {
      if i < |x| - 1 { assert fat[x[i]] == x[i + 1] >= 2; }
    }
  }

  /** A chain that avoids the changed entry is still a chain. */
  lemma ChainFrame(fat: Fat, x: Chain, c: nat, v: nat)
    requires IsChain(fat, x) && c < |fat| && c !in x
    ensures IsChain(fat[c := v], x)
  {
    var fat' := fat[c := v];
    forall i {:trigger fat'[x[i]]} | 0 <= i < |x| - 1 ensures fat'[x[i]] == x[i + 1] { assert x[i] in x; }
    assert x[|x| - 1] in x;
  }

  /** create_chain on a fresh chain: a free cluster becomes a chain of its own. */
  lemma NewChain(fat: Fat, chains: set<Chain>, c: nat, eoc: nat)
    requires WellFormed(fat, chains) && 2 <= c < |fat| && fat[c] == 0 && eoc >= |fat|
    ensures WellFormed(fat[c := eoc], chains + {[c]})
  {
    FreeIsUnchained(fat, chains, c);
    var fat', chains' := fat[c := eoc], chains + {[c]};
    forall x | x in chains' ensures IsChain(fat', x) {
      if x != [c] { ChainFrame(fat, x, c, eoc); }
    }
    forall d: nat | 2 <= d < |fat'| && fat'[d] != 0 ensures InUse(chains', d) {
      if d == c { assert [c] in chains' && c in [c]; } else { assert InUse(chains, d); }
    }
  }

  /** create_chain on an existing chain: a free cluster is linked behind its last cluster. */
  lemma StretchedChain(fat: Fat, chains: set<Chain>, x: Chain, c: nat, eoc: nat)
    requires WellFormed(fat, chains) && x in chains && 2 <= c < |fat| && fat[c] == 0 && eoc >= |fat|
    ensures WellFormed(fat[c := eoc][x[|x| - 1] := c], chains - {x} + {x + [c]})
  {
    FreeIsUnchained(fat, chains, c);
    var last := x[|x| - 1];
    var fat1 := fat[c := eoc];
    var fat', chains' := fat1[last := c], chains - {x} + {x + [c]};
    ChainIsAcyclic(fat, x);
    forall y | y in chains' ensures IsChain(fat', y) {
      if y == x + [c] {
        Extended(fat, x, c, eoc);
      } else {
        assert Apart(x, y) && last in x;
        ChainFrame(fat, y, c, eoc);
        ChainFrame(fat1, y, last, c);
      }
    }
    forall y, z | y in chains' && z in chains' && y != z ensures Apart(y, z) {
      assert y != x + [c] && z != x + [c] ==> Apart(y, z);
      assert z != x + [c] ==> Apart(x, z);
      assert y != x + [c] ==> Apart(y, x);
    }
    forall d: nat | 2 <= d < |fat'| && fat'[d] != 0 ensures InUse(chains', d) {
      if d == c || d in x {
        assert x + [c] in chains' && d in x + [c];
      } else {
        assert InUse(chains, d);
        var y :| y in chains && d in y;
        assert y in chains';
      }
    }
  }

  lemma Extended(fat: Fat, x: Chain, c: nat, eoc: nat)
    requires IsChain(fat, x) && Distinct(x) && 2 <= c < |fat| && c !in x && eoc >= |fat|
    ensures IsChain(fat[c := eoc][x[|x| - 1] := c], x + [c])
  {
    var last, y := x[|x| - 1], x + [c];
    var fat' := fat[c := eoc][last := c];
    assert last in x;
    forall i {:trigger fat'[y[i]]} | 0 <= i < |y| - 1 ensures fat'[y[i]] == y[i + 1] {
      assert y[i] == x[i] && x[i] in x;
      if i < |x| - 1 { assert fat[x[i]] == x[i + 1]; }
    }
  }

  /** How many clusters from c on are free. */
  ghost function FreeFrom(fat: Fat, c: nat): nat
    requires c <= |fat|
    decreases |fat| - c
  {
    if c == |fat| then 0 else (if fat[c] == 0 then 1 else 0) + FreeFrom(fat, c + 1)
  }

  /** The number of free clusters of the volume. */
  ghost function FreeCount(fat: Fat): (k: nat)
    requires |fat| >= 2
  {
    FreeFrom(fat, 2)
  }

  lemma {:induction false} FreeFromBound(fat: Fat, c: nat)
    requires c <= |fat|
    ensures FreeFrom(fat, c) <= |fat| - c
    decreases |fat| - c
  {
    if c < |fat| { FreeFromBound(fat, c + 1); }
  }

  function Blank(v: nat): nat { if v == 0 then 1 else 0 }

  lemma {:induction false} FreeFromUpdate(fat: Fat, c: nat, d: nat, v: nat)
    requires c <= |fat| && d < |fat|
    ensures FreeFrom(fat[d := v], c) == FreeFrom(fat, c) + if c <= d then Blank(v) - Blank(fat[d]) else 0
    decreases |fat| - c
  {
    if c < |fat| { FreeFromUpdate(fat, c + 1, d, v); }
  }

  /** No cluster is free exactly when the count is zero. */
  lemma {:induction false} NoneFree(fat: Fat, c: nat)
    requires c <= |fat|
    ensures FreeFrom(fat, c) == 0 <==> forall d :: c <= d < |fat| ==> fat[d] != 0
    decreases |fat| - c
  {
    if c < |fat| {
      NoneFree(fat, c + 1);
      assert (forall d :: c <= d < |fat| ==> fat[d] != 0) <==> fat[c] != 0 && forall d :: c + 1 <= d < |fat| ==> fat[d] != 0;
    }
  }

  datatype Unlinked = Unlinked(ok: bool, fat: Fat, freed: nat)

  /**
   * The loop of remove_chain on any FAT whatever, cyclic and cross-linked ones included: every turn
   * clears an entry that was not zero, so there are at most as many turns as clusters in use.
   */
  function Unlink(fat: Fat, c: nat): (u: Unlinked)
    requires 2 <= c < |fat|
    ensures |u.fat| == |fat|
    decreases Used(fat)
  {
    var nxt := fat[c];
    if nxt == 0 then Unlinked(true, fat, 0)
    else if nxt == 1 then Unlinked(false, fat, 0)
    else
      UsedDrops(fat, c);
      var fat' := fat[c := 0];
      if nxt < |fat| then
        var u := Unlink(fat', nxt);
        Unlinked(u.ok, u.fat, u.freed + 1)
      else Unlinked(true, fat', 1)
  }

  /** The number of entries that are not zero. */
  ghost function Used(fat: Fat): nat {
    FreeFromBound(fat, 0);
    |fat| - FreeFrom(fat, 0)
  }

  lemma UsedDrops(fat: Fat, c: nat)
    requires c < |fat| && fat[c] != 0
    ensures Used(fat[c := 0]) < Used(fat)
  {
    FreeFromUpdate(fat, 0, c, 0);
  }

  /** remove_chain changes entries only to zero, and counts each change once. */
  lemma {:induction false} UnlinkCounts(fat: Fat, c: nat)
    requires 2 <= c < |fat|
    ensures var u := Unlink(fat, c);
            && FreeCount(u.fat) == FreeCount(fat) + u.freed
            && (forall d {:trigger u.fat[d]} :: 0 <= d < |fat| ==> u.fat[d] == fat[d] || u.fat[d] == 0)
    decreases Used(fat)
  {
    if fat[c] > 1 {
      UsedDrops(fat, c);
      FreeFromUpdate(fat, 2, c, 0);
      if fat[c] < |fat| { UnlinkCounts(fat[c := 0], fat[c]); }
    }
  }

  /** Clear every cluster of s. */
  ghost function Clear(fat: Fat, s: Chain): (r: Fat)
    requires forall i {:trigger s[i]} :: 0 <= i < |s| ==> s[i] < |fat|
    ensures |r| == |fat|
    ensures forall d {:trigger r[d]} :: 0 <= d < |fat| ==> r[d] == if d in s then 0 else fat[d]
  {
    seq(|fat|, d requires 0 <= d < |fat| => if d in s then 0 else fat[d])
  }

  /** On a chain, remove_chain frees exactly the suffix it is given. */
  lemma {:induction false} UnlinkChain(fat: Fat, x: Chain)
    requires IsChain(fat, x)
    ensures Unlink(fat, x[0]) == Unlinked(true, Clear(fat, x), |x|)
    decreases |x|
  {
    ChainIsAcyclic(fat, x);
    var fat' := fat[x[0] := 0];
    if |x| == 1 {
      assert Clear(fat, x) == fat';
    } else {
      var t := x[1..];
      assert fat[x[0]] == x[1];
      assert IsChain(fat, t) by {
        forall i {:trigger fat[t[i]]} | 0 <= i < |t| - 1 ensures fat[t[i]] == t[i + 1] { assert fat[x[i + 1]] == x[i + 2]; }
      }
      ChainFrame(fat, t, x[0], 0);
      UnlinkChain(fat', t);
      assert x == [x[0]] + t;
      assert Clear(fat', t) == Clear(fat, x);
    }
  }

  /** What remove_chain leaves of chain x when it cuts before position k. */
  ghost function CutFat(fat: Fat, x: Chain, k: nat, eoc: nat): Fat
    requires IsChain(fat, x) && k < |x|
  {
    if k == 0 then Clear(fat, x) else Clear(fat[x[k - 1] := eoc], x[k..])
  }

  ghost function CutChains(chains: set<Chain>, x: Chain, k: nat): set<Chain>
    requires k < |x|
  {
    if k == 0 then chains - {x} else chains - {x} + {x[..k]}
  }

  lemma ClearFrame(fat: Fat, s: Chain, y: Chain)
    requires IsChain(fat, y) && Apart(s, y)
    requires forall i {:trigger s[i]} :: 0 <= i < |s| ==> s[i] < |fat|
    ensures IsChain(Clear(fat, s), y)
  {
    var fat' := Clear(fat, s);
    forall i {:trigger fat'[y[i]]} | 0 <= i < |y| - 1 ensures fat'[y[i]] == y[i + 1] { assert y[i] in y; assert fat[y[i]] == y[i + 1]; }
    assert y[|y| - 1] in y;
  }

  lemma SuffixIsChain(fat: Fat, x: Chain, k: nat)
    requires IsChain(fat, x) && k < |x|
    ensures IsChain(fat, x[k..])
  {
    var t := x[k..];
    forall i {:trigger fat[t[i]]} | 0 <= i < |t| - 1 ensures fat[t[i]] == t[i + 1] { assert fat[x[k + i]] == x[k + i + 1]; }
  }

  lemma PrefixIsChain(fat: Fat, x: Chain, k: nat, eoc: nat)
    requires IsChain(fat, x) && 0 < k <= |x| && eoc >= |fat|
    ensures IsChain(fat[x[k - 1] := eoc], x[..k])
  {
    ChainIsAcyclic(fat, x);
    var p, fat1 := x[..k], fat[x[k - 1] := eoc];
    forall i {:trigger fat1[p[i]]} | 0 <= i < |p| - 1 ensures fat1[p[i]] == p[i + 1] { assert fat[x[i]] == x[i + 1]; }
  }

  lemma HalvesApart(x: Chain, k: nat)
    requires Distinct(x) && k <= |x|
    ensures Apart(x[k..], x[..k])
  {
  }

  /** Both parts of a cut chain: the suffix can be unlinked, the prefix stays a chain. */
  lemma CutParts(fat: Fat, x: Chain, k: nat, eoc: nat)
    requires IsChain(fat, x) && 0 < k < |x| && eoc >= |fat|
    ensures IsChain(fat[x[k - 1] := eoc], x[k..])
    ensures IsChain(CutFat(fat, x, k, eoc), x[..k])
  {
    ChainIsAcyclic(fat, x);
    HalvesApart(x, k);
    assert x[k - 1] == x[..k][k - 1];
    SuffixIsChain(fat, x, k);
    ChainFrame(fat, x[k..], x[k - 1], eoc);
    PrefixIsChain(fat, x, k, eoc);
    ClearFrame(fat[x[k - 1] := eoc], x[k..], x[..k]);
  }

  lemma CutFrame(fat: Fat, x: Chain, k: nat, eoc: nat, y: Chain)
    requires IsChain(fat, x) && IsChain(fat, y) && Apart(x, y) && k < |x|
    ensures IsChain(CutFat(fat, x, k, eoc), y)
  {
    if k == 0 {
      ClearFrame(fat, x, y);
    } else {
      assert x[k - 1] in x;
      ChainFrame(fat, y, x[k - 1], eoc);
      assert forall c :: c in x[k..] ==> c in x;
      assert Apart(x[k..], y);
      ClearFrame(fat[x[k - 1] := eoc], x[k..], y);
    }
  }

  lemma CutCovers(fat: Fat, chains: set<Chain>, x: Chain, k: nat, eoc: nat, d: nat)
    requires WellFormed(fat, chains) && x in chains && k < |x| && 2 <= d < |fat|
    requires CutFat(fat, x, k, eoc)[d] != 0
    ensures InUse(CutChains(chains, x, k), d)
  {
    assert d !in x[k..] by { assert k == 0 ==> x[k..] == x; }
    assert fat[d] != 0 by { if k > 0 { ChainedIsUsed(fat, x, k - 1); } }
    assert InUse(chains, d);
    var y :| y in chains && d in y;
    if y == x {
      assert x == x[..k] + x[k..];
      assert d in x[..k];
    }
  }

  lemma ChainedIsUsed(fat: Fat, x: Chain, i: nat)
    requires IsChain(fat, x) && i < |x|
    ensures fat[x[i]] != 0
  {
    if i < |x| - 1 { assert fat[x[i]] == x[i + 1]; }
  }

  /** remove_chain keeps the FAT well formed: x loses its suffix, every other chain is untouched. */
  lemma CutChain(fat: Fat, chains: set<Chain>, x: Chain, k: nat, eoc: nat)
    requires WellFormed(fat, chains) && x in chains && k < |x| && eoc >= |fat|
    ensures WellFormed(CutFat(fat, x, k, eoc), CutChains(chains, x, k))
  {
    var fat', chains' := CutFat(fat, x, k, eoc), CutChains(chains, x, k);
    forall y | y in chains' ensures IsChain(fat', y) {
      if y in chains && y != x {
        assert Apart(x, y);
        CutFrame(fat, x, k, eoc, y);
      } else {
        CutParts(fat, x, k, eoc);
      }
    }
    forall y, z | y in chains' && z in chains' && y != z ensures Apart(y, z) {
      assert forall c :: c in x[..k] ==> c in x;
      assert y in chains && y != x ==> Apart(y, x) && Apart(x, y);
      assert z in chains && z != x ==> Apart(z, x) && Apart(x, z);
      assert y in chains && z in chains ==> Apart(y, z);
    }
    forall d: nat | 2 <= d < |fat'| && fat'[d] != 0 ensures InUse(chains', d) {
      CutCovers(fat, chains, x, k, eoc, d);
    }
  }

  /** clst is a cluster whose chain can be followed or stretched. */
  ghost predicate Linked(fat: Fat, clst: nat) { 2 <= clst < |fat| && fat[clst] >= 2 }

  ghost predicate HasFree(fat: Fat) { exists d {:trigger fat[d]} :: 2 <= d < |fat| && fat[d] == 0 }

  /** r is the first free cluster after s, going around behind the last one; s itself comes last. */
  ghost predicate FirstAfter(fat: Fat, s: nat, r: nat) {
    if r > s then forall d {:trigger fat[d]} :: s < d < r && d < |fat| ==> fat[d] != 0
    else forall d {:trigger fat[d]} :: 0 <= d < |fat| && (s < d || 2 <= d < r) ==> fat[d] != 0
  }

  /** Status 1 never occurs in a well-formed FAT; get_fat's callers take it for an internal error. */
  ghost predicate HasBadLink(fat: Fat) { exists d {:trigger fat[d]} :: 2 <= d < |fat| && fat[d] == 1 }

  /** The FAT after create_chain took the free cluster r, to be linked behind clst unless that is 0. */
  ghost predicate Created(fat: Fat, fat': Fat, clst: nat, r: nat, eoc: nat) {
    && 2 <= r < |fat| && fat[r] == 0 && r != clst && (clst == 0 || clst < |fat|)
    && fat' == if clst == 0 then fat[r := eoc] else fat[r := eoc][clst := r]
  }

  /** create_chain keeps the FAT well formed, adds r to exactly one chain and takes one free cluster. */
  lemma CreatedKeepsChains(fat: Fat, chains: set<Chain>, x: Chain, fat': Fat, clst: nat, r: nat, eoc: nat)
    requires WellFormed(fat, chains) && Created(fat, fat', clst, r, eoc) && eoc >= |fat|
    requires if clst == 0 then x == [] else x in chains && clst == x[|x| - 1]
    ensures WellFormed(fat', chains - {x} + {x + [r]})
    ensures FreeCount(fat') == FreeCount(fat) - 1
  {
    FreeFromUpdate(fat, 2, r, eoc);
    if clst == 0 {
      NewChain(fat, chains, r, eoc);
      assert forall y :: y in chains ==> IsChain(fat, y);
      assert x + [r] == [r];
      assert chains - {x} + {x + [r]} == chains + {[r]};
    } else {
      StretchedChain(fat, chains, x, r, eoc);
      FreeFromUpdate(fat[r := eoc], 2, clst, r);
      ChainedIsUsed(fat, x, |x| - 1);
    }
  }

  /** remove_chain on the suffix of x from position k on. */
  lemma RemovedKeepsChains(fat: Fat, chains: set<Chain>, x: Chain, k: nat, eoc: nat)
    requires WellFormed(fat, chains) && x in chains && k < |x| && eoc >= |fat|
    ensures Unlink(if k == 0 then fat else fat[x[k - 1] := eoc], x[k]) == Unlinked(true, CutFat(fat, x, k, eoc), |x| - k)
    ensures WellFormed(CutFat(fat, x, k, eoc), CutChains(chains, x, k))
    ensures FreeCount(CutFat(fat, x, k, eoc)) == FreeCount(fat) + (|x| - k)
  {
    CutChain(fat, chains, x, k, eoc);
    if k == 0 {
      UnlinkChain(fat, x);
      UnlinkCounts(fat, x[0]);
    } else {
      var fat1 := fat[x[k - 1] := eoc];
      CutParts(fat, x, k, eoc);
      UnlinkChain(fat1, x[k..]);
      UnlinkCounts(fat1, x[k]);
      FreeFromUpdate(fat, 2, x[k - 1], eoc);
      ChainedIsUsed(fat, x, k - 1);
    }
  }

  /** The clusters in use from c on. */
  ghost function UsedFrom(fat: Fat, c: nat): set<nat> { set d | c <= d < |fat| && fat[d] != 0 }

  lemma {:induction false} UsedCount(fat: Fat, c: nat)
    requires c <= |fat|
    ensures |UsedFrom(fat, c)| + FreeFrom(fat, c) == |fat| - c
    decreases |fat| - c
  {
    if c < |fat| {
      UsedCount(fat, c + 1);
      if fat[c] == 0 {
        assert UsedFrom(fat, c) == UsedFrom(fat, c + 1);
      } else {
        assert UsedFrom(fat, c) == UsedFrom(fat, c + 1) + {c};
      }
    } else {
      assert UsedFrom(fat, c) == {};
    }
  }

  ghost function Elements(x: Chain): set<nat> { set i | 0 <= i < |x| :: x[i] }

  lemma {:induction false} ElementCount(x: Chain)
    requires Distinct(x)
    ensures |Elements(x)| == |x|
    decreases |x|
  {
    if x != [] {
      var n := |x| - 1;
      ElementCount(x[..n]);
      assert Elements(x) == Elements(x[..n]) + {x[n]};
      assert x[n] !in Elements(x[..n]);
    } else {
      assert Elements(x) == {};
    }
  }

  /** The clusters that the given chains use on a volume with n entries. */
  ghost function Covered(chains: set<Chain>, n: nat): set<nat> { set d | 2 <= d < n && InUse(chains, d) }

  /** The chains besides x, x itself and the free clusters make up the volume. */
  lemma Budget(fat: Fat, others: set<Chain>, x: Chain)
    requires |fat| >= 2 && WellFormed(fat, if x == [] then others else others + {x}) && x !in others
    ensures |Covered(others, |fat|)| + |x| + FreeCount(fat) == |fat| - 2
  {
    var chains := if x == [] then others else others + {x};
    UsedCount(fat, 2);
    if x != [] {
      assert IsChain(fat, x);
      ChainIsAcyclic(fat, x);
    }
    ElementCount(x);
    var us, cs, es := UsedFrom(fat, 2), Covered(others, |fat|), Elements(x);
    forall d ensures d in us <==> d in cs || d in es { UsedIsChained(fat, others, x, d); }
    forall d | d in cs ensures d !in es {
      var y :| y in others && d in y;
      if x != [] { assert Apart(x, y); }
      assert d in es ==> d in x;
    }
    assert us == cs + es && cs !! es;
  }

  lemma UsedIsChained(fat: Fat, others: set<Chain>, x: Chain, d: int)
    requires |fat| >= 2 && WellFormed(fat, if x == [] then others else others + {x})
    ensures d in UsedFrom(fat, 2) <==> d in Covered(others, |fat|) || d in Elements(x)
  {
    var chains := if x == [] then others else others + {x};
    if d in UsedFrom(fat, 2) {
      assert InUse(chains, d);
      var y :| y in chains && d in y;
    }
    if d in Covered(others, |fat|) {
      var y :| y in others && d in y;
      var i :| 0 <= i < |y| && y[i] == d;
      assert IsChain(fat, y);
      ChainedIsUsed(fat, y, i);
    }
    if d in Elements(x) {
      var i :| 0 <= i < |x| && x[i] == d;
      assert IsChain(fat, x);
      ChainedIsUsed(fat, x, i);
    }
  }

  /** Conservation: as long as the other chains stay, what one chain gains the volume loses. */
  lemma Conservation(fat: Fat, fat': Fat, others: set<Chain>, x: Chain, x': Chain)
    requires |fat| == |fat'| >= 2 && x !in others && x' !in others
    requires WellFormed(fat, if x == [] then others else others + {x}) && WellFormed(fat', if x' == [] then others else others + {x'})
    ensures |x| + FreeCount(fat) == |x'| + FreeCount(fat')
  {
    Budget(fat, others, x);
    Budget(fat', others, x');
  }
}
