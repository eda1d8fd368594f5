/** A directory table as a sequence of 32-byte entries, and its meaning as a finite map. */
module DirTable {
  import opened Machine
  import opened FileView

  type Name = seq<Byte>
  type Slot = seq<Byte>

  /** The entry is a file or directory with this name: what dir_find compares. */
  predicate Matches(e: Slot, n: Name)
    requires |e| == 32 && |n| == 11
  {
    e[11] / 8 % 2 == 0 && e[..11] == n
  }

  /** The test of the source: the volume-label bit of the attribute is clear and the eleven bytes are those of the name. */
  lemma MatchMeans(e: Slot, n: Name)
    requires |e| == 32 && |n| == 11
    ensures Matches(e, n) <==> BitAnd(e[11], 0x08) == 0 && forall i :: 0 <= i < 11 ==> e[i] == n[i]
  {
    LabelBit(e[11]);
  }

  /** The attribute AM_VOL. */
  lemma LabelBit(a: Byte)
    ensures BitAnd(a, 0x08) == if a / 8 % 2 == 1 then 8 else 0
  {
    assert BitAnd(a / 8, 1) == if a / 8 % 2 == 1 then 1 else 0;
    assert BitAnd(a / 4, 2) == 2 * BitAnd(a / 8, 1);
    assert BitAnd(a / 2, 4) == 2 * BitAnd(a / 4, 2);
  }

  /** A volume label has nothing to do with any lookup: another label in its place changes none. */
  lemma LabelUnseen(es: seq<Slot>, k: nat, e: Slot, n: Name)
    requires SlotsOk(es) && k < |es| && |e| == 32 && NameOk(n)
    requires es[k][0] != 0 && e[0] != 0 && BitAnd(es[k][11], 0x08) != 0 && BitAnd(e[11], 0x08) != 0
    ensures Lookup(es[k := e], n, 0) == Lookup(es, n, 0) && Lookup(es, n, 0) != Some(k)
  {
    LabelBit(es[k][11]);
    LabelBit(e[11]);
    LookupElsewhere(es, es[k := e], n, k, 0);
    LookupMeans(es, n, 0);
  }

  /** A free slot: deleted or never used. */
  predicate IsFree(e: Slot)
    requires |e| == 32
  {
    e[0] == 0xE5 || e[0] == 0
  }

  ghost predicate SlotsOk(es: seq<Slot>) { forall k {:trigger es[k]} :: 0 <= k < |es| ==> |es[k]| == 32 }

  /** A name create_name can produce: its first byte is neither the end mark nor the deletion mark. */
  predicate NameOk(n: Name) { |n| == 11 && n[0] != 0 && n[0] != 0xE5 }

  datatype Option<T> = None | Some(value: T)

  /** dir_find: the first match before the end of the table, which a zero byte marks. */
  ghost function Lookup(es: seq<Slot>, n: Name, from: nat): Option<nat>
    requires SlotsOk(es) && |n| == 11 && from <= |es|
    decreases |es| - from
  {
    if from == |es| || es[from][0] == 0 then None
    else if Matches(es[from], n) then Some(from)
    else Lookup(es, n, from + 1)
  }

  /** One step of the search. */
  lemma LookupStep(es: seq<Slot>, n: Name, k: nat)
    requires SlotsOk(es) && |n| == 11 && k < |es|
    ensures Lookup(es, n, k) == if es[k][0] == 0 then None else if Matches(es[k], n) then Some(k) else Lookup(es, n, k + 1)
    ensures Lookup(es, n, |es|) == None
  {
  }

  /** Nothing is in use behind the first end mark. */
  ghost predicate ZeroTail(es: seq<Slot>)
    requires SlotsOk(es)
  {
    forall i, j {:trigger es[i], es[j]} :: 0 <= i < j < |es| && es[i][0] == 0 ==> es[j][0] == 0
  }

  /** No name occurs twice. */
  ghost predicate Unique(es: seq<Slot>)
    requires SlotsOk(es)
  {
    forall i, j, n: Name {:trigger Matches(es[i], n), Matches(es[j], n)} ::
      0 <= i < j < |es| && NameOk(n) ==> !(Matches(es[i], n) && Matches(es[j], n))
  }

  /** What dir_register stores: the name and zeros. */
  function NewSlot(n: Name): (e: Slot)
    requires |n| == 11
    ensures |e| == 32
  {
    n + Zeros(21)
  }

  lemma NewSlotMeans(n: Name)
    requires |n| == 11
    ensures forall i {:trigger NewSlot(n)[i]} :: 0 <= i < 32 ==> NewSlot(n)[i] == if i < 11 then n[i] else 0
  {
    assert NewSlot(n)[..11] == n && NewSlot(n)[11..] == Zeros(21);
  }

  /** Lookup by position. */
  lemma {:induction false} LookupAt(es: seq<Slot>, n: Name, from: nat, k: nat)
    requires SlotsOk(es) && |n| == 11 && from <= k < |es|
    requires es[k][0] != 0 && Matches(es[k], n)
    requires forall j {:trigger es[j]} :: from <= j < k ==> es[j][0] != 0 && !Matches(es[j], n)
    ensures Lookup(es, n, from) == Some(k)
    decreases k - from
  {
    if from < k {
      assert es[from][0] != 0 && !Matches(es[from], n);
      LookupAt(es, n, from + 1, k);
    }
  }

  lemma {:induction false} LookupNone(es: seq<Slot>, n: Name, from: nat, z: nat)
    requires SlotsOk(es) && |n| == 11 && from <= z <= |es|
    requires z == |es| || es[z][0] == 0
    requires forall j {:trigger es[j]} :: from <= j < z ==> es[j][0] != 0 && !Matches(es[j], n)
    ensures Lookup(es, n, from) == None
    decreases z - from
  {
    if from < z {
      assert es[from][0] != 0 && !Matches(es[from], n);
      LookupNone(es, n, from + 1, z);
    }
  }

  /** The table ends at z, and the used entries from `from` up to there do not carry the name. */
  ghost predicate EndsAt(es: seq<Slot>, n: Name, from: nat, z: nat)
    requires SlotsOk(es) && |n| == 11
  {
    && from <= z <= |es| && (z == |es| || es[z][0] == 0)
    && forall j {:trigger es[j]} :: from <= j < z ==> es[j][0] != 0 && !Matches(es[j], n)
  }

  /** What a successful and an unsuccessful lookup mean. */
  lemma {:induction false} LookupMeans(es: seq<Slot>, n: Name, from: nat)
    requires SlotsOk(es) && |n| == 11 && from <= |es|
    ensures match Lookup(es, n, from)
      case Some(k) => from <= k < |es| && es[k][0] != 0 && Matches(es[k], n) && forall j {:trigger es[j]} :: from <= j < k ==> es[j][0] != 0 && !Matches(es[j], n)
      case None => exists z: nat :: EndsAt(es, n, from, z)
    decreases |es| - from
  {
    if from == |es| || es[from][0] == 0 {
      assert EndsAt(es, n, from, from);
    } else if !Matches(es[from], n) {
      LookupMeans(es, n, from + 1);
      if Lookup(es, n, from + 1) == None {
        var z: nat :| EndsAt(es, n, from + 1, z);
        assert EndsAt(es, n, from, z);
      }
    }
  }

  /** Slot k is the first free one: where dir_alloc stops. */
  ghost predicate FirstFree(es: seq<Slot>, k: nat)
    requires SlotsOk(es)
  {
    k < |es| && IsFree(es[k]) && forall j {:trigger es[j]} :: 0 <= j < k ==> !IsFree(es[j])
  }

  /** Changing one slot leaves the lookup of a name alone that neither the old nor the new slot carries. */
  lemma {:induction false} LookupElsewhere(es: seq<Slot>, es': seq<Slot>, n: Name, k: nat, from: nat)
    requires SlotsOk(es) && SlotsOk(es') && NameOk(n) && k < |es| == |es'| && from <= |es|
    requires forall j {:trigger es[j]} {:trigger es'[j]} :: 0 <= j < |es| && j != k ==> es'[j] == es[j]
    requires !Matches(es[k], n) && !Matches(es'[k], n) && es'[k][0] != 0
    requires es[k][0] == 0 ==> forall j {:trigger es[j]} :: k <= j < |es| ==> es[j][0] == 0
    ensures Lookup(es', n, from) == Lookup(es, n, from)
    decreases |es| - from
  {
    if from < |es| {
      if from == k && es[k][0] == 0 {
        assert from + 1 < |es| ==> es'[from + 1][0] == 0;
      } else if es[from][0] != 0 && !Matches(es[from], n) {
        LookupElsewhere(es, es', n, k, from + 1);
      }
    }
  }

  /** Registering an absent name makes exactly that name appear. */
  lemma RegisterLaw(es: seq<Slot>, n: Name, k: nat)
    requires SlotsOk(es) && ZeroTail(es) && NameOk(n) && FirstFree(es, k) && Lookup(es, n, 0) == None
    ensures var es' := es[k := NewSlot(n)];
      && SlotsOk(es') && Lookup(es', n, 0) == Some(k)
      && forall m: Name :: NameOk(m) && m != n ==> Lookup(es', m, 0) == Lookup(es, m, 0)
  {
    var es' := es[k := NewSlot(n)];
    assert NewSlot(n)[..11] == n;
    LookupMeans(es, n, 0);
    assert forall j {:trigger es'[j]} :: 0 <= j < k ==> es'[j] == es[j];
    LookupAt(es', n, 0, k);
    forall m: Name | NameOk(m) && m != n ensures Lookup(es', m, 0) == Lookup(es, m, 0) {
      LookupElsewhere(es, es', m, k, 0);
    }
  }

  /** ... and keeps the table in order. */
  lemma RegisterKeeps(es: seq<Slot>, n: Name, k: nat)
    requires SlotsOk(es) && ZeroTail(es) && Unique(es) && NameOk(n) && FirstFree(es, k) && Lookup(es, n, 0) == None
    ensures var es' := es[k := NewSlot(n)]; SlotsOk(es') && ZeroTail(es') && Unique(es')
  {
    var es' := es[k := NewSlot(n)];
    assert NewSlot(n)[..11] == n;
    NoOtherMatch(es, n);
    forall i, j, m: Name {:trigger Matches(es'[i], m), Matches(es'[j], m)} | 0 <= i < j < |es'| && NameOk(m)
      ensures !(Matches(es'[i], m) && Matches(es'[j], m))
    {
      assert i != k && j != k ==> !(Matches(es[i], m) && Matches(es[j], m));
    }
  }

  /** An absent name occurs nowhere in a table that is in order. */
  lemma NoOtherMatch(es: seq<Slot>, n: Name)
    requires SlotsOk(es) && ZeroTail(es) && NameOk(n) && Lookup(es, n, 0) == None
    ensures forall j {:trigger es[j]} :: 0 <= j < |es| ==> !Matches(es[j], n)
  {
    LookupMeans(es, n, 0);
    var z: nat :| EndsAt(es, n, 0, z);
    forall j {:trigger es[j]} | 0 <= j < |es| ensures !Matches(es[j], n) {
      if j >= z && z < |es| {
        assert es[j][0] == 0;
        assert es[j][..11][0] == es[j][0];
      }
    }
  }

  /** Removing a name makes exactly that name disappear. */
  lemma RemoveLaw(es: seq<Slot>, n: Name, k: nat)
    requires SlotsOk(es) && ZeroTail(es) && Unique(es) && NameOk(n) && Lookup(es, n, 0) == Some(k)
    ensures k < |es|
    ensures var es' := es[k := es[k][0 := 0xE5]];
      && SlotsOk(es') && ZeroTail(es') && Unique(es') && Lookup(es', n, 0) == None
      && forall m: Name :: NameOk(m) && m != n ==> Lookup(es', m, 0) == Lookup(es, m, 0)
  {
    LookupMeans(es, n, 0);
    var e := es[k][0 := 0xE5];
    var es' := es[k := e];
    assert forall m: Name :: NameOk(m) ==> !Matches(e, m) by {
      forall m: Name | NameOk(m) ensures !Matches(e, m) { assert e[..11][0] == 0xE5; }
    }
    forall i, j, m: Name {:trigger Matches(es'[i], m), Matches(es'[j], m)} | 0 <= i < j < |es'| && NameOk(m)
      ensures !(Matches(es'[i], m) && Matches(es'[j], m))
    {
      assert i != k && j != k ==> !(Matches(es[i], m) && Matches(es[j], m));
    }
    RemovedIsAbsent(es, es', n, k);
    forall m: Name | NameOk(m) && m != n ensures Lookup(es', m, 0) == Lookup(es, m, 0) {
      LookupElsewhere(es, es', m, k, 0);
    }
  }

  lemma RemovedIsAbsent(es: seq<Slot>, es': seq<Slot>, n: Name, k: nat)
    requires SlotsOk(es) && SlotsOk(es') && Unique(es) && NameOk(n) && k < |es| == |es'| && Matches(es[k], n) && !Matches(es'[k], n)
    requires forall j {:trigger es'[j]} :: 0 <= j < |es| && j != k ==> es'[j] == es[j]
    ensures Lookup(es', n, 0) == None
  {
    forall j {:trigger es'[j]} | 0 <= j < |es| ensures !Matches(es'[j], n) {
      assert j != k ==> Matches(es'[j], n) == Matches(es[j], n);
    }
    LookupMeans(es', n, 0);
  }

  /** es with unused entries behind it. */
  ghost predicate Lengthened(es: seq<Slot>, es': seq<Slot>) {
    SlotsOk(es) && SlotsOk(es') && es <= es' && forall j {:trigger es'[j]} :: |es| <= j < |es'| ==> es'[j] == Zeros(32)
  }

  /** Unused entries behind a table are not seen. */
  lemma {:induction false} StretchLaw(es: seq<Slot>, es': seq<Slot>, n: Name, from: nat)
    requires Lengthened(es, es') && |n| == 11 && from <= |es|
    ensures Lookup(es', n, from) == Lookup(es, n, from)
    decreases |es| - from
  {
    if from < |es| { StretchLaw(es, es', n, from + 1); }
  }

  /** What every operation relies on and keeps: nothing behind the end mark, no name twice. */
  ghost predicate InOrder(es: seq<Slot>) { SlotsOk(es) && ZeroTail(es) && Unique(es) }

  /** Stretching keeps the table in order. */
  lemma StretchKeeps(es: seq<Slot>, es': seq<Slot>)
    requires Lengthened(es, es') && InOrder(es)
    ensures InOrder(es')
  {
    forall i, j | 0 <= i < j < |es'| && es'[i][0] == 0 ensures es'[j][0] == 0 {
      assert j < |es| ==> es[j] == es'[j] && es[i] == es'[i];
    }
    forall i, j, n: Name | 0 <= i < j < |es'| && NameOk(n) ensures !(Matches(es'[i], n) && Matches(es'[j], n)) {
      assert j < |es| ==> !(Matches(es[i], n) && Matches(es[j], n));
      assert j >= |es| ==> es'[j][..11][0] == 0;
    }
  }

  /** A table as a map from names to entries. */
  ghost function Meaning(es: seq<Slot>): imap<Name, Slot>
    requires SlotsOk(es)
  {
    imap n: Name | NameOk(n) && Lookup(es, n, 0).Some? && Lookup(es, n, 0).value < |es| :: es[Lookup(es, n, 0).value]
  }

  /** Looking up is looking into the map. */
  lemma MeaningOf(es: seq<Slot>, n: Name)
    requires SlotsOk(es) && NameOk(n)
    ensures n in Meaning(es) <==> Lookup(es, n, 0).Some?
    ensures n in Meaning(es) ==> Lookup(es, n, 0).value < |es| && Meaning(es)[n] == es[Lookup(es, n, 0).value] && Matches(Meaning(es)[n], n)
  {
    LookupMeans(es, n, 0);
  }

  /** Stretching does not change the map. */
  lemma StretchMeaning(es: seq<Slot>, es': seq<Slot>)
    requires Lengthened(es, es')
    ensures Meaning(es') == Meaning(es)
  {
    forall n: Name | NameOk(n) ensures (n in Meaning(es') <==> n in Meaning(es)) && (n in Meaning(es) ==> Meaning(es')[n] == Meaning(es)[n]) {
      StretchLaw(es, es', n, 0);
      LookupMeans(es, n, 0);
    }
  }

  /** Registering an absent name adds that name to the map and changes nothing else. */
  lemma RegisterMeaning(es: seq<Slot>, n: Name, k: nat)
    requires InOrder(es) && NameOk(n) && FirstFree(es, k) && n !in Meaning(es)
    ensures InOrder(es[k := NewSlot(n)])
    ensures Meaning(es[k := NewSlot(n)]) == Meaning(es)[n := NewSlot(n)]
  {
    MeaningOf(es, n);
    RegisterKeeps(es, n, k);
    RegisterLaw(es, n, k);
    var es' := es[k := NewSlot(n)];
    var want := Meaning(es)[n := NewSlot(n)];
    forall m: Name | NameOk(m) ensures (m in Meaning(es') <==> m in want) && (m in want ==> Meaning(es')[m] == want[m]) {
      MeaningOf(es', m);
      MeaningOf(es, m);
      if m != n { NotThere(es, m, k); }
    }
  }

  /** A free entry is nobody's. */
  lemma NotThere(es: seq<Slot>, m: Name, k: nat)
    requires SlotsOk(es) && NameOk(m) && k < |es| && IsFree(es[k])
    ensures Lookup(es, m, 0) != Some(k)
  {
    LookupMeans(es, m, 0);
    assert es[k][..11][0] == es[k][0];
  }

  /** t' is t with another entry of the name n in place k. */
  ghost predicate Renewed(t: seq<Slot>, t': seq<Slot>, n: Name, k: nat) {
    && SlotsOk(t) && |n| == 11 && k < |t| == |t'| && |t'[k]| == 32 && t' == t[k := t'[k]]
    && Matches(t'[k], n) && t'[k][0] == t[k][0]
  }

  /** Renewing the entry of a name changes what the name stands for and nothing else. */
  lemma RenewMeaning(t: seq<Slot>, t': seq<Slot>, n: Name, k: nat)
    requires InOrder(t) && NameOk(n) && Lookup(t, n, 0) == Some(k) && Renewed(t, t', n, k)
    ensures InOrder(t') && Lookup(t', n, 0) == Some(k) && Meaning(t') == Meaning(t)[n := t'[k]]
  {
    LookupMeans(t, n, 0);
    LookupAt(t', n, 0, k);
    forall i, j, m: Name {:trigger Matches(t'[i], m), Matches(t'[j], m)} | 0 <= i < j < |t'| && NameOk(m)
      ensures !(Matches(t'[i], m) && Matches(t'[j], m))
    {
      assert !(Matches(t[i], m) && Matches(t[j], m));
    }
    var want := Meaning(t)[n := t'[k]];
    forall m: Name | NameOk(m) ensures (m in Meaning(t') <==> m in want) && (m in want ==> Meaning(t')[m] == want[m]) {
      MeaningOf(t', m);
      MeaningOf(t, m);
      if m != n {
        LookupElsewhere(t, t', m, k, 0);
        LookupMeans(t, m, 0);
      }
    }
  }

  /** Removing a name takes that name out of the map and changes nothing else. */
  lemma RemoveMeaning(es: seq<Slot>, n: Name, k: nat)
    requires InOrder(es) && NameOk(n) && Lookup(es, n, 0) == Some(k)
    ensures k < |es| && InOrder(es[k := es[k][0 := 0xE5]])
    ensures Meaning(es[k := es[k][0 := 0xE5]]) == Meaning(es) - {n}
  {
    RemoveLaw(es, n, k);
    var es' := es[k := es[k][0 := 0xE5]];
    var want := Meaning(es) - {n};
    forall m: Name | NameOk(m) ensures (m in Meaning(es') <==> m in want) && (m in want ==> Meaning(es')[m] == want[m]) {
      MeaningOf(es', m);
      MeaningOf(es, m);
      if m in want { LookupMeans(es, n, 0); }
    }
  }
}
