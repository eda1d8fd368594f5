/** File names: create_name packs a path segment into 11 bytes, get_fileinfo prints them. */
module Names {
  import opened Machine
  import opened DirTable

  type Text = seq<Byte>

  const SPACE: Byte := 0x20
  const DOT: Byte := 0x2E

  /** The upper half of an up-case table: it yields capital letters and extended characters only. */
  ghost predicate TableOk(cvt: seq<Byte>) { |cvt| == 128 && Capitals(cvt) }

  /** Code page 437: the capitals of the characters 80 to AF, by rows; the others are their own capitals. */
  const ROW8: seq<Byte> := [0x80, 0x9A, 0x45, 0x41, 0x8E, 0x41, 0x8F, 0x80, 0x45, 0x45, 0x45, 0x49, 0x49, 0x49, 0x8E, 0x8F]
  const ROW9: seq<Byte> := [0x90, 0x92, 0x92, 0x4F, 0x99, 0x4F, 0x55, 0x55, 0x59, 0x99, 0x9A, 0x9B, 0x9C, 0x9D, 0x9E, 0x9F]
  const ROWA: seq<Byte> := [0x41, 0x49, 0x4F, 0x55, 0xA5, 0xA5, 0xA6, 0xA7, 0xA8, 0xA9, 0xAA, 0xAB, 0xAC, 0xAD, 0xAE, 0xAF]

  function CodePage437(): (t: seq<Byte>) {
    seq(128, i requires 0 <= i < 128 =>
      if i < 16 then ROW8[i] else if i < 32 then ROW9[i - 16] else if i < 48 then ROWA[i - 32] else 0x80 + i)
  }

  /** Capital letters and extended characters. */
  ghost predicate Capitals(s: seq<Byte>) { forall i {:trigger s[i]} :: 0 <= i < |s| ==> 0x41 <= s[i] <= 0x5A || 0x80 <= s[i] }

  /** The table of the configured code page is such a table. */
  lemma CodePage437Ok()
    ensures TableOk(CodePage437())
  {
    assert Capitals(ROW8);
    assert Capitals(ROW9);
    assert Capitals(ROWA);
    var t := CodePage437();
    forall i {:trigger t[i]} | 0 <= i < 128 ensures 0x41 <= t[i] <= 0x5A || 0x80 <= t[i] {
      assert i < 16 ==> t[i] == ROW8[i];
      assert 16 <= i < 32 ==> t[i] == ROW9[i - 16];
      assert 32 <= i < 48 ==> t[i] == ROWA[i - 32];
    }
  }

  /** Characters that end a segment. */
  predicate Ends(c: Byte) { c <= 0x20 || c == 0x2F || c == 0x5C }

  /** The characters chk_chr rejects. */
  predicate Illegal(c: Byte) {
    c in [0x22, 0x2A, 0x2B, 0x2C, 0x3A, 0x3B, 0x3C, 0x3D, 0x3E, 0x3F, 0x5B, 0x5D, 0x7C, 0x7F]
  }

  /** Extended characters by the table, then letters. */
  function Convert(cvt: seq<Byte>, c: Byte): Byte
    requires |cvt| == 128
  {
    if c >= 0x80 then cvt[c - 0x80] else c
  }

  function Up(cvt: seq<Byte>, c: Byte): Byte
    requires |cvt| == 128
  {
    var d := Convert(cvt, c);
    if 0x61 <= d <= 0x7A then d - 0x20 else d
  }

  function UpText(cvt: seq<Byte>, s: Text): (r: Text)
    requires |cvt| == 128
    ensures |r| == |s| && forall i {:trigger r[i]} :: 0 <= i < |s| ==> r[i] == Up(cvt, s[i])
  {
    seq(|s|, i requires 0 <= i < |s| => Up(cvt, s[i]))
  }

  const SMALL: string := "abcdefghijklmnopqrstuvwxyz"
  const CAPITAL: string := "ABCDEFGHIJKLMNOPQRSTUVWXYZ"

  /** Character c is in the string. */
  ghost predicate Among(c: Byte, s: string) { exists i {:trigger s[i]} :: 0 <= i < |s| && s[i] as int == c as int }

  /** Small letters become the capital at their place in the alphabet, extended characters go by the table, and no other character changes. */
  lemma UpMeans(cvt: seq<Byte>, c: Byte)
    requires TableOk(cvt)
    ensures forall i {:trigger SMALL[i]} :: 0 <= i < 26 && c == SMALL[i] as int ==> Up(cvt, c) == CAPITAL[i] as int
    ensures c >= 128 ==> Up(cvt, c) == cvt[c - 128]
    ensures c < 128 && !Among(c, SMALL) ==> Up(cvt, c) == c
  {
    Alphabet(c);
    if 0x61 <= c <= 0x7A { assert SMALL[c - 0x61] as int == c as int; }
  }

  lemma Alphabet(c: Byte)
    ensures forall i {:trigger SMALL[i]} :: 0 <= i < 26 ==> SMALL[i] as int == 0x61 + i && CAPITAL[i] as int == 0x41 + i
  {
  }

  /** The characters create_name rejects, and those that end a segment. */
  lemma IllegalMeans(c: Byte)
    ensures Illegal(c) <==> c == 127 || Among(c, "\"*+,:;<=>?[]|")
    ensures Ends(c) <==> c <= 32 || Among(c, "/\\")
  {
    var bad, ends := "\"*+,:;<=>?[]|", "/\\";
    assert |bad| == 13 && |ends| == 2;
    assert bad[0] as int == 0x22 && bad[1] as int == 0x2A && bad[2] as int == 0x2B && bad[3] as int == 0x2C && bad[4] as int == 0x3A
      && bad[5] as int == 0x3B && bad[6] as int == 0x3C && bad[7] as int == 0x3D && bad[8] as int == 0x3E && bad[9] as int == 0x3F
      && bad[10] as int == 0x5B && bad[11] as int == 0x5D && bad[12] as int == 0x7C;
    assert ends[0] as int == 0x2F && ends[1] as int == 0x5C;
  }

  /** The length of the first segment of a path. */
  function SegmentEnd(p: Text, i: nat): (n: nat)
    requires i <= |p|
    ensures i <= n <= |p| && (n < |p| ==> Ends(p[n])) && forall k {:trigger p[k]} :: i <= k < n ==> !Ends(p[k])
    decreases |p| - i
  {
    if i == |p| || Ends(p[i]) then i else SegmentEnd(p, i + 1)
  }

  /** The place of the first dot, the length if there is none. */
  function DotAt(s: Text, i: nat): (d: nat)
    requires i <= |s|
    ensures i <= d <= |s| && (d < |s| ==> s[d] == DOT) && forall k {:trigger s[k]} :: i <= k < d ==> s[k] != DOT
    decreases |s| - i
  {
    if i == |s| || s[i] == DOT then i else DotAt(s, i + 1)
  }

  /** Eight characters, a dot, three characters, all of them legal. */
  ghost predicate Accepted(cvt: seq<Byte>, seg: Text)
    requires |cvt| == 128
  {
    var d := DotAt(seg, 0);
    && seg != [] && d <= 8 && |seg| <= d + 4
    && forall k {:trigger seg[k]} :: 0 <= k < |seg| && k != d ==> seg[k] != DOT && !Illegal(Convert(cvt, seg[k]))
  }

  /** The part before the dot, and the part behind it. */
  function Body(seg: Text): Text { seg[..DotAt(seg, 0)] }
  function Ext(seg: Text): Text { if DotAt(seg, 0) < |seg| then seg[DotAt(seg, 0) + 1..] else [] }

  /** Both parts padded with spaces. */
  function Padded(b: Text, e: Text): (n: Name)
    requires |b| <= 8 && |e| <= 3
    ensures |n| == 11
  {
    seq(11, k requires 0 <= k < 11 => if k < |b| then b[k] else if 8 <= k < 8 + |e| then e[k - 8] else SPACE)
  }

  /** The stored form: the deletion mark is replaced where it would be the first byte. */
  function Stored(b: Text, e: Text): (n: Name)
    requires |b| <= 8 && |e| <= 3
    ensures |n| == 11
  {
    var n := Padded(b, e);
    if n[0] == 0xE5 then n[0 := 0x05] else n
  }

  /** get_fileinfo: the stored bytes without padding; 05 stands for E5. */
  function Kept(s: Text): Text {
    if s == [] then []
    else Kept(s[..|s| - 1]) + if s[|s| - 1] == SPACE then [] else [Restored(s[|s| - 1])]
  }

  function Printed(n: Name): Text
    requires |n| == 11
  {
    Kept(n[..8]) + (if n[8] == SPACE then [] else [DOT]) + Kept(n[8..])
  }

  /** A name as it is shown. */
  function Shown(b: Text, e: Text): Text { b + if e == [] then [] else [DOT] + e }

  /** The loop of get_fileinfo. */
  method GetFileinfo(dir: array<Byte>, o: nat) returns (fname: Text)
    requires o + 11 <= dir.Length
    ensures fname == Printed(dir[o..o + 11])
  {
    ghost var n := dir[o..o + 11];
    var si := 0;
    fname := [];
    while si < 11
      invariant 0 <= si <= 11
      invariant si <= 8 ==> fname == Kept(n[..si])
      invariant si > 8 ==> fname == Kept(n[..8]) + (if n[8] == SPACE then [] else [DOT]) + Kept(n[8..][..si - 8])
    {
      assert n[..si + 1][..si] == n[..si];
      assert si >= 8 ==> n[8..][..si - 8 + 1][..si - 8] == n[8..][..si - 8];
      var c := dir[o + si];
      assert n[si] == c;
      si := si + 1;
      if c != SPACE {
        if c == 0x05 { c := 0xE5; }
        if si == 9 { fname := fname + [DOT]; }
        fname := fname + [c];
      }
    }
    assert n[8..][..3] == n[8..];
  }

  /** Characters a stored name is made of. */
  ghost predicate Plain(s: Text) { forall k {:trigger s[k]} :: 0 <= k < |s| ==> s[k] > 0x20 && s[k] != DOT }

  /** Padding disappears. */
  lemma {:induction false} KeptPadded(s: Text, m: nat)
    requires m <= |s| && (forall k {:trigger s[k]} :: m <= k < |s| ==> s[k] == SPACE) && forall k {:trigger s[k]} :: 0 <= k < m ==> s[k] != SPACE
    ensures Kept(s) == Kept(s[..m])
    decreases |s|
  {
    if m < |s| {
      KeptPadded(s[..|s| - 1], m);
      assert s[..|s| - 1][..m] == s[..m];
    } else {
      assert s[..m] == s;
    }
  }

  /** What is shown for a stored character. */
  function Restored(c: Byte): Byte { if c == 0x05 then 0xE5 else c }

  /** Characters other than padding are kept. */
  lemma {:induction false} KeptPlain(s: Text, t: Text)
    requires |s| == |t|
    requires forall k {:trigger s[k]} :: 0 <= k < |s| ==> s[k] != SPACE && t[k] == Restored(s[k])
    ensures Kept(s) == t
    decreases |s|
  {
    if s != [] {
      KeptPlain(s[..|s| - 1], t[..|s| - 1]);
      assert t == t[..|s| - 1] + [t[|s| - 1]];
      assert s[|s| - 1] != SPACE;
    }
  }

  /** Printing undoes storing. */
  lemma StoredPrints(b: Text, e: Text)
    requires |b| <= 8 && |e| <= 3 && Plain(b) && Plain(e)
    ensures Printed(Stored(b, e)) == Shown(b, e)
  {
    BodyPrints(b, e);
    ExtPrints(b, e);
  }

  lemma BodyPrints(b: Text, e: Text)
    requires |b| <= 8 && |e| <= 3 && Plain(b) && Plain(e)
    ensures Kept(Stored(b, e)[..8]) == b
  {
    var n := Stored(b, e)[..8];
    KeptPadded(n, |b|);
    KeptPlain(n[..|b|], b);
  }

  lemma ExtPrints(b: Text, e: Text)
    requires |b| <= 8 && |e| <= 3 && Plain(b) && Plain(e)
    ensures Kept(Stored(b, e)[8..]) == e && (Stored(b, e)[8] == SPACE <==> e == [])
  {
    var n := Stored(b, e)[8..];
    KeptPadded(n, |e|);
    KeptPlain(n[..|e|], e);
  }

  /** The name a segment stands for: in capitals, without a dot at the end. */
  ghost function Canonical(cvt: seq<Byte>, seg: Text): Text
    requires |cvt| == 128 && seg != []
  {
    UpText(cvt, if seg[|seg| - 1] == DOT then seg[..|seg| - 1] else seg)
  }

  /** The 11 bytes of a segment. */
  ghost function NameOf(cvt: seq<Byte>, seg: Text): (n: Name)
    requires |cvt| == 128 && Accepted(cvt, seg)
    ensures |n| == 11
  {
    Stored(UpText(cvt, Body(seg)), UpText(cvt, Ext(seg)))
  }

  lemma PlainParts(cvt: seq<Byte>, seg: Text)
    requires TableOk(cvt) && Accepted(cvt, seg) && forall k {:trigger seg[k]} :: 0 <= k < |seg| ==> !Ends(seg[k])
    ensures Plain(UpText(cvt, Body(seg))) && Plain(UpText(cvt, Ext(seg)))
  {
    var d := DotAt(seg, 0);
    var b, e := Body(seg), Ext(seg);
    forall k {:trigger b[k]} | 0 <= k < |b| ensures Up(cvt, b[k]) > 0x20 && Up(cvt, b[k]) != DOT { assert b[k] == seg[k]; }
    forall k {:trigger e[k]} | 0 <= k < |e| ensures Up(cvt, e[k]) > 0x20 && Up(cvt, e[k]) != DOT { assert e[k] == seg[d + 1 + k]; }
  }

  /** get_fileinfo prints the up-cased segment, and the stored name is no end and no deletion mark. */
  lemma NameRoundTrip(cvt: seq<Byte>, seg: Text)
    requires TableOk(cvt) && Accepted(cvt, seg) && forall k {:trigger seg[k]} :: 0 <= k < |seg| ==> !Ends(seg[k])
    ensures Printed(NameOf(cvt, seg)) == Canonical(cvt, seg)
    ensures NameOk(NameOf(cvt, seg))
  {
    var b, e := UpText(cvt, Body(seg)), UpText(cvt, Ext(seg));
    PlainParts(cvt, seg);
    StoredPrints(b, e);
    ShownIsCanonical(cvt, seg);
    FirstStored(b, e);
  }

  lemma FirstStored(b: Text, e: Text)
    requires |b| <= 8 && |e| <= 3 && Plain(b)
    ensures NameOk(Stored(b, e))
  {
  }

  lemma ShownIsCanonical(cvt: seq<Byte>, seg: Text)
    requires TableOk(cvt) && Accepted(cvt, seg)
    ensures Shown(UpText(cvt, Body(seg)), UpText(cvt, Ext(seg))) == Canonical(cvt, seg)
  {
    var d := DotAt(seg, 0);
    var b, e, c := UpText(cvt, Body(seg)), UpText(cvt, Ext(seg)), Canonical(cvt, seg);
    if d < |seg| - 1 {
      assert seg[|seg| - 1] != DOT;
      var w := b + [DOT] + e;
      assert |w| == |c| == |seg|;
      forall k | 0 <= k < |seg| ensures w[k] == c[k] {
        assert k < d ==> w[k] == b[k] && Body(seg)[k] == seg[k];
        assert k > d ==> w[k] == e[k - d - 1] && Ext(seg)[k - d - 1] == seg[k];
      }
      assert c == w;
    } else {
      assert e == [];
      assert c == b;
    }
  }

  /** Names that are shown alike are the same parts. */
  lemma ShownApart(b: Text, e: Text, b': Text, e': Text)
    requires Plain(b) && Plain(e) && Plain(b') && Plain(e') && Shown(b, e) == Shown(b', e')
    ensures b == b' && e == e'
  {
    DotOf(b, e, 0);
    DotOf(b', e', 0);
    var s := Shown(b, e);
    assert b == s[..|b|] == b';
    assert e == if |s| == |b| then [] else s[|b| + 1..];
    assert e' == if |s| == |b'| then [] else s[|b'| + 1..];
  }

  /** The first dot of a shown name is the one behind the body. */
  lemma {:induction false} DotOf(b: Text, e: Text, i: nat)
    requires Plain(b) && i <= |b|
    ensures DotAt(Shown(b, e), i) == |b|
    decreases |b| - i
  {
    if i < |b| {
      assert Shown(b, e)[i] == b[i];
      DotOf(b, e, i + 1);
    }
  }

  /** Two segments have the same stored name exactly when they are the same up to case and a final dot. */
  lemma SameNameIffSameText(cvt: seq<Byte>, seg: Text, seg': Text)
    requires TableOk(cvt) && Accepted(cvt, seg) && Accepted(cvt, seg')
    requires forall k {:trigger seg[k]} :: 0 <= k < |seg| ==> !Ends(seg[k])
    requires forall k {:trigger seg'[k]} :: 0 <= k < |seg'| ==> !Ends(seg'[k])
    ensures NameOf(cvt, seg) == NameOf(cvt, seg') <==> Canonical(cvt, seg) == Canonical(cvt, seg')
  {
    NameRoundTrip(cvt, seg);
    NameRoundTrip(cvt, seg');
    if Canonical(cvt, seg) == Canonical(cvt, seg') {
      PlainParts(cvt, seg);
      PlainParts(cvt, seg');
      var b, e := UpText(cvt, Body(seg)), UpText(cvt, Ext(seg));
      var b', e' := UpText(cvt, Body(seg')), UpText(cvt, Ext(seg'));
      StoredPrints(b, e);
      StoredPrints(b', e');
      ShownApart(b, e, b', e');
    }
  }

  /** A table under which capitals stay what they are. */
  ghost predicate Stable(cvt: seq<Byte>)
    requires |cvt| == 128
  {
    forall c: Byte {:trigger Up(cvt, c)} :: Up(cvt, Up(cvt, c)) == Up(cvt, c)
  }

  lemma CodePage437Stable()
    ensures Stable(CodePage437())
  {
    var t := CodePage437();
    forall i {:trigger t[i]} | 0 <= i < 128 ensures t[i] < 0x80 || t[t[i] - 0x80] == t[i] {
      assert i < 16 ==> t[i] == ROW8[i];
      assert 16 <= i < 32 ==> t[i] == ROW9[i - 16];
      assert 32 <= i < 48 ==> t[i] == ROWA[i - 32];
      assert ROW8[0] == 0x80 && ROW8[14] == 0x8E && ROW8[15] == 0x8F && ROWA[5] == 0xA5;
    }
    CodePage437Ok();
    forall c: Byte ensures Up(t, Up(t, c)) == Up(t, c) {
      if c >= 0x80 { assert t[c - 0x80] < 0x80 || t[t[c - 0x80] - 0x80] == t[c - 0x80]; }
    }
  }

  /** What get_fileinfo prints for a stored name leads create_name back to it, except that the single dot prints as nothing. */
  lemma ListedNameIsFound(cvt: seq<Byte>, seg: Text)
    requires TableOk(cvt) && Stable(cvt) && Accepted(cvt, seg) && seg != [DOT] && forall k {:trigger seg[k]} :: 0 <= k < |seg| ==> !Ends(seg[k])
    ensures var shown := Printed(NameOf(cvt, seg)); Accepted(cvt, shown) && NameOf(cvt, shown) == NameOf(cvt, seg)
  {
    var c := Canonical(cvt, seg);
    NameRoundTrip(cvt, seg);
    CanonicalAccepted(cvt, seg);
    assert Canonical(cvt, c) == c;
    SameNameIffSameText(cvt, c, seg);
  }

  lemma CanonicalAccepted(cvt: seq<Byte>, seg: Text)
    requires TableOk(cvt) && Stable(cvt) && Accepted(cvt, seg) && seg != [DOT] && forall k {:trigger seg[k]} :: 0 <= k < |seg| ==> !Ends(seg[k])
    ensures var c := Canonical(cvt, seg); c != [] && Accepted(cvt, c) && (forall k {:trigger c[k]} :: 0 <= k < |c| ==> !Ends(c[k])) && c[|c| - 1] != DOT
    ensures Canonical(cvt, Canonical(cvt, seg)) == Canonical(cvt, seg)
  {
    var c := Canonical(cvt, seg);
    var d, n := DotAt(seg, 0), |c|;
    forall k {:trigger c[k]} | 0 <= k < n ensures c[k] == Up(cvt, seg[k]) && !Ends(c[k]) && (c[k] == DOT <==> k == d) && !Illegal(Convert(cvt, c[k])) && Up(cvt, c[k]) == c[k] {
      assert k == d || (seg[k] != DOT && !Illegal(Convert(cvt, seg[k])));
    }
    DotIs(c, 0, if d < n then d else n);
  }

  lemma {:induction false} DotIs(s: Text, i: nat, d: nat)
    requires i <= d <= |s| && (d < |s| ==> s[d] == DOT) && forall k {:trigger s[k]} :: i <= k < d ==> s[k] != DOT
    ensures DotAt(s, i) == d
    decreases d - i
  {
    if i < d { DotIs(s, i + 1, d); }
  }

  /** What create_name has done with the first j characters of a segment: the parts so far, in capitals. */
  ghost predicate Progress(cvt: seq<Byte>, p: Text, j: nat, i: nat, ni: nat, fn: seq<Byte>)
    requires |cvt| == 128
  {
    j <= |p| && |fn| == 12 && i <= ni && (ni == 8 || ni == 11) && forall t {:trigger OpenName(t)} :: OpenName(t) ==> Packed(cvt, p, j, i, ni, fn)
  }

  ghost predicate OpenName(t: int) { true }

  ghost predicate Packed(cvt: seq<Byte>, p: Text, j: nat, i: nat, ni: nat, fn: seq<Byte>)
    requires |cvt| == 128 && j <= |p| && |fn| == 12
  {
    var d := DotAt(p[..j], 0);
    && d <= 8 && j <= d + 4
    && (if d == j then ni == 8 && i == j else ni == 11 && i == 8 + (j - d - 1))
    && fn[..11] == Padded(UpText(cvt, Body(p[..j])), UpText(cvt, Ext(p[..j])))
    && forall k {:trigger p[k]} :: 0 <= k < j ==> !Ends(p[k]) && (k != d ==> p[k] != DOT && !Illegal(Convert(cvt, p[k])))
  }

  /** The first dot does not move when the text grows behind it. */
  lemma {:induction false} DotGrows(p: Text, j: nat, n: nat, i: nat)
    requires i <= j <= n <= |p|
    ensures DotAt(p[..n], i) == if DotAt(p[..j], i) < j then DotAt(p[..j], i) else DotAt(p[..n], j)
    decreases j - i
  {
    if i < j && p[i] != DOT { DotGrows(p, j, n, i + 1); }
  }

  lemma NothingRead(cvt: seq<Byte>, p: Text, fn: seq<Byte>)
    requires |cvt| == 128 && |fn| == 12 && forall k {:trigger fn[k]} :: 0 <= k < 11 ==> fn[k] == SPACE
    ensures Progress(cvt, p, 0, 0, 8, fn)
  {
    assert p[..0] == [];
  }

  /** A first dot. */
  lemma FirstDot(cvt: seq<Byte>, p: Text, j: nat, i: nat, fn: seq<Byte>)
    requires |cvt| == 128 && Progress(cvt, p, j, i, 8, fn) && j < |p| && p[j] == DOT
    ensures Progress(cvt, p, j + 1, 8, 11, fn)
  {
    assert OpenName(0);
    DotGrows(p, j, j + 1, 0);
    assert Body(p[..j + 1]) == Body(p[..j]);
    assert Ext(p[..j + 1]) == Ext(p[..j]) == [];
  }

  /** A character goes to the place i. */
  lemma OneMore(cvt: seq<Byte>, p: Text, j: nat, i: nat, ni: nat, fn: seq<Byte>)
    requires |cvt| == 128 && Progress(cvt, p, j, i, ni, fn) && j < |p| && i < ni && p[j] != DOT && !Ends(p[j]) && !Illegal(Convert(cvt, p[j]))
    ensures Progress(cvt, p, j + 1, i + 1, ni, fn[i := Up(cvt, p[j])])
  {
    assert OpenName(0);
    DotGrows(p, j, j + 1, 0);
    var d, fn' := DotAt(p[..j], 0), fn[i := Up(cvt, p[j])];
    assert d <= 8 && j <= d + 4 && DotAt(p[..j + 1], 0) == if d == j then j + 1 else d;
    assert fn'[..11] == Padded(UpText(cvt, Body(p[..j + 1])), UpText(cvt, Ext(p[..j + 1]))) by {
      PadMore(fn, UpText(cvt, Body(p[..j])), UpText(cvt, Ext(p[..j])), Up(cvt, p[j]));
      PartsGrow(cvt, p, j);
    }
  }

  /** What one more character other than a dot does to the parts. */
  lemma PartsGrow(cvt: seq<Byte>, p: Text, j: nat)
    requires |cvt| == 128 && j < |p| && p[j] != DOT
    ensures var q, q' := p[..j], p[..j + 1];
      if DotAt(q, 0) == j then UpText(cvt, Body(q')) == UpText(cvt, Body(q)) + [Up(cvt, p[j])] && UpText(cvt, Ext(q')) == UpText(cvt, Ext(q)) == []
      else UpText(cvt, Body(q')) == UpText(cvt, Body(q)) && UpText(cvt, Ext(q')) == UpText(cvt, Ext(q)) + [Up(cvt, p[j])]
  {
    DotGrows(p, j, j + 1, 0);
    var q, q' := p[..j], p[..j + 1];
    if DotAt(q, 0) == j {
      assert Body(q') == Body(q) + [p[j]];
    } else {
      assert Body(q') == Body(q) && Ext(q') == Ext(q) + [p[j]];
    }
  }

  /** One more character in the body or in the extension. */
  lemma PadMore(fn: seq<Byte>, b: Text, e: Text, c: Byte)
    requires |fn| == 12 && |b| <= 8 && |e| <= 3 && fn[..11] == Padded(b, e)
    ensures |b| < 8 && e == [] ==> fn[|b| := c][..11] == Padded(b + [c], e)
    ensures |e| < 3 ==> fn[8 + |e| := c][..11] == Padded(b, e + [c])
  {
    assert forall k {:trigger fn[k]} :: 0 <= k < 11 ==> fn[k] == Padded(b, e)[k];
  }

  /** Why create_name rejects a segment. */
  lemma Rejected(cvt: seq<Byte>, p: Text, j: nat, i: nat, ni: nat, fn: seq<Byte>, n: nat)
    requires |cvt| == 128 && Progress(cvt, p, j, i, ni, fn) && j < n <= |p|
    requires if p[j] == DOT then ni == 11 else i >= ni || Illegal(Convert(cvt, p[j]))
    ensures !Accepted(cvt, p[..n])
  {
    assert OpenName(0);
    DotGrows(p, j, n, 0);
    assert p[..n][j] == p[j];
  }

  /** At the end of the segment. */
  lemma AllRead(cvt: seq<Byte>, p: Text, n: nat, i: nat, ni: nat, fn: seq<Byte>)
    requires |cvt| == 128 && Progress(cvt, p, n, i, ni, fn)
    ensures i != 0 <==> Accepted(cvt, p[..n])
    ensures i != 0 ==> NameOf(cvt, p[..n]) == if fn[0] == 0xE5 then fn[..11][0 := 0x05] else fn[..11]
  {
    assert OpenName(0);
    assert forall k {:trigger p[..n][k]} :: 0 <= k < n ==> p[..n][k] == p[k];
    assert fn[..11][0] == fn[0];
  }

  predicate Separator(c: Byte) { c == 0x2F || c == 0x5C }

  /** si is behind the separators at position n, or behind the character that ends the path. */
  ghost predicate NextSegment(p: Text, n: nat, si: nat) {
    && n < si <= |p| && (forall k {:trigger p[k]} :: n < k < si ==> Separator(p[n]) && Separator(p[k]))
    && (Separator(p[n]) ==> si < |p| && !Separator(p[si]))
  }

  method SkipSeparators(p: Text, start: nat) returns (si: nat)
    requires 0 < start < |p| && p[|p| - 1] == 0 && Separator(p[start - 1])
    ensures start <= si && NextSegment(p, start - 1, si)
  {
    si := start;
    while Separator(p[si])
      invariant start <= si < |p| && forall k {:trigger p[k]} :: start <= k < si ==> Separator(p[k])
      decreases |p| - si
    {
      si := si + 1;
    }
  }

  /** create_name on one character of the segment: a dot, or a character for the place i. */
  method TakeChar(cvt: seq<Byte>, ghost p: Text, ghost j: nat, ch: Byte, i0: nat, ni0: nat, fn: array<Byte>, ghost n: nat)
    returns (ok: bool, i: nat, ni: nat)
    requires |cvt| == 128 && fn.Length == 12 && Progress(cvt, p, j, i0, ni0, fn[..]) && j < n <= |p| && ch == p[j] && !Ends(ch)
    modifies fn
    ensures ok ==> Progress(cvt, p, j + 1, i, ni, fn[..])
    ensures !ok ==> !Accepted(cvt, p[..n])
  {
    var c := ch;
    i, ni := i0, ni0;
    if c == DOT || i >= ni {
      if ni == 11 || c != DOT {
        Rejected(cvt, p, j, i, ni, fn[..], n);
        return false, i, ni;
      }
      FirstDot(cvt, p, j, i, fn[..]);
      return true, 8, 11;
    }
    if c >= 0x80 { c := cvt[c - 0x80]; }
    if Illegal(c) {
      Rejected(cvt, p, j, i, ni, fn[..], n);
      return false, i, ni;
    }
    OneMore(cvt, p, j, i, ni, fn[..]);
    if 0x61 <= c <= 0x7A { c := c - 0x20; }
    fn[i] := c;
    i := i + 1;
    ok := true;
  }

  /** create_name: pack the first segment of a path into fn; si is where the next one begins. */
  method CreateName(cvt: seq<Byte>, p: Text, fn: array<Byte>) returns (res: FResult, si: nat)
    requires TableOk(cvt) && fn.Length == 12 && |p| > 0 && p[|p| - 1] == 0
    modifies fn
    ensures var seg := p[..SegmentEnd(p, 0)];
      && res == (if Accepted(cvt, seg) then FrOk else FrInvalidName)
      && (res == FrOk ==> fn[..11] == NameOf(cvt, seg))
    ensures res == FrOk ==> NextSegment(p, SegmentEnd(p, 0), si) && fn[11] == if Separator(p[SegmentEnd(p, 0)]) then 0 else 4
  {
    ghost var n := SegmentEnd(p, 0);
    forall k | 0 <= k < 11 { fn[k] := SPACE; }
    si := 0;
    var i, ni := 0, 8;
    var c: Byte := 0;
    NothingRead(cvt, p, fn[..]);
    while true
      invariant 0 <= si <= n && Progress(cvt, p, si, i, ni, fn[..])
      decreases n - si
    {
      ghost var j := si;
      c := p[si];
      si := si + 1;
      if c <= 0x20 { break; }
      if c == 0x2F || c == 0x5C {
        si := SkipSeparators(p, si);
        break;
      }
      var ok;
      ok, i, ni := TakeChar(cvt, p, j, c, i, ni, fn, n);
      if !ok { return FrInvalidName, si; }
    }
    AllRead(cvt, p, n, i, ni, fn[..]);
    if i == 0 { return FrInvalidName, si; }
    Finish(fn, c);
    res := FrOk;
  }

  /** The end of create_name: the deletion mark replaced, the flag for the last segment set. */
  method Finish(fn: array<Byte>, c: Byte)
    requires fn.Length == 12
    modifies fn
    ensures fn[..11] == if old(fn[0]) == 0xE5 then old(fn[..11])[0 := 0x05] else old(fn[..11])
    ensures fn[11] == if c <= 0x20 then 4 else 0
  {
    if fn[0] == 0xE5 { fn[0] := 0x05; }
    fn[11] := if c <= 0x20 then 4 else 0;
  }

  /** The only accepted segment of which nothing is printed is a single dot. */
  lemma SingleDot(cvt: seq<Byte>, seg: Text)
    requires TableOk(cvt) && Accepted(cvt, seg) && forall k {:trigger seg[k]} :: 0 <= k < |seg| ==> !Ends(seg[k])
    ensures Printed(NameOf(cvt, seg)) == [] <==> seg == [DOT]
  {
    NameRoundTrip(cvt, seg);
  }

  /** A single dot is accepted with every table, stored as eleven spaces and printed as nothing. */
  lemma DotAccepted(cvt: seq<Byte>)
    requires TableOk(cvt)
    ensures Accepted(cvt, [DOT]) && NameOf(cvt, [DOT]) == seq(11, _ => SPACE) && Printed(NameOf(cvt, [DOT])) == []
  {
    NameRoundTrip(cvt, [DOT]);
  }
}
