/** The file name matcher of f_findfirst: ? stands for one character, * for any number. */
module Glob {
  import opened Machine
  import Names

  type Text = seq<Byte>

  /** The upper half of the code page's up-case table; no character is up-cased to the end mark. */
  ghost predicate NoEndMark(cvt: seq<Byte>) { |cvt| == 128 && forall i {:trigger cvt[i]} :: 0 <= i < 128 ==> cvt[i] != 0 }

  /** A C string without its end mark. */
  ghost predicate IsText(s: Text) { forall i {:trigger s[i]} :: 0 <= i < |s| ==> s[i] != 0 }

  /** get_achar: small letters by their code, extended characters by the table. */
  function Fold(cvt: seq<Byte>, c: Byte): Byte
    requires |cvt| == 128
  {
    if 'a' as int <= c <= 'z' as int then c - 0x20 else if c >= 0x80 then cvt[c - 0x80] else c
  }

  /** The matcher folds characters as create_name does. */
  lemma FoldIsUp(cvt: seq<Byte>, c: Byte)
    requires Names.TableOk(cvt)
    ensures Fold(cvt, c) == Names.Up(cvt, c)
  {
  }

  predicate Wild(c: Byte) { c == '?' as int || c == '*' as int }

  /** What a pattern means. */
  ghost predicate Match(cvt: seq<Byte>, pat: Text, nam: Text)
    requires |cvt| == 128
    decreases |pat|
  {
    if pat == [] then nam == []
    else if pat[0] == '*' as int then exists k :: 0 <= k <= |nam| && Match(cvt, pat[1..], nam[k..])
    else if pat[0] == '?' as int then nam != [] && Match(cvt, pat[1..], nam[1..])
    else nam != [] && Fold(cvt, pat[0]) == Fold(cvt, nam[0]) && Match(cvt, pat[1..], nam[1..])
  }

  /** The rest of the pattern behind a block of wildcards with `skip` question marks, and a star if `inf`. */
  ghost predicate MatchBehind(cvt: seq<Byte>, pat: Text, nam: Text, skip: nat, inf: bool)
    requires |cvt| == 128
  {
    if inf then exists k :: skip <= k <= |nam| && Match(cvt, pat, nam[k..])
    else skip <= |nam| && Match(cvt, pat, nam[skip..])
  }

  function Questions(block: Text): nat {
    if block == [] then 0 else (if block[0] == '?' as int then 1 else 0) + Questions(block[1..])
  }

  lemma SliceTwice(s: Text, i: nat, j: nat)
    requires i + j <= |s|
    ensures s[i..][j..] == s[i + j..]
  {
  }

  /** A block of wildcards may be collapsed: only the number of question marks and the presence of a star count. */
  lemma {:induction false} BlockMeans(cvt: seq<Byte>, block: Text, rest: Text, nam: Text)
    requires |cvt| == 128 && forall i {:trigger block[i]} :: 0 <= i < |block| ==> Wild(block[i])
    ensures Match(cvt, block + rest, nam) <==> MatchBehind(cvt, rest, nam, Questions(block), ('*' as int) in block)
    decreases |block|, 0
  {
    if block == [] {
      assert block + rest == rest && nam[0..] == nam;
    } else {
      var t := block[1..];
      var q, inf := Questions(t), ('*' as int) in t;
      assert (block + rest)[1..] == t + rest;
      assert ('*' as int) in block <==> block[0] == '*' as int || inf;
      if block[0] == '?' as int {
        if nam != [] {
          BlockMeans(cvt, t, rest, nam[1..]);
          SkipOne(cvt, rest, nam, q, inf);
        }
      } else {
        StarOverBlock(cvt, t, rest, nam);
      }
    }
  }

  lemma SkipOne(cvt: seq<Byte>, rest: Text, nam: Text, q: nat, inf: bool)
    requires |cvt| == 128 && nam != []
    ensures MatchBehind(cvt, rest, nam[1..], q, inf) <==> MatchBehind(cvt, rest, nam, q + 1, inf)
  {
    if inf {
      if MatchBehind(cvt, rest, nam[1..], q, inf) {
        var k :| q <= k <= |nam[1..]| && Match(cvt, rest, nam[1..][k..]);
        SliceTwice(nam, 1, k);
      }
      if MatchBehind(cvt, rest, nam, q + 1, inf) {
        var k :| q + 1 <= k <= |nam| && Match(cvt, rest, nam[k..]);
        SliceTwice(nam, 1, k - 1);
      }
    } else if q + 1 <= |nam| {
      SliceTwice(nam, 1, q);
    }
  }

  /** A star in front of a block of wildcards. */
  lemma {:induction false} StarOverBlock(cvt: seq<Byte>, t: Text, rest: Text, nam: Text)
    requires |cvt| == 128 && forall i {:trigger t[i]} :: 0 <= i < |t| ==> Wild(t[i])
    ensures (exists k :: 0 <= k <= |nam| && Match(cvt, t + rest, nam[k..])) <==> MatchBehind(cvt, rest, nam, Questions(t), true)
    decreases |t|, 2
  {
    if k :| 0 <= k <= |nam| && Match(cvt, t + rest, nam[k..]) { StarForth(cvt, t, rest, nam, k); }
    if MatchBehind(cvt, rest, nam, Questions(t), true) {
      var j :| Questions(t) <= j <= |nam| && Match(cvt, rest, nam[j..]);
      StarBack(cvt, t, rest, nam, j);
    }
  }

  lemma {:induction false} StarForth(cvt: seq<Byte>, t: Text, rest: Text, nam: Text, k: nat)
    requires |cvt| == 128 && (forall i {:trigger t[i]} :: 0 <= i < |t| ==> Wild(t[i])) && k <= |nam| && Match(cvt, t + rest, nam[k..])
    ensures MatchBehind(cvt, rest, nam, Questions(t), true)
    decreases |t|, 1
  {
    var n := nam[k..];
    BlockMeans(cvt, t, rest, n);
    var j := Questions(t);
    if ('*' as int) in t {
      j :| Questions(t) <= j <= |n| && Match(cvt, rest, n[j..]);
    }
    SliceTwice(nam, k, j);
    assert Match(cvt, rest, nam[k + j..]);
  }

  lemma {:induction false} StarBack(cvt: seq<Byte>, t: Text, rest: Text, nam: Text, j: nat)
    requires |cvt| == 128 && (forall i {:trigger t[i]} :: 0 <= i < |t| ==> Wild(t[i]))
    requires Questions(t) <= j <= |nam| && Match(cvt, rest, nam[j..])
    ensures Match(cvt, t + rest, nam[j - Questions(t)..])
    decreases |t|, 1
  {
    var q := Questions(t);
    var n := nam[j - q..];
    SliceTwice(nam, j - q, q);
    assert Match(cvt, rest, n[q..]);
    BlockMeans(cvt, t, rest, n);
  }

  /** A pattern that begins with n plain characters needs a name of at least n characters. */
  lemma {:induction false} PlainLength(cvt: seq<Byte>, pat: Text, nam: Text, n: nat)
    requires |cvt| == 128 && n <= |pat| && (forall i {:trigger pat[i]} :: 0 <= i < n ==> !Wild(pat[i])) && Match(cvt, pat, nam)
    ensures n <= |nam|
    decreases n
  {
    if n > 0 { PlainLength(cvt, pat[1..], nam[1..], n - 1); }
  }

  /** n characters of pattern and name agree. */
  ghost predicate Agree(cvt: seq<Byte>, pat: Text, nam: Text, n: nat)
    requires |cvt| == 128
  {
    && n <= |pat| && n <= |nam|
    && forall i {:trigger pat[i]} :: 0 <= i < n ==> !Wild(pat[i]) && Fold(cvt, pat[i]) == Fold(cvt, nam[i])
  }

  lemma {:induction false} AgreeMeans(cvt: seq<Byte>, pat: Text, nam: Text, n: nat)
    requires |cvt| == 128 && Agree(cvt, pat, nam, n)
    ensures Match(cvt, pat, nam) <==> Match(cvt, pat[n..], nam[n..])
    decreases n
  {
    if n == 0 {
      assert pat[0..] == pat && nam[0..] == nam;
    } else {
      AgreeMeans(cvt, pat[1..], nam[1..], n - 1);
      SliceTwice(pat, 1, n - 1);
      SliceTwice(nam, 1, n - 1);
    }
  }

  /** get_achar: the up-cased character at position i, 0 at the end. */
  function Char(cvt: seq<Byte>, s: Text, i: nat): Byte
    requires |cvt| == 128 && i <= |s|
  {
    if i == |s| then 0 else Fold(cvt, s[i])
  }

  /** One attempt of pattern_matching at a fixed place of the name; `end` tells that the name was used up. */
  method TryAt(cvt: seq<Byte>, pat: Text, nam: Text) returns (ok: bool, end: bool)
    requires NoEndMark(cvt) && IsText(pat) && IsText(nam)
    ensures ok <==> Match(cvt, pat, nam)
    ensures !ok && end ==> forall n: Text {:trigger Match(cvt, pat, n)} :: Match(cvt, pat, n) ==> |nam| <= |n|
    ensures !ok && !end ==> nam != []
    decreases |pat|, 0
  {
    var i := 0;
    while true
      invariant Agree(cvt, pat, nam, i)
      decreases |pat| - i
    {
      AgreeMeans(cvt, pat, nam, i);
      forall n: Text | Match(cvt, pat, n) ensures i <= |n| { PlainLength(cvt, pat, n, i); }
      if i < |pat| && Wild(pat[i]) {
        var pp, nm, nx := ScanBlock(pat, i);
        BlockMeans(cvt, pat[i..pp], pat[pp..], nam[i..]);
        assert pat[i..] == pat[i..pp] + pat[pp..];
        ok := PatternMatching(cvt, pat[pp..], nam[i..], nm, nx);
        return ok, i == |nam|;
      }
      var pc, nc := Char(cvt, pat, i), Char(cvt, nam, i);
      if pc != nc { return false, nc == 0; }
      if pc == 0 { return true, true; }
      i := i + 1;
    }
  }

  /** The wildcard block at position i: where it ends, its question marks, and whether there is a star. */
  method ScanBlock(pat: Text, i: nat) returns (pp: nat, nm: nat, nx: bool)
    requires i < |pat| && Wild(pat[i])
    ensures i < pp <= |pat| && forall j {:trigger pat[j]} :: i <= j < pp ==> Wild(pat[j])
    ensures nm == Questions(pat[i..pp]) && (nx <==> ('*' as int) in pat[i..pp])
  {
    pp, nm, nx := i, 0, false;
    while pp < |pat| && Wild(pat[pp])
      invariant i <= pp <= |pat| && (pp == i ==> Wild(pat[pp])) && forall j {:trigger pat[j]} :: i <= j < pp ==> Wild(pat[j])
      invariant nm == Questions(pat[i..pp]) && (nx <==> ('*' as int) in pat[i..pp])
    {
      QuestionsSnoc(pat[i..pp], pat[pp]);
      assert pat[i..pp + 1] == pat[i..pp] + [pat[pp]];
      if pat[pp] == '?' as int { nm := nm + 1; } else { nx := true; }
      pp := pp + 1;
    }
  }

  lemma {:induction false} QuestionsSnoc(b: Text, c: Byte)
    ensures Questions(b + [c]) == Questions(b) + if c == '?' as int then 1 else 0
  {
    if b != [] {
      QuestionsSnoc(b[1..], c);
      assert (b + [c])[1..] == b[1..] + [c];
    }
  }

  /** pattern_matching: skip characters, then match here or, with `inf`, at any later place. */
  method PatternMatching(cvt: seq<Byte>, pat: Text, nam: Text, skip: nat, inf: bool) returns (r: bool)
    requires NoEndMark(cvt) && IsText(pat) && IsText(nam)
    ensures r <==> MatchBehind(cvt, pat, nam, skip, inf)
    decreases |pat|, 1
  {
    var s := 0;
    var left := skip;
    while left > 0
      invariant 0 <= s <= |nam| && 0 <= left && s + left == skip
    {
      left := left - 1;
      if s == |nam| { return false; }
      s := s + 1;
    }
    if pat == [] && inf {
      assert Match(cvt, pat, nam[|nam|..]);
      return true;
    }
    while true
      invariant skip <= s <= |nam|
      invariant forall k {:trigger nam[k..]} :: skip <= k < s ==> !Match(cvt, pat, nam[k..])
      invariant !inf ==> s == skip
      decreases |nam| - s
    {
      var ok, end := TryAt(cvt, pat, nam[s..]);
      if ok { return true; }
      if !inf || end {
        assert end ==> forall k {:trigger nam[k..]} :: s < k <= |nam| ==> !Match(cvt, pat, nam[k..]);
        return false;
      }
      s := s + 1;
    }
  }

  /** The matcher as f_findnext calls it. */
  method Matches(cvt: seq<Byte>, pat: Text, nam: Text) returns (r: bool)
    requires NoEndMark(cvt) && IsText(pat) && IsText(nam)
    ensures r <==> Match(cvt, pat, nam)
  {
    assert nam[0..] == nam;
    r := PatternMatching(cvt, pat, nam, 0, false);
  }

  /** The table of the configured code page can be used. */
  lemma CodePage437Works()
    ensures NoEndMark(Names.CodePage437())
  {
    Names.CodePage437Ok();
  }
}
