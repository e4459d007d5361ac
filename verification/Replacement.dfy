/** Leftmost, non-overlapping replacement of a text x by a text m, and exactly when it removes x.
    A char stands for one byte. */
module Replacement {

  predicate At(x: string, s: string, p: int) {
    0 <= p && p + |x| <= |s| && forall k :: 0 <= k < |x| ==> x[k] == s[p + k]
  }

  ghost predicate Occurs(x: string, s: string) {
    exists p :: At(x, s, p)
  }

  /** The first position at or after i where x occurs in s, |s| + 1 when there is none. */
  function Index(x: string, s: string, i: nat): (p: nat)
    requires i <= |s|
    ensures i <= p
    ensures p <= |s| ==> At(x, s, p)
    ensures p > |s| ==> p == |s| + 1
    ensures forall q :: i <= q < p ==> !At(x, s, q)
    decreases |s| - i
  {
    if At(x, s, i) then i
    else if i < |s| then Index(x, s, i + 1)
    else |s| + 1
  }

  function Replaced(s: string, x: string, m: string): string
    requires x != ""
    decreases |s|
  {
    var p := Index(x, s, 0);
    if p > |s| then s else s[..p] + m + Replaced(s[p + |x|..], x, m)
  }

  /** x stands at j in s, and nowhere before. */
  ghost predicate FirstAt(x: string, s: string, j: int) {
    At(x, s, j) && forall q :: 0 <= q < j ==> !At(x, s, q)
  }

  lemma IndexIsFirst(x: string, s: string)
    ensures Occurs(x, s) ==> FirstAt(x, s, Index(x, s, 0))
    ensures forall j :: FirstAt(x, s, j) ==> Index(x, s, 0) == j
    ensures !Occurs(x, s) ==> Index(x, s, 0) > |s|
  {
  }

  lemma Unfold(s: string, x: string, m: string, p: nat)
    requires x != "" && FirstAt(x, s, p)
    ensures Replaced(s, x, m) == s[..p] + (m + Replaced(s[p + |x|..], x, m))
  {
    IndexIsFirst(x, s);
    assert s[..p] + m + Replaced(s[p + |x|..], x, m) == s[..p] + (m + Replaced(s[p + |x|..], x, m));
  }

  lemma CopyNext(out: string, s: string, x: string, m: string, p: nat)
    requires x != "" && FirstAt(x, s, p)
    ensures out + Replaced(s, x, m) == out + s[..p] + m + Replaced(s[p + |x|..], x, m)
  {
    Unfold(s, x, m, p);
    var rest := Replaced(s[p + |x|..], x, m);
    assert out + (s[..p] + (m + rest)) == out + s[..p] + m + rest;
  }

  lemma NothingToReplace(s: string, x: string, m: string)
    requires x != "" && !Occurs(x, s)
    ensures Replaced(s, x, m) == s
  {
    IndexIsFirst(x, s);
  }

  /** Finding an occurrence as the library does: the first one, or |s| + 1 when there is none. */
  method Find(x: string, s: string) returns (j: nat)
    ensures j <= |s| ==> FirstAt(x, s, j)
    ensures j > |s| ==> !Occurs(x, s)
  {
    j := Index(x, s, 0);
  }

  /** The replacement as the library runs it, copying the text between occurrences. */
  method ReplaceAll(s: string, x: string, m: string) returns (out: string)
    requires x != ""
    ensures out == Replaced(s, x, m)
  {
    out := "";
    var rest := s;
    var j := Find(x, rest);
    while j <= |rest|
      invariant j <= |rest| ==> FirstAt(x, rest, j)
      invariant j > |rest| ==> !Occurs(x, rest)
      invariant out + Replaced(rest, x, m) == Replaced(s, x, m)
      decreases |rest|
    {
      CopyNext(out, rest, x, m, j);
      out := out + rest[..j] + m;
      rest := rest[j + |x|..];
      j := Find(x, rest);
    }
    NothingToReplace(rest, x, m);
    out := out + rest;
  }

  // ---------- what the replacement keeps ----------

  /** The pieces with sep between them. */
  function Glue(pieces: seq<string>, sep: string): string
    requires pieces != []
    decreases |pieces|
  {
    if |pieces| == 1 then pieces[0] else pieces[0] + (sep + Glue(pieces[1..], sep))
  }

  /** The text cut at x from the left: no x in the last piece, and in a piece followed by x only that x. */
  ghost predicate CutAt(pieces: seq<string>, x: string) {
    && pieces != []
    && (forall i :: 0 <= i < |pieces| - 1 ==> FirstAt(x, pieces[i] + x, |pieces[i]|))
    && !Occurs(x, pieces[|pieces| - 1])
  }

  lemma CutOnce(piece: string, pieces: seq<string>, x: string)
    requires CutAt(pieces, x) && FirstAt(x, piece + x, |piece|)
    ensures CutAt([piece] + pieces, x)
    ensures forall sep :: Glue([piece] + pieces, sep) == piece + (sep + Glue(pieces, sep))
  {
    assert ([piece] + pieces)[1..] == pieces;
  }

  lemma SplitAround(s: string, x: string, j: nat)
    requires At(x, s, j)
    ensures s == s[..j] + (x + s[j + |x|..])
  {
    assert s[j..j + |x|] == x;
  }

  lemma FirstPiece(s: string, x: string, m: string, j: nat, rest: seq<string>)
    requires x != "" && FirstAt(x, s, j)
    requires CutAt(rest, x)
    requires s[j + |x|..] == Glue(rest, x) && Replaced(s[j + |x|..], x, m) == Glue(rest, m)
    ensures CutAt([s[..j]] + rest, x)
    ensures Glue([s[..j]] + rest, x) == s && Glue([s[..j]] + rest, m) == Replaced(s, x, m)
  {
    FirstInStretch(x, s, 0, j);
    assert s[0..j + |x|] == s[..j] + x by {
      assert s[j..j + |x|] == x;
    }
    CutOnce(s[..j], rest, x);
    SplitAround(s, x, j);
    Unfold(s, x, m, j);
  }

  /** Everything between the cuts is kept, in order, and every cut gets m for x. */
  lemma {:induction false} KeepsPieces(s: string, x: string, m: string) returns (pieces: seq<string>)
    requires x != ""
    ensures CutAt(pieces, x) && s == Glue(pieces, x) && Replaced(s, x, m) == Glue(pieces, m)
    decreases |s|
  {
    IndexIsFirst(x, s);
    var j := Index(x, s, 0);
    if j > |s| {
      return [s];
    }
    var rest := KeepsPieces(s[j + |x|..], x, m);
    FirstPiece(s, x, m, j, rest);
    pieces := [s[..j]] + rest;
  }

  // ---------- which texts survive their own replacement ----------

  predicate Comparable(r: string, t: string) {
    r <= t || t <= r
  }

  /** x starts with an end of m and runs past it. */
  ghost predicate LeaksAfter(x: string, m: string) {
    exists k {:trigger m[k..]} :: 0 <= k < |m| && m[k..] <= x
  }

  /** x runs from text into m: its part from k on lines up with m, and the part before is left
      standing when x follows it. */
  ghost predicate LeaksBeforeAt(x: string, m: string, k: nat) {
    && 0 < k < |x|
    && Comparable(x[k..], m)
    && FirstAt(x, x[..k] + x, k)
  }

  /** The texts that the replacement itself can put together; decided without looking at any s. */
  ghost predicate Leaky(x: string, m: string) {
    Occurs(x, m) || LeaksAfter(x, m) || exists k: nat :: LeaksBeforeAt(x, m, k)
  }

  lemma PrefixSplit(x: string, s: string, t: string, p: nat)
    requires At(x, s + t, p) && p <= |s| < p + |x|
    ensures x == s[p..] + x[|s| - p..] && x[|s| - p..] <= t
  {
    var w, k := s + t, |s| - p;
    assert x[..k] == w[p..p + |x|][..k] == s[p..];
    assert x[k..] == w[p..p + |x|][k..] == t[..|x| - k];
  }

  lemma PrefixAt(x: string, s: string, t: string, q: nat)
    requires q + |x| <= |s|
    ensures At(x, s + t, q) <==> At(x, s, q)
  {
    assert s[q..q + |x|] == (s + t)[q..q + |x|];
  }

  lemma SuffixAt(x: string, s: string, t: string, p: nat)
    requires |s| <= p
    ensures At(x, s + t, p) <==> At(x, t, p - |s|)
  {
    if p + |x| <= |s + t| {
      assert (s + t)[p..p + |x|] == t[p - |s|..p - |s| + |x|];
    }
  }

  lemma SliceAt(x: string, s: string, i: nat, n: nat, q: nat)
    requires i <= n <= |s| && At(x, s[i..n], q)
    ensures At(x, s, i + q)
  {
    var part := s[i..n];
    assert forall k :: q <= k < q + |x| ==> part[k] == s[i + k];
    assert part[q..q + |x|] == s[i + q..i + q + |x|];
  }

  lemma LinesUp(r: string, m: string, rest: string)
    requires r <= m + rest
    ensures Comparable(r, m)
  {
    if |r| <= |m| {
      assert r == (m + rest)[..|r|] == m[..|r|];
    } else {
      assert m == (m + rest)[..|m|] == r[..|m|];
    }
  }

  /** A stretch of s that ends with the first occurrence of x has its first x there too. */
  lemma FirstInStretch(x: string, s: string, p: nat, j: nat)
    requires p <= j && FirstAt(x, s, j)
    ensures FirstAt(x, s[p..j + |x|], j - p)
  {
    var w := s[p..j + |x|];
    forall q | 0 <= q < j - p ensures !At(x, w, q) {
      if At(x, w, q) {
        SliceAt(x, s, p, j + |x|, q);
      }
    }
  }

  /** An occurrence that starts in kept text and runs into the replacement shows x leaky. */
  lemma LeakFromGap(x: string, m: string, s: string, p: nat, j: nat, rest: string)
    requires x != "" && p < j && FirstAt(x, s, j)
    requires At(x, s[..j] + (m + rest), p)
    ensures Leaky(x, m)
  {
    var gap := s[..j];
    if p + |x| <= j {
      PrefixAt(x, gap, m + rest, p);
      SliceAt(x, s, 0, j, p);
      assert false;
    }
    PrefixSplit(x, gap, m + rest, p);
    LinesUp(x[j - p..], m, rest);
    FirstInStretch(x, s, p, j);
    assert x[..j - p] + x == s[p..j + |x|];
    assert LeaksBeforeAt(x, m, j - p);
  }

  lemma LeakFromMark(x: string, m: string, rest: string, p: nat)
    requires x != "" && At(x, m + rest, p) && p < |m|
    ensures Occurs(x, m) || LeaksAfter(x, m)
  {
    if p + |x| <= |m| {
      PrefixAt(x, m, rest, p);
    } else {
      PrefixSplit(x, m, rest, p);
      assert m[p..] <= x;
    }
  }

  /** Where an occurrence starts: in the text kept, in the replacement, or in what follows. */
  lemma WhereItStarts(x: string, gap: string, m: string, rest: string, p: nat)
    requires At(x, gap + (m + rest), p) && |gap| <= p
    ensures p < |gap| + |m| ==> At(x, m + rest, p - |gap|)
    ensures |gap| + |m| <= p ==> At(x, rest, p - |gap| - |m|)
  {
    SuffixAt(x, gap, m + rest, p);
    if |gap| + |m| <= p {
      SuffixAt(x, m, rest, p - |gap|);
    }
  }

  lemma LeakFrom(x: string, m: string, s: string, p: nat, j: nat, rest: string)
    requires x != "" && FirstAt(x, s, j)
    requires At(x, s[..j] + (m + rest), p)
    ensures Leaky(x, m) || (j + |m| <= p && At(x, rest, p - j - |m|))
  {
    if p < j {
      LeakFromGap(x, m, s, p, j, rest);
    } else {
      WhereItStarts(x, s[..j], m, rest, p);
      if p < j + |m| {
        LeakFromMark(x, m, rest, p - j);
      }
    }
  }

  /** A text that survives its replacement is leaky. */
  lemma {:induction false} SurvivorIsLeaky(s: string, x: string, m: string, p: nat)
    requires x != "" && At(x, Replaced(s, x, m), p)
    ensures Leaky(x, m)
    decreases |s|
  {
    IndexIsFirst(x, s);
    if Occurs(x, s) {
      var j: nat :| FirstAt(x, s, j);
      Unfold(s, x, m, j);
      var tail := s[j + |x|..];
      LeakFrom(x, m, s, p, j, Replaced(tail, x, m));
      if !Leaky(x, m) {
        SurvivorIsLeaky(tail, x, m, p - j - |m|);
      }
    }
  }

  ghost predicate Survives(x: string, s: string, m: string)
    requires x != ""
  {
    Occurs(x, Replaced(s, x, m))
  }

  /** Where the only x of a text stands, the replacement does not look further. */
  lemma ReplacedOnce(a: string, x: string, c: string, m: string)
    requires x != "" && |c| < |x| && FirstAt(x, a + x + c, |a|)
    ensures Replaced(a + x + c, x, m) == a + m + c
  {
    var s := a + x + c;
    Unfold(s, x, m, |a|);
    IndexIsFirst(x, c);
    assert s[..|a|] == a && s[|a| + |x|..] == c;
    assert a + (m + c) == a + m + c;
  }

  /** The replacement of x, followed by less than another x. */
  lemma ReplacedFront(x: string, c: string, m: string)
    requires |c| < |x|
    ensures Replaced(x + c, x, m) == m + c
  {
    assert x + c == "" + x + c;
    ReplacedOnce("", x, c, m);
    assert "" + m + c == m + c;
  }

  /** x survives in the replacement of x itself, of x and what follows m in it, or of what precedes
      m in it and x. */
  lemma LeakyHasWitness(x: string, m: string) returns (s: string)
    requires x != "" && Leaky(x, m)
    ensures Survives(x, s, m)
  {
    if Occurs(x, m) {
      ReplacedFront(x, "", m);
      s := x + "";
      assert m + "" == m;
    } else if LeaksAfter(x, m) {
      var k :| 0 <= k < |m| && m[k..] <= x;
      s := LeakAfterWitness(x, m, k);
    } else {
      var k: nat :| LeaksBeforeAt(x, m, k);
      s := LeakBeforeWitness(x, m, k);
    }
  }

  lemma LeakAfterWitness(x: string, m: string, k: nat) returns (s: string)
    requires k < |m| && m[k..] <= x
    ensures Survives(x, s, m)
  {
    var c := x[|m| - k..];
    s := x + c;
    ReplacedFront(x, c, m);
    assert x == m[k..] + c;
    assert At(x, m + c, k);
  }

  lemma FirstStaysFirst(x: string, w: string, c: string, k: nat)
    requires FirstAt(x, w, k)
    ensures FirstAt(x, w + c, k)
  {
    forall q | 0 <= q <= k ensures At(x, w + c, q) <==> q == k {
      PrefixAt(x, w, c, q);
    }
  }

  lemma Completion(r: string, m: string) returns (c: string)
    requires r != "" && Comparable(r, m)
    ensures r <= m + c && |c| <= |r|
  {
    if r <= m {
      c := "";
      assert m + c == m;
    } else {
      c := r[|m|..];
      assert r == m + c;
    }
  }

  lemma StartsWith(a: string, r: string, t: string)
    requires r <= t
    ensures At(a + r, a + t, 0)
  {
  }

  /** The kept text a, the replacement and the rest c spell a + r again. */
  lemma Respelled(a: string, r: string, c: string, m: string)
    requires a != "" && r <= m + c && |c| <= |r|
    requires FirstAt(a + r, a + (a + r), |a|)
    ensures At(a + r, Replaced(a + (a + r) + c, a + r, m), 0)
  {
    var x := a + r;
    FirstStaysFirst(x, a + x, c, |a|);
    ReplacedOnce(a, x, c, m);
    assert a + m + c == a + (m + c);
    StartsWith(a, r, m + c);
  }

  lemma LeakBeforeWitness(x: string, m: string, k: nat) returns (s: string)
    requires LeaksBeforeAt(x, m, k)
    ensures Survives(x, s, m)
  {
    var a, r := x[..k], x[k..];
    assert x == a + r;
    var c := Completion(r, m);
    s := a + x + c;
    Respelled(a, r, c, m);
  }

  /** Replacement by m removes x from every text exactly when x is not leaky. */
  lemma RemovesExactly(x: string, m: string)
    requires x != ""
    ensures (forall s :: !Survives(x, s, m)) <==> !Leaky(x, m)
  {
    if Leaky(x, m) {
      var s := LeakyHasWitness(x, m);
    } else {
      forall s ensures !Survives(x, s, m) {
        if Survives(x, s, m) {
          var p :| At(x, Replaced(s, x, m), p);
          SurvivorIsLeaky(s, x, m, p);
        }
      }
    }
  }

  /** x lines up with m nowhere: no occurrence of x can touch an inserted m. */
  ghost predicate Apart(x: string, m: string) {
    && x != ""
    && !Occurs(x, m)
    && !LeaksAfter(x, m)
    && (forall k {:trigger x[k..]} :: 0 <= k < |x| ==> !Comparable(x[k..], m))
  }

  lemma ApartIsNotLeaky(x: string, m: string)
    requires Apart(x, m)
    ensures !Leaky(x, m)
  {
  }

  lemma ApartFromGap(x: string, gap: string, m: string, rest: string, p: nat)
    requires Apart(x, m) && p < |gap| && At(x, gap + (m + rest), p)
    ensures At(x, gap, p)
  {
    if p + |x| <= |gap| {
      PrefixAt(x, gap, m + rest, p);
    } else {
      PrefixSplit(x, gap, m + rest, p);
      LinesUp(x[|gap| - p..], m, rest);
      assert false;
    }
  }

  lemma ApartFromMark(x: string, m: string, rest: string, p: nat)
    requires Apart(x, m) && At(x, m + rest, p)
    ensures |m| <= p
  {
    if p < |m| {
      LeakFromMark(x, m, rest, p);
      assert false;
    }
  }

  /** An x in the stretch before the first y was in s already. */
  lemma NotFromGap(s: string, x: string, y: string, m: string, rest: string, j: nat, p: nat)
    requires Apart(x, m) && j <= |s| && p < j
    requires At(x, s[..j] + (m + rest), p)
    ensures Occurs(x, s)
  {
    ApartFromGap(x, s[..j], m, rest, p);
    SliceAt(x, s, 0, j, p);
  }

  /** An x after that stretch comes from what follows the inserted m. */
  lemma NotFromMark(s: string, x: string, m: string, rest: string, j: nat, p: nat)
    requires Apart(x, m) && j <= |s| && j <= p
    requires At(x, s[..j] + (m + rest), p)
    ensures At(x, rest, p - j - |m|)
  {
    WhereItStarts(x, s[..j], m, rest, p);
    if p < j + |m| {
      ApartFromMark(x, m, rest, p - j);
    }
  }

  lemma InTailThenIn(x: string, s: string, i: nat)
    requires i <= |s| && Occurs(x, s[i..])
    ensures Occurs(x, s)
  {
    var q :| At(x, s[i..], q);
    assert s[i..] == s[i..|s|];
    SliceAt(x, s, i, |s|, q);
  }

  /** Replacing another text y by m cannot create an x that is apart from m. */
  lemma {:induction false} ReplacingCreatesNothing(s: string, x: string, y: string, m: string, p: nat)
    requires Apart(x, m) && y != ""
    requires At(x, Replaced(s, y, m), p)
    ensures Occurs(x, s)
    decreases |s|
  {
    IndexIsFirst(y, s);
    if Occurs(y, s) {
      var j: nat :| FirstAt(y, s, j);
      Unfold(s, y, m, j);
      var tail := s[j + |y|..];
      var rest := Replaced(tail, y, m);
      if p < j {
        NotFromGap(s, x, y, m, rest, j, p);
      } else {
        NotFromMark(s, x, m, rest, j, p);
        ReplacingCreatesNothing(tail, x, y, m, p - j - |m|);
        InTailThenIn(x, s, j + |y|);
      }
    }
  }

  // ---------- the converse: what is not apart can be created ----------

  function Repeat(b: char, n: nat): (y: string)
    ensures |y| == n && forall i :: 0 <= i < n ==> y[i] == b
  {
    seq(n, i => b)
  }

  /** The replacement of y creates x out of a text that has none. */
  ghost predicate Creates(s: string, y: string, x: string, m: string) {
    y != "" && !Occurs(x, s) && Occurs(x, Replaced(s, y, m))
  }

  /** Between the short texts a and c stands a run of b longer than x. */
  lemma NoneAroundRun(x: string, a: string, b: char, c: string, p: int)
    requires |a| < |x| && |c| < |x| && b != x[0] && b != x[|x| - 1]
    ensures !At(x, a + Repeat(b, |x|) + c, p)
  {
    var n := |x|;
    var s := a + Repeat(b, n) + c;
    if 0 <= p && p + n <= |s| {
      if p < |a| {
        assert s[p + (n - 1)] == b != x[n - 1];
      } else {
        assert s[p + 0] == b != x[0];
      }
    }
  }

  lemma RunIsFirst(a: string, b: char, n: nat)
    requires n > |a| && (a != "" ==> a[|a| - 1] != b)
    ensures FirstAt(Repeat(b, n), a + Repeat(b, n), |a|)
  {
    var y := Repeat(b, n);
    forall q | 0 <= q < |a| ensures !At(y, a + y, q) {
      assert (a + y)[q + (|a| - 1 - q)] == a[|a| - 1];
      assert y[|a| - 1 - q] == b;
    }
  }

  /** Where a, m and c spell x, the run between a and c is a text whose replacement creates x. */
  lemma RunCreates(x: string, m: string, a: string, b: char, c: string)
    requires |a| < |x| && |c| < |x| && b != x[0] && b != x[|x| - 1] && (a != "" ==> a[|a| - 1] != b)
    requires Occurs(x, a + m + c)
    ensures Creates(a + Repeat(b, |x|) + c, Repeat(b, |x|), x, m)
  {
    var y := Repeat(b, |x|);
    forall p ensures !At(x, a + y + c, p) {
      NoneAroundRun(x, a, b, c, p);
    }
    RunIsFirst(a, b, |x|);
    FirstStaysFirst(y, a + y, c, |a|);
    ReplacedOnce(a, y, c, m);
  }

  function OtherThan(c: char, d: char, e: char): (b: char)
    ensures b != c && b != d && b != e && 'a' <= b <= 'd'
  {
    if 'a' != c && 'a' != d && 'a' != e then 'a'
    else if 'b' != c && 'b' != d && 'b' != e then 'b'
    else if 'c' != c && 'c' != d && 'c' != e then 'c'
    else 'd'
  }

  /** The texts a and c that make x with m between them. */
  lemma SpellsAround(x: string, m: string) returns (a: string, c: string)
    requires x != "" && m != "" && !Apart(x, m)
    ensures |a| < |x| && |c| < |x| && Occurs(x, a + m + c)
  {
    if Occurs(x, m) {
      a, c := "", "";
      assert a + m + c == m;
    } else if LeaksAfter(x, m) {
      var k :| 0 <= k < |m| && m[k..] <= x;
      a, c := "", x[|m| - k..];
      assert x == m[k..] + c;
      assert At(x, a + m + c, k);
    } else {
      var k :| 0 <= k < |x| && Comparable(x[k..], m);
      if k == 0 {
        assert x[0..] == x;
        TouchesAtStart(x, m);
        assert false;
      }
      a := x[..k];
      c := Completion(x[k..], m);
      assert x == a + x[k..];
      StartsWith(a, x[k..], m + c);
      assert a + m + c == a + (m + c);
    }
  }

  lemma TouchesAtStart(x: string, m: string)
    requires m != "" && Comparable(x, m)
    ensures Occurs(x, m) || LeaksAfter(x, m)
  {
    if x <= m {
      assert At(x, m, 0);
    } else {
      assert m[0..] == m;
    }
  }

  lemma NotApartIsCreated(x: string, m: string) returns (s: string, y: string)
    requires x != "" && m != "" && !Apart(x, m)
    ensures Creates(s, y, x, m)
  {
    var a, c := SpellsAround(x, m);
    var b := OtherThan(x[0], x[|x| - 1], if a == "" then x[0] else a[|a| - 1]);
    RunCreates(x, m, a, b, c);
    s, y := a + Repeat(b, |x|) + c, Repeat(b, |x|);
  }

  /** The replacement of other texts by m creates no x exactly when x is apart from m. */
  lemma CreatesNothingExactly(x: string, m: string)
    requires x != "" && m != ""
    ensures (forall s, y :: !Creates(s, y, x, m)) <==> Apart(x, m)
  {
    if Apart(x, m) {
      forall s, y ensures !Creates(s, y, x, m) {
        if Creates(s, y, x, m) {
          var p :| At(x, Replaced(s, y, m), p);
          ReplacingCreatesNothing(s, x, y, m, p);
        }
      }
    } else {
      var s, y := NotApartIsCreated(x, m);
    }
  }

  // ---------- replacing twice ----------

  lemma {:induction false} ReplacedByItself(s: string, x: string)
    requires x != ""
    ensures Replaced(s, x, x) == s
    decreases |s|
  {
    IndexIsFirst(x, s);
    if Occurs(x, s) {
      var j: nat :| FirstAt(x, s, j);
      Unfold(s, x, x, j);
      ReplacedByItself(s[j + |x|..], x);
      SplitAround(s, x, j);
    }
  }

  /** Every replacement changes the length the same way. */
  lemma {:induction false} ReplacedLength(s: string, x: string, m: string)
    requires x != ""
    ensures |m| >= |x| ==> |Replaced(s, x, m)| >= |s|
    ensures |m| <= |x| ==> |Replaced(s, x, m)| <= |s|
    ensures Occurs(x, s) && |Replaced(s, x, m)| == |s| ==> |m| == |x|
    decreases |s|
  {
    IndexIsFirst(x, s);
    if Occurs(x, s) {
      var j: nat :| FirstAt(x, s, j);
      Unfold(s, x, m, j);
      ReplacedLength(s[j + |x|..], x, m);
    }
  }

  lemma ReplacementChanges(s: string, x: string, m: string)
    requires x != "" && x != m && Occurs(x, s)
    ensures Replaced(s, x, m) != s
  {
    IndexIsFirst(x, s);
    ReplacedLength(s, x, m);
    var j: nat :| FirstAt(x, s, j);
    var t := Replaced(s, x, m);
    Unfold(s, x, m, j);
    if |m| == |x| {
      assert t[j..j + |m|] == m != x == s[j..j + |x|];
    }
  }

  ghost predicate StableOn(s: string, x: string, m: string)
    requires x != ""
  {
    Replaced(Replaced(s, x, m), x, m) == Replaced(s, x, m)
  }

  /** Replacing twice is replacing once, on every text, exactly when x is its own replacement or not leaky. */
  lemma StableExactly(x: string, m: string)
    requires x != ""
    ensures (forall s :: StableOn(s, x, m)) <==> x == m || !Leaky(x, m)
  {
    if x == m {
      forall s ensures StableOn(s, x, m) {
        ReplacedByItself(Replaced(s, x, m), x);
      }
    } else if Leaky(x, m) {
      var s := LeakyHasWitness(x, m);
      ReplacementChanges(Replaced(s, x, m), x, m);
      assert !StableOn(s, x, m);
    } else {
      RemovesExactly(x, m);
      forall s ensures StableOn(s, x, m) {
        assert !Survives(x, s, m);
        NothingToReplace(Replaced(s, x, m), x, m);
      }
    }
  }

  // ---------- texts put around ----------

  lemma SameAfter(b: char, s: string, x: string, q: int)
    requires x != "" && b != x[0]
    ensures At(x, [b] + s, q) <==> At(x, s, q - 1)
  {
    if q == 0 {
      assert ([b] + s)[0 + 0] == b;
    } else if q > 0 {
      SuffixAt(x, [b], s, q);
    }
  }

  lemma FirstAfter(b: char, s: string, x: string, j: nat)
    requires x != "" && b != x[0] && FirstAt(x, s, j)
    ensures FirstAt(x, [b] + s, j + 1)
  {
    forall q | 0 <= q <= j + 1 ensures At(x, [b] + s, q) <==> q == j + 1 {
      SameAfter(b, s, x, q);
    }
  }

  lemma OccursAfter(b: char, s: string, x: string)
    requires x != "" && b != x[0]
    ensures Occurs(x, [b] + s) <==> Occurs(x, s)
  {
    if Occurs(x, s) {
      var p :| At(x, s, p);
      SameAfter(b, s, x, p + 1);
    }
    if Occurs(x, [b] + s) {
      var p :| At(x, [b] + s, p);
      SameAfter(b, s, x, p);
    }
  }

  /** A char that x does not begin with, put in front, is kept in front. */
  lemma ReplacedAfter(b: char, s: string, x: string, m: string)
    requires x != "" && b != x[0]
    ensures Replaced([b] + s, x, m) == [b] + Replaced(s, x, m)
  {
    OccursAfter(b, s, x);
    if Occurs(x, s) {
      IndexIsFirst(x, s);
      var j := Index(x, s, 0);
      FirstAfter(b, s, x, j);
      Unfold(s, x, m, j);
      Unfold([b] + s, x, m, j + 1);
      AfterHead(b, s, j, j + |x|, m + Replaced(s[j + |x|..], x, m));
    } else {
      NothingToReplace(s, x, m);
      NothingToReplace([b] + s, x, m);
    }
  }

  lemma AfterHead(b: char, s: string, j: nat, k: nat, rest: string)
    requires j <= k <= |s|
    ensures ([b] + s)[k + 1..] == s[k..]
    ensures ([b] + s)[..j + 1] + rest == [b] + (s[..j] + rest)
  {
    assert ([b] + s)[..j + 1] == [b] + s[..j];
  }

  lemma SameBefore(s: string, d: char, x: string, q: nat)
    requires x != "" && d != x[|x| - 1]
    ensures At(x, s + [d], q) <==> At(x, s, q)
  {
    if q + |x| == |s| + 1 {
      assert (s + [d])[q + (|x| - 1)] == d;
    } else if q + |x| <= |s| {
      PrefixAt(x, s, [d], q);
    }
  }

  /** And one that x does not end with, put behind, behind. */
  lemma {:induction false} ReplacedBefore(s: string, d: char, x: string, m: string)
    requires x != "" && d != x[|x| - 1]
    ensures Replaced(s + [d], x, m) == Replaced(s, x, m) + [d]
    ensures Occurs(x, s + [d]) <==> Occurs(x, s)
    decreases |s|
  {
    var w := s + [d];
    forall q: nat ensures At(x, w, q) <==> At(x, s, q) {
      SameBefore(s, d, x, q);
    }
    IndexIsFirst(x, s);
    IndexIsFirst(x, w);
    if Occurs(x, s) {
      var j: nat :| FirstAt(x, s, j);
      assert FirstAt(x, w, j);
      Unfold(s, x, m, j);
      Unfold(w, x, m, j);
      ReplacedBefore(s[j + |x|..], d, x, m);
      assert w[..j] == s[..j] && w[j + |x|..] == s[j + |x|..] + [d];
    } else {
      assert !Occurs(x, w);
    }
  }

  function Between(b: char, s: string, d: char): string {
    [b] + (s + [d])
  }

  lemma ReplacedBetween(b: char, s: string, d: char, x: string, m: string)
    requires x != "" && b != x[0] && d != x[|x| - 1]
    ensures Replaced(Between(b, s, d), x, m) == Between(b, Replaced(s, x, m), d)
    ensures Occurs(x, Between(b, s, d)) <==> Occurs(x, s)
  {
    ReplacedBefore(s, d, x, m);
    ReplacedAfter(b, s + [d], x, m);
    OccursAfter(b, s + [d], x);
  }
}
