/** dedupAdjacentRepeat and trimTailRepeat: blocks of two or more runes that occur twice in
    a row, directly or across one space (internal/server/stt_refine.go). */
module Squares {
  import opened Basics
  import opened Text
  import opened Subsequence
  import opened Dedup

  /** The block of length `l` at `i` is followed directly by a copy of itself. */
  predicate Direct(r: string, i: nat, l: nat) {
    l >= 2 && i + 2 * l <= |r| && r[i..i + l] == r[i + l..i + 2 * l]
  }

  /** The same with one space in between. */
  predicate Spaced(r: string, i: nat, l: nat) {
    l >= 2 && i + 2 * l + 1 <= |r| && r[i + l] == ' ' && r[i..i + l] == r[i + l + 1..i + 2 * l + 1]
  }

  predicate Repeats(r: string, i: nat, l: nat) {
    Direct(r, i, l) || Spaced(r, i, l)
  }

  /** The text reads x, w, w, y or x, w, a space, w, y with a block w of two runes or more. */
  ghost predicate ReadsTwice(r: string, x: string, w: string, y: string) {
    |w| >= 2 && (r == x + w + w + y || r == x + w + " " + w + y)
  }

  /** A block is repeated exactly where the text reads it twice. */
  lemma RepeatsExactly(r: string, i: nat, l: nat)
    ensures Repeats(r, i, l) <==> exists x, w, y :: |x| == i && |w| == l && ReadsTwice(r, x, w, y)
  {
    if Direct(r, i, l) {
      ReadsTwiceDirect(r, i, l);
    } else if Spaced(r, i, l) {
      ReadsTwiceSpaced(r, i, l);
    }
    if x, w, y :| |x| == i && |w| == l && ReadsTwice(r, x, w, y) {
      ReadTwiceRepeats(r, x, w, y);
    }
  }

  lemma ReadTwiceRepeats(r: string, x: string, w: string, y: string)
    requires ReadsTwice(r, x, w, y)
    ensures Repeats(r, |x|, |w|)
  {
    TwiceRepeats(x, w, y);
  }

  lemma ReadsTwiceDirect(r: string, i: nat, l: nat)
    requires Direct(r, i, l)
    ensures ReadsTwice(r, r[..i], r[i..i + l], r[i + 2 * l..])
  {
    var x, w, y := r[..i], r[i..i + l], r[i + 2 * l..];
    assert r == x + w + r[i + l..i + 2 * l] + y;
  }

  lemma ReadsTwiceSpaced(r: string, i: nat, l: nat)
    requires Spaced(r, i, l)
    ensures ReadsTwice(r, r[..i], r[i..i + l], r[i + 2 * l + 1..])
  {
    var x, w, y := r[..i], r[i..i + l], r[i + 2 * l + 1..];
    assert r == x + w + [r[i + l]] + r[i + l + 1..i + 2 * l + 1] + y;
  }

  lemma TwiceRepeats(x: string, w: string, y: string)
    requires |w| >= 2
    ensures Direct(x + w + w + y, |x|, |w|) && Spaced(x + w + " " + w + y, |x|, |w|)
  {
    var r, s := x + w + w + y, x + w + " " + w + y;
    var i, l := |x|, |w|;
    assert r[i..i + l] == w && r[i + l..i + 2 * l] == w;
    assert s[i..i + l] == w && s[i + l] == ' ' && s[i + l + 1..i + 2 * l + 1] == w;
  }

  ghost predicate SquareFree(r: string) {
    forall i: nat, l: nat :: !Repeats(r, i, l)
  }

  /** The leftmost among the longest repeated blocks. */
  ghost predicate IsBest(r: string, i: nat, l: nat) {
    && Repeats(r, i, l)
    && (forall j: nat, m: nat :: Repeats(r, j, m) ==> m < l || (m == l && i <= j))
  }

  lemma BestIsUnique(r: string, i: nat, l: nat, j: nat, m: nat)
    requires IsBest(r, i, l) && IsBest(r, j, m)
    ensures i == j && l == m
  {
  }

  /** Where the kept copy starts: a space right after the first copy is dropped, whether it
      separates the copies or begins the second one. */
  function KeepFrom(r: string, i: nat, l: nat): nat {
    if i + l < |r| && r[i + l] == ' ' then i + l + 1 else i + l
  }

  /** The text without the first copy of the block. */
  function Cut(r: string, i: nat, l: nat): string
    requires Repeats(r, i, l)
  {
    r[..i] + r[KeepFrom(r, i, l)..]
  }

  lemma Parted<T>(a: seq<T>, b: seq<T>)
    ensures (a + b)[..|a|] == a && (a + b)[|a|..] == b
  {
  }

  /** Where the second copy begins, and where the rest after its first rune begins. */
  lemma SecondCopy(x: string, w: string, y: string)
    requires w != ""
    ensures var r := x + w + w + y;
            r[..|x|] == x && r[|x| + |w|..] == w + y && r[|x| + |w|] == w[0] && r[|x| + |w| + 1..] == w[1..] + y
  {
    var r := x + w + w + y;
    Reassociated(x, w, w, y);
    Parted(x, w + w + y);
    Parted(x + w, w + y);
    assert r[|x| + |w| + 1..] == r[|x| + |w|..][1..];
    assert (w + y)[1..] == w[1..] + y;
  }

  lemma Reassociated<T>(a: seq<T>, b: seq<T>, c: seq<T>, d: seq<T>)
    ensures a + b + c + d == a + (b + c + d) && a + b + c + d == (a + b) + (c + d)
  {
  }

  lemma CutDirect(x: string, w: string, y: string)
    requires |w| >= 2
    ensures Repeats(x + w + w + y, |x|, |w|)
    ensures Cut(x + w + w + y, |x|, |w|) == x + (if w[0] == ' ' then w[1..] else w) + y
  {
    TwiceRepeats(x, w, y);
    SecondCopy(x, w, y);
    Associative(x, if w[0] == ' ' then w[1..] else w, y);
  }

  lemma CutSpaced(x: string, w: string, space: string, y: string)
    requires |w| >= 2 && space == " "
    ensures Repeats(x + w + space + w + y, |x|, |w|)
    ensures Cut(x + w + space + w + y, |x|, |w|) == x + w + y
  {
    TwiceRepeats(x, w, y);
    SpacedCopy(x, w, space, y);
    Associative(x, w, y);
  }

  lemma SpacedCopy(x: string, w: string, space: string, y: string)
    requires space == " "
    ensures var s := x + w + space + w + y;
            s[..|x|] == x && s[|x| + |w|] == ' ' && s[|x| + |w| + 1..] == w + y
  {
    Reassociated(x, w, space, w + y);
    assert x + w + space + w + y == (x + w + space) + (w + y);
    Parted(x, w + space + (w + y));
    Parted(x + w + space, w + y);
  }

  /** One copy stays, and everything around it; a space between the copies goes too, and so
      does one that the second copy begins with. */
  lemma CutKeepsOne(x: string, w: string, y: string)
    requires |w| >= 2
    ensures Repeats(x + w + w + y, |x|, |w|) && Repeats(x + w + " " + w + y, |x|, |w|)
    ensures Cut(x + w + w + y, |x|, |w|) == x + (if w[0] == ' ' then w[1..] else w) + y
    ensures Cut(x + w + " " + w + y, |x|, |w|) == x + w + y
  {
    CutDirect(x, w, y);
    CutSpaced(x, w, " ", y);
  }

  // ----- the search -----

  /** The pair (i, l) comes before (j, m) in the scan. */
  predicate ScannedBefore(j: nat, m: nat, i: nat, l: nat) {
    m < l || (m == l && j < i)
  }

  /** The search state after every pair before (i, l) has been tried. */
  ghost predicate BestSoFar(r: string, bestI: nat, bestL: nat, i: nat, l: nat) {
    && (bestL == 0 ==> forall j: nat, m: nat :: ScannedBefore(j, m, i, l) ==> !Repeats(r, j, m))
    && (bestL > 0 ==> Repeats(r, bestI, bestL) && ScannedBefore(bestI, bestL, i, l))
    && (bestL > 0 ==> forall j: nat, m: nat :: ScannedBefore(j, m, i, l) && Repeats(r, j, m) ==>
        m < bestL || (m == bestL && bestI <= j))
  }

  lemma TryNext(r: string, bestI: nat, bestL: nat, i: nat, l: nat)
    requires BestSoFar(r, bestI, bestL, i, l)
    ensures if Repeats(r, i, l) && l > bestL then BestSoFar(r, i, l, i + 1, l) else BestSoFar(r, bestI, bestL, i + 1, l)
  {
    forall j: nat, m: nat | ScannedBefore(j, m, i + 1, l) ensures ScannedBefore(j, m, i, l) || (j == i && m == l) {
    }
  }

  /** Past the last position a block of length `l` can start, the next length begins. */
  lemma NextLength(r: string, bestI: nat, bestL: nat, i: nat, l: nat)
    requires BestSoFar(r, bestI, bestL, i, l) && i + 2 * l > |r|
    ensures BestSoFar(r, bestI, bestL, 0, l + 1)
  {
    forall j: nat, m: nat | ScannedBefore(j, m, 0, l + 1) && Repeats(r, j, m) ensures ScannedBefore(j, m, i, l) {
    }
  }

  method FindBest(r: string) returns (bestI: nat, bestL: nat)
    ensures bestL == 0 ==> SquareFree(r)
    ensures bestL > 0 ==> IsBest(r, bestI, bestL) && Repeats(r, bestI, bestL)
    ensures forall j: nat, m: nat | Repeats(r, j, m) :: m < bestL || (m == bestL && bestI <= j)
  {
    bestI, bestL := 0, 0;
    var n := |r|;
    var l := 2;
    while l <= n / 2
      invariant l >= 2
      invariant BestSoFar(r, bestI, bestL, 0, l)
    {
      var i := 0;
      while i + 2 * l <= n
        invariant BestSoFar(r, bestI, bestL, i, l)
        decreases n - i
      {
        TryNext(r, bestI, bestL, i, l);
        if r[i..i + l] == r[i + l..i + 2 * l] {
          if l > bestL {
            bestL, bestI := l, i;
          }
        } else if r[i + l] == ' ' && i + 2 * l + 1 <= n && r[i..i + l] == r[i + l + 1..i + 2 * l + 1] {
          if l > bestL {
            bestL, bestI := l, i;
          }
        }
        i := i + 1;
      }
      NextLength(r, bestI, bestL, i, l);
      l := l + 1;
    }
    ScanComplete(r, bestI, bestL, l);
  }

  lemma ScanComplete(r: string, bestI: nat, bestL: nat, l: nat)
    requires BestSoFar(r, bestI, bestL, 0, l) && l > |r| / 2
    ensures bestL == 0 ==> SquareFree(r)
    ensures bestL > 0 ==> IsBest(r, bestI, bestL)
  {
    forall j: nat, m: nat | Repeats(r, j, m) ensures ScannedBefore(j, m, 0, l) {
    }
  }

  // ----- the reduction -----

  /** The longest repeated block length up to `bound`, 0 if there is none. */
  ghost function Longest(r: string, bound: nat): (l: nat)
    ensures l > 0 ==> exists i: nat :: Repeats(r, i, l)
    ensures forall i: nat, m: nat :: l < m <= bound ==> !Repeats(r, i, m)
  {
    if bound == 0 then 0
    else if exists i: nat :: Repeats(r, i, bound) then bound
    else Longest(r, bound - 1)
  }

  /** The first position from `from` on where a block of length `l` is repeated. */
  ghost function Leftmost(r: string, l: nat, from: nat): (i: nat)
    requires exists i: nat :: from <= i && Repeats(r, i, l)
    ensures from <= i && Repeats(r, i, l)
    ensures forall j: nat :: from <= j < i ==> !Repeats(r, j, l)
    decreases |r| - from
  {
    if Repeats(r, from, l) then from
    else
      var i: nat :| from <= i && Repeats(r, i, l);
      assert from + 1 <= i <= |r|;
      Leftmost(r, l, from + 1)
  }

  ghost function BestLength(r: string): nat {
    Longest(r, |r|)
  }

  ghost function BestStart(r: string): nat
    requires BestLength(r) > 0
  {
    var i: nat :| Repeats(r, i, BestLength(r));
    assert 0 <= i;
    Leftmost(r, BestLength(r), 0)
  }

  lemma BestExists(r: string)
    ensures BestLength(r) == 0 ==> SquareFree(r)
    ensures BestLength(r) > 0 ==> IsBest(r, BestStart(r), BestLength(r))
  {
    forall i: nat, l: nat | Repeats(r, i, l) ensures l <= |r| {
    }
  }

  /** Removing the first copy of the best block, and the outer white space, until no block
      is repeated. */
  ghost function Reduce(r: string): string
    decreases |r|
  {
    if BestLength(r) == 0 then r
    else
      BestExists(r);
      assert |Cut(r, BestStart(r), BestLength(r))| < |r|;
      Reduce(TrimSpace(Cut(r, BestStart(r), BestLength(r))))
  }

  lemma {:induction false} ReduceIsSquareFree(r: string)
    ensures SquareFree(Reduce(r))
    decreases |r|
  {
    BestExists(r);
    if BestLength(r) > 0 {
      ReduceIsSquareFree(TrimSpace(Cut(r, BestStart(r), BestLength(r))));
    }
  }

  lemma ReduceDone(r: string)
    requires SquareFree(r)
    ensures Reduce(r) == r
  {
    BestExists(r);
  }

  lemma ReduceRound(r: string, i: nat, l: nat)
    requires Repeats(r, i, l) && forall j: nat, m: nat | Repeats(r, j, m) :: m < l || (m == l && i <= j)
    ensures |TrimSpace(Cut(r, i, l))| <= |r| - 2
    ensures Reduce(r) == Reduce(TrimSpace(Cut(r, i, l)))
  {
    BestExists(r);
    BestIsUnique(r, i, l, BestStart(r), BestLength(r));
  }

  const SCAN_RUNES := 2000

  /** What is scanned: the trimmed text, cut off after SCAN_RUNES runes. */
  function Scanned(s: string): string {
    var t := TrimSpace(s);
    if |t| > SCAN_RUNES then t[..SCAN_RUNES] else t
  }

  method DropFirstCopy(r: string, bestI: nat, bestL: nat) returns (out: string)
    requires Repeats(r, bestI, bestL)
    ensures out == Cut(r, bestI, bestL)
  {
    var secondStart := bestI + bestL;
    if secondStart < |r| && r[secondStart] == ' ' {
      secondStart := secondStart + 1;
    }
    out := r[..bestI] + r[secondStart..];
  }

  method DedupAdjacentRepeat(s: string) returns (kept: string)
    ensures kept == Reduce(Scanned(s))
    ensures var t := TrimSpace(s); kept == Reduce(if |t| > 2000 then t[..2000] else t)
  {
    var r := TrimSpace(s);
    if |r| < 2 * 2 {
      ReduceDone(r);
      return r;
    }
    if |r| > SCAN_RUNES {
      r := r[..SCAN_RUNES];
    }
    ghost var goal := Reduce(r);
    while true
      invariant Reduce(r) == goal
      decreases |r|
    {
      var bestI, bestL := FindBest(r);
      if bestL == 0 {
        ReduceDone(r);
        return r;
      }
      ReduceRound(r, bestI, bestL);
      var out := DropFirstCopy(r, bestI, bestL);
      r := TrimSpace(out);
    }
  }

  // ----- what the reduction keeps -----

  lemma SliceOfSlice<T>(s: seq<T>, a: nat, b: nat, c: nat, d: nat)
    requires a <= b <= |s| && c <= d <= b - a
    ensures s[a..b][c..d] == s[a + c..a + d]
  {
    var x, y := s[a..b][c..d], s[a + c..a + d];
    forall k | 0 <= k < |x| ensures x[k] == y[k] {
      assert x[k] == s[a..b][c + k];
    }
  }

  lemma SliceRepeats(s: string, a: nat, b: nat, i: nat, l: nat)
    requires a <= b <= |s| && Repeats(s[a..b], i, l)
    ensures Repeats(s, a + i, l)
  {
    SliceOfSlice(s, a, b, i, i + l);
    SliceOfSlice(s, a, b, i + l, i + 2 * l);
    if i + 2 * l + 1 <= b - a {
      SliceOfSlice(s, a, b, i + l + 1, i + 2 * l + 1);
    }
  }

  lemma SliceSquareFree(s: string, a: nat, b: nat)
    requires a <= b <= |s| && SquareFree(s)
    ensures SquareFree(s[a..b])
  {
    forall i: nat, l: nat ensures !Repeats(s[a..b], i, l) {
      if Repeats(s[a..b], i, l) {
        SliceRepeats(s, a, b, i, l);
      }
    }
  }

  lemma {:induction false} ReduceDeletes(r: string)
    ensures Subseq(Reduce(r), r)
    decreases |r|
  {
    BestExists(r);
    if BestLength(r) == 0 {
      Reflexive(r);
    } else {
      var i, l := BestStart(r), BestLength(r);
      var cut := Cut(r, i, l);
      ReduceRound(r, i, l);
      ReduceDeletes(TrimSpace(cut));
      var a, b := TrimIsSlice(cut);
      Slice(cut, a, b);
      Transitive(Reduce(r), TrimSpace(cut), cut);
      Deletion(r, i, KeepFrom(r, i, l));
      Transitive(Reduce(r), cut, r);
    }
  }

  /** The one way a cut loses a rune of the kept copy: the copies touch and begin with a space. */
  predicate SpaceLed(r: string, i: nat, l: nat) {
    Direct(r, i, l) && r[i + l] == ' ' && !Spaced(r, i, l)
  }

  /** Otherwise the block before the cut and the kept copy are the same text. */
  lemma CutOverlaps(r: string, i: nat, l: nat)
    requires Repeats(r, i, l) && !SpaceLed(r, i, l)
    ensures |Cut(r, i, l)| >= i + l
    ensures Cut(r, i, l)[..i + l] == r[..i + l]
    ensures Cut(r, i, l)[i..] == r[KeepFrom(r, i, l)..]
  {
    var k, out := KeepFrom(r, i, l), Cut(r, i, l);
    assert r[k..k + l] == r[i..i + l];
    forall m | 0 <= m < i + l ensures out[m] == r[m] {
      if m >= i {
        assert out[m] == r[k + (m - i)] == r[k..k + l][m - i] == r[i..i + l][m - i];
      }
    }
  }

  /** Removing a copy creates no new pair or triple of adjacent runes. */
  lemma CutKeepsClean(legal: Legal, r: string, i: nat, l: nat)
    requires Clean(legal, r) && Repeats(r, i, l) && !SpaceLed(r, i, l)
    ensures Clean(legal, Cut(r, i, l))
  {
    var out, k := Cut(r, i, l), KeepFrom(r, i, l);
    CutOverlaps(r, i, l);
    JoinedClean(legal, r, k, out, i, i + l);
  }

  lemma JoinedClean(legal: Legal, r: string, k: nat, out: string, i: nat, j: nat)
    requires Clean(legal, r) && k <= |r| && i + 2 <= j <= |out| && j <= |r|
    requires out[..j] == r[..j] && out[i..] == r[k..]
    ensures Clean(legal, out)
  {
    SliceClean(legal, r, 0, j);
    assert r[0..j] == r[..j];
    SliceClean(legal, r, k, |r|);
    assert r[k..|r|] == r[k..];
    OverlapClean(legal, out, i, j);
  }

  /** A cut of a clean text is clean exactly if it does not drop the leading space of the
      kept copy, or the runes that meet there instead happen to go together. */
  lemma CutCleanExactly(legal: Legal, r: string, i: nat, l: nat)
    requires Clean(legal, r) && Repeats(r, i, l)
    ensures i <= |Cut(r, i, l)|
    ensures Clean(legal, Cut(r, i, l)) <==> (SpaceLed(r, i, l) ==> Clean(legal, Seam(Cut(r, i, l), i)))
  {
    var out, k := Cut(r, i, l), KeepFrom(r, i, l);
    if !SpaceLed(r, i, l) {
      CutKeepsClean(legal, r, i, l);
    } else if Clean(legal, out) {
      SliceClean(legal, out, Max(0, i - 2), Min(|out|, i + 2));
    } else if Clean(legal, Seam(out, i)) {
      SliceClean(legal, r, 0, i);
      assert out[..i] == r[0..i];
      SliceClean(legal, r, k, |r|);
      assert out[i..] == r[k..|r|];
      SeamClean(legal, out, i);
      assert false;
    }
  }

  /** On text without white space the reduction keeps what the earlier stages established. */
  lemma {:induction false} ReduceKeepsClean(legal: Legal, r: string)
    requires NoSpace(r) && Clean(legal, r)
    ensures NoSpace(Reduce(r)) && Clean(legal, Reduce(r))
    decreases |r|
  {
    BestExists(r);
    if BestLength(r) > 0 {
      var i, l := BestStart(r), BestLength(r);
      var cut := Cut(r, i, l);
      assert !SpaceLed(r, i, l) by {
        assert i + l < |r| ==> !IsSpace(r[i + l]);
      }
      CutKeepsClean(legal, r, i, l);
      assert NoSpace(cut) && Trimmed(cut);
      ReduceRound(r, i, l);
      ReduceKeepsClean(legal, TrimSpace(cut));
    }
  }

  // ----- trimTailRepeat -----

  /** strings.TrimSuffix */
  function TrimSuffix(s: string, suffix: string): string {
    if |suffix| <= |s| && s[|s| - |suffix|..] == suffix then s[..|s| - |suffix|] else s
  }

  /** The text ends with two adjacent copies of a phrase of `k` runes. */
  predicate TailTwice(t: string, k: nat) {
    2 * k <= |t| && t[|t| - k..] == t[|t| - 2 * k..|t| - k]
  }

  /** Drops the shortest doubled phrase of at least `k` runes at the end. */
  function DropPhrase(t: string, k: nat): string
    decreases |t| - k
  {
    if k > |t| / 2 then t
    else if TailTwice(t, k) then TrimSpace(t[..|t| - k])
    else DropPhrase(t, k + 1)
  }

  predicate LastWordTwice(t: string) {
    var words := WordsOf(t);
    |words| >= 2 && words[|words| - 1] == words[|words| - 2]
  }

  function DropLastWord(t: string): string {
    var words := WordsOf(t);
    if words == [] then t else TrimSpace(TrimSuffix(t, words[|words| - 1]))
  }

  /** The rule on trimmed text. */
  function WithoutTail(t: string): string {
    if |t| < 2 then t
    else if LastWordTwice(t) then DropLastWord(t)
    else DropPhrase(t, 2)
  }

  function TrimTail(s: string): string {
    WithoutTail(TrimSpace(s))
  }

  method TrimTailRepeat(s: string) returns (out: string)
    ensures out == TrimTail(s)
  {
    var t := TrimSpace(s);
    if |t| < 2 {
      return t;
    }
    var words := WordsOf(t);
    if |words| >= 2 && words[|words| - 1] == words[|words| - 2] {
      return TrimSpace(TrimSuffix(t, words[|words| - 1]));
    }
    out := TrimTailPhrase(t);
  }

  /** No phrase shorter than `k` is doubled at the end. */
  ghost predicate NoneShorter(t: string, k: nat) {
    forall m | 2 <= m < k :: !TailTwice(t, m)
  }

  lemma {:induction false} DropPhraseFinds(t: string, k: nat, from: nat)
    requires 2 <= from <= k && NoneShorter(t, k)
    ensures DropPhrase(t, from) == DropPhrase(t, k)
    decreases k - from
  {
    if from < k {
      DropPhraseFinds(t, k, from + 1);
    }
  }

  method TrimTailPhrase(t: string) returns (out: string)
    ensures out == DropPhrase(t, 2)
  {
    var k := ShortestDoubled(t);
    DropPhraseFinds(t, k, 2);
    out := if k <= |t| / 2 then TrimSpace(t[..|t| - k]) else t;
  }

  /** The loop over phrase lengths. */
  method ShortestDoubled(t: string) returns (k: nat)
    ensures k >= 2 && NoneShorter(t, k)
    ensures k <= |t| / 2 ==> TailTwice(t, k)
  {
    var n := |t|;
    k := 2;
    while k <= n / 2 && !TailTwice(t, k)
      invariant k >= 2 && NoneShorter(t, k)
    {
      k := k + 1;
    }
  }

  lemma TailIsRepeated(t: string, k: nat)
    requires TailTwice(t, k) && k >= 2
    ensures Repeats(t, |t| - 2 * k, k)
  {
    assert t[|t| - k..] == t[|t| - k..|t|];
  }

  /** After dedupAdjacentRepeat the phrase loop never finds anything. */
  lemma {:induction false} PhraseLoopIsDead(t: string, k: nat)
    requires SquareFree(t) && k >= 2
    ensures !TailTwice(t, k) && DropPhrase(t, k) == t
    decreases |t| - k
  {
    if TailTwice(t, k) {
      TailIsRepeated(t, k);
    }
    if k <= |t| / 2 {
      PhraseLoopIsDead(t, k + 1);
    }
  }

  ghost predicate IsSlice(x: string, t: string) {
    exists c, d :: 0 <= c <= d <= |t| && x == t[c..d]
  }

  lemma SlicesCompose(x: string, t: string, s: string)
    requires IsSlice(x, t) && IsSlice(t, s)
    ensures IsSlice(x, s)
  {
    var c, d :| 0 <= c <= d <= |t| && x == t[c..d];
    var a, b :| 0 <= a <= b <= |s| && t == s[a..b];
    SliceOfSlice(s, a, b, c, d);
    assert x == s[a + c..a + d];
  }

  lemma TrimSpaceIsSlice(s: string)
    ensures IsSlice(TrimSpace(s), s)
  {
    var a, b := TrimIsSlice(s);
  }

  lemma SliceOfSquareFree(x: string, s: string)
    requires IsSlice(x, s) && SquareFree(s)
    ensures SquareFree(x)
  {
    var a, b :| 0 <= a <= b <= |s| && x == s[a..b];
    SliceSquareFree(s, a, b);
  }

  lemma TrimSuffixIsSlice(t: string, word: string)
    ensures IsSlice(TrimSuffix(t, word), t)
  {
    var u := TrimSuffix(t, word);
    assert u == t[0..|u|];
  }

  /** The branch of the doubled last word. */
  lemma LastWordIsSlice(t: string, word: string)
    ensures IsSlice(TrimSpace(TrimSuffix(t, word)), t)
  {
    TrimSuffixIsSlice(t, word);
    TrimSpaceIsSlice(TrimSuffix(t, word));
    SlicesCompose(TrimSpace(TrimSuffix(t, word)), TrimSuffix(t, word), t);
  }

  /** The branch of the phrase loop. */
  lemma PhraseIsSlice(t: string)
    requires SquareFree(t)
    ensures IsSlice(DropPhrase(t, 2), t)
  {
    PhraseLoopIsDead(t, 2);
    assert t == t[0..|t|];
  }

  lemma OneWord(w: string)
    requires w != "" && NoSpace(w)
    ensures WordsOf(w) == [w]
  {
    var none: string := [];
    WordsFirst(w, none);
    assert w + none == w && WordsOf(none) == [];
  }

  lemma LastTwoWords(x: string, v: string, gap: string, w: string)
    requires (x != "" ==> IsSpace(x[|x| - 1])) && v != "" && NoSpace(v) && w != "" && NoSpace(w)
    requires gap != "" && AllSpaces(gap)
    ensures WordsOf(x + v + gap + w) == WordsOf(x) + [v, w]
  {
    TwoWords(v, gap, w);
    WordsAppend(x, v + gap + w);
    Reassociated(x, v, gap, w);
  }

  lemma TwoWords(v: string, gap: string, w: string)
    requires v != "" && NoSpace(v) && w != "" && NoSpace(w) && gap != "" && AllSpaces(gap)
    ensures WordsOf(v + gap + w) == [v, w]
  {
    OneWord(w);
    WordsSkip(gap, w);
    WordsFirst(v, gap + w);
    Associative(v, gap, w);
    assert [v] + [w] == [v, w];
  }

  lemma LastWordTwiceExactly(x: string, v: string, gap: string, w: string)
    requires (x != "" ==> IsSpace(x[|x| - 1])) && v != "" && NoSpace(v) && w != "" && NoSpace(w)
    requires gap != "" && AllSpaces(gap)
    ensures LastWordTwice(x + v + gap + w) <==> v == w
    ensures var words := WordsOf(x + v + gap + w); words != [] && words[|words| - 1] == w
  {
    LastTwoWords(x, v, gap, w);
    var words := WordsOf(x) + [v, w];
    assert words[|words| - 1] == w && words[|words| - 2] == v;
  }

  lemma LastWordDropped(x: string, gap: string, w: string)
    requires gap != "" && AllSpaces(gap) && Trimmed(x + w)
    ensures TrimSpace(TrimSuffix(x + w + gap + w, w)) == x + w
  {
    Parted(x + w + gap, w);
    assert TrimSuffix(x + w + gap + w, w) == x + w + gap;
    var none: string := [];
    TrimIs(none, x + w, gap);
    assert none + (x + w) == x + w;
  }

  /** A doubled last word goes with the white space before it. */
  lemma DoubledWordGoes(t: string, x: string, gap: string, w: string)
    requires t == x + w + gap + w && (x != "" ==> IsSpace(x[|x| - 1]) && !IsSpace(x[0]))
    requires w != "" && NoSpace(w) && gap != "" && AllSpaces(gap)
    ensures TrimTail(t) == x + w
  {
    SolidEnds(x, w, gap, w);
    LastWordTwiceExactly(x, w, gap, w);
    LastWordGoes(t, WordsOf(t), x, gap, w);
    TailOfTrimmed(t);
  }

  /** With two different last words the rule for phrases applies. */
  lemma OtherWordsStay(t: string, x: string, v: string, gap: string, w: string)
    requires t == x + v + gap + w && (x != "" ==> IsSpace(x[|x| - 1]) && !IsSpace(x[0]))
    requires v != "" && NoSpace(v) && w != "" && NoSpace(w) && gap != "" && AllSpaces(gap) && v != w
    ensures TrimTail(t) == DropPhrase(t, 2)
  {
    SolidEnds(x, v, gap, w);
    LastWordTwiceExactly(x, v, gap, w);
    TailOfTrimmed(t);
  }

  /** So it does to a text that is one word. */
  lemma OneWordStays(t: string)
    requires |t| >= 2 && NoSpace(t)
    ensures TrimTail(t) == DropPhrase(t, 2)
  {
    OneWord(t);
    TailOfTrimmed(t);
  }

  lemma TailOfTrimmed(t: string)
    requires Trimmed(t) && |t| >= 2
    ensures TrimTail(t) == if LastWordTwice(t) then DropLastWord(t) else DropPhrase(t, 2)
  {
  }

  lemma LastWordGoes(t: string, words: seq<string>, x: string, gap: string, w: string)
    requires t == x + w + gap + w && gap != "" && AllSpaces(gap) && Trimmed(x + w)
    requires words == WordsOf(t) && words != [] && words[|words| - 1] == w
    ensures DropLastWord(t) == x + w
  {
    LastWordDropped(x, gap, w);
    DroppedWord(t, words);
  }

  lemma SolidEnds(x: string, v: string, gap: string, w: string)
    requires (x != "" ==> !IsSpace(x[0])) && v != "" && NoSpace(v) && w != "" && NoSpace(w)
    ensures Trimmed(x + v + gap + w) && Trimmed(x + v)
  {
    var t := x + v + gap + w;
    assert t[|t| - 1] == w[|w| - 1];
  }

  lemma DroppedWord(t: string, words: seq<string>)
    requires words == WordsOf(t) && words != []
    ensures DropLastWord(t) == TrimSpace(TrimSuffix(t, words[|words| - 1]))
  {
  }

  /** Of the phrases of two runes or more that are doubled at the end, the second copy of the
      shortest goes. */
  lemma PhraseRule(y: string, p: string)
    requires |p| >= 2 && forall z, q | 2 <= |q| < |p| :: y + p + p != z + q + q
    ensures DropPhrase(y + p + p, 2) == TrimSpace(y + p)
  {
    var t, k := y + p + p, |p|;
    assert t[|t| - k..] == p && t[|t| - 2 * k..|t| - k] == p && t[..|t| - k] == y + p;
    forall m | 2 <= m < k ensures !TailTwice(t, m) {
      TailReadsTwice(t, m);
    }
    DropPhraseFinds(t, k, 2);
  }

  lemma NoPhraseRule(t: string)
    requires forall z, q | |q| >= 2 :: t != z + q + q
    ensures DropPhrase(t, 2) == t
  {
    forall m | 2 <= m <= |t| / 2 + 1 ensures !TailTwice(t, m) {
      TailReadsTwice(t, m);
    }
    DropPhraseFinds(t, Max(2, |t| / 2 + 1), 2);
  }

  lemma TailReadsTwice(t: string, m: nat)
    requires m >= 2
    ensures TailTwice(t, m) ==> exists z, q :: |q| == m && t == z + q + q
  {
    if TailTwice(t, m) {
      var z, q := t[..|t| - 2 * m], t[|t| - m..];
      assert t == z + t[|t| - 2 * m..|t| - m] + q;
    }
  }

  lemma DropLastWordIsSlice(t: string)
    ensures IsSlice(DropLastWord(t), t)
  {
    var words := WordsOf(t);
    if words == [] {
      assert t == t[0..|t|];
    } else {
      LastWordIsSlice(t, words[|words| - 1]);
    }
  }

  lemma WithoutTailIsSlice(t: string)
    requires SquareFree(t)
    ensures IsSlice(WithoutTail(t), t)
  {
    if |t| < 2 {
      assert t == t[0..|t|];
    } else if LastWordTwice(t) {
      DropLastWordIsSlice(t);
    } else {
      PhraseIsSlice(t);
    }
  }

  /** Whatever trimTailRepeat removes from a square-free text is at its ends. */
  lemma TrimTailIsSlice(s: string)
    requires SquareFree(s)
    ensures IsSlice(TrimTail(s), s)
  {
    TrimSpaceIsSlice(s);
    SliceOfSquareFree(TrimSpace(s), s);
    WithoutTailIsSlice(TrimSpace(s));
    SlicesCompose(TrimTail(s), TrimSpace(s), s);
  }
}
