/** splitClauses and refinePlausible (internal/server/stt_refine.go). */
module Clauses {
  import opened Text
  import opened Dedup
  import opened Punctuate

  // ----- splitClauses -----

  const MIN_CLAUSE_RUNES := 40

  /** A clause may begin at `i`: a mark or a connective stands there, not after a digit. */
  predicate Boundary(units: seq<string>, r: string, i: nat) {
    0 < i < |r| && !IsDigit(r[i - 1]) && (IsPunct(r[i]) || StartsWord(units, r, i))
  }

  /** Where the piece that starts at `start` is cut, looking from `i` on; the end if nowhere. */
  function CutFrom(units: seq<string>, r: string, start: nat, i: nat): (cut: nat)
    requires start <= |r| && i <= |r|
    ensures i <= cut <= |r|
    ensures cut < |r| ==> Boundary(units, r, cut) && cut - start >= MIN_CLAUSE_RUNES
    ensures forall j | i <= j < cut :: !(Boundary(units, r, j) && j - start >= MIN_CLAUSE_RUNES)
    decreases |r| - i
  {
    if i == |r| || (Boundary(units, r, i) && i - start >= MIN_CLAUSE_RUNES) then i
    else CutFrom(units, r, start, i + 1)
  }

  /** The raw pieces of the text from `start` on: each is cut at the first boundary that
      leaves it at least MIN_CLAUSE_RUNES long. */
  function RawParts(units: seq<string>, r: string, start: nat): (parts: seq<string>)
    requires start <= |r|
    ensures |parts| > 0
    decreases |r| - start
  {
    var cut := if start < |r| then CutFrom(units, r, start, start + 1) else start;
    if cut < |r| then [r[start..cut]] + RawParts(units, r, cut) else [r[start..]]
  }

  function Pieces(parts: seq<string>): seq<string> {
    if parts == [] then []
    else
      var front, p := Pieces(parts[..|parts| - 1]), TrimSpace(parts[|parts| - 1]);
      if p != "" then front + [p] else front
  }

  lemma CutMade(units: seq<string>, r: string, parts: seq<string>, start: nat, i: nat)
    requires start < i < |r| && CutFrom(units, r, start, start + 1) == i
    ensures parts + RawParts(units, r, start) == (parts + [r[start..i]]) + RawParts(units, r, i)
  {
    Associative(parts, [r[start..i]], RawParts(units, r, i));
  }

  method CutRaw(units: seq<string>, r: string) returns (parts: seq<string>)
    ensures parts == RawParts(units, r, 0)
  {
    parts := [];
    var start, i := 0, 1;
    while i < |r|
      invariant 1 <= i && start < i && (i <= |r| || |r| == 0) && start <= |r|
      invariant parts + RawParts(units, r, start) == RawParts(units, r, 0)
      invariant |r| > 0 ==> CutFrom(units, r, start, start + 1) == CutFrom(units, r, start, i)
      decreases |r| - i
    {
      var boundary := false;
      if !IsDigit(r[i - 1]) {
        var connective := MatchWord(units, r, i);
        boundary := IsPunct(r[i]) || connective;
      }
      if boundary && i - start >= MIN_CLAUSE_RUNES {
        CutMade(units, r, parts, start, i);
        parts := parts + [r[start..i]];
        start := i;
      }
      i := i + 1;
    }
    parts := parts + [r[start..]];
  }

  /** The algorithm for any list of connectives. */
  method SplitWith(units: seq<string>, s: string) returns (out: seq<string>)
    ensures out == Pieces(RawParts(units, s, 0))
  {
    var parts := CutRaw(units, s);
    out := [];
    var k := 0;
    while k < |parts|
      invariant 0 <= k <= |parts|
      invariant out == Pieces(parts[..k])
    {
      assert parts[..k + 1][..k] == parts[..k];
      if TrimSpace(parts[k]) != "" {
        out := out + [TrimSpace(parts[k])];
      }
      k := k + 1;
    }
    assert parts[..k] == parts;
  }

  method SplitClauses(s: string) returns (out: seq<string>)
    ensures out == Pieces(RawParts(CONNECTIVES, s, 0))
  {
    out := SplitWith(CONNECTIVES, s);
  }

  function Flat(parts: seq<string>): string {
    if parts == [] then "" else parts[0] + Flat(parts[1..])
  }

  /** The raw pieces partition the text, and all but the last are long enough. */
  lemma {:induction false} RawPartsPartition(units: seq<string>, r: string, start: nat)
    requires start <= |r|
    ensures Flat(RawParts(units, r, start)) == r[start..]
    ensures forall k | 0 <= k < |RawParts(units, r, start)| - 1 :: |RawParts(units, r, start)[k]| >= 40
    decreases |r| - start
  {
    var parts := RawParts(units, r, start);
    var cut := if start < |r| then CutFrom(units, r, start, start + 1) else start;
    if cut < |r| {
      RawPartsPartition(units, r, cut);
      assert parts[1..] == RawParts(units, r, cut);
      assert r[start..cut] + r[cut..] == r[start..];
    } else {
      assert parts[1..] == [];
      assert r[start..] + "" == r[start..];
    }
  }

  /** Where the `k`-th raw piece begins in the text. */
  function Offset(parts: seq<string>, k: nat): nat
    requires k <= |parts|
  {
    if k == 0 then 0 else |parts[0]| + Offset(parts[1..], k - 1)
  }

  /** A mark or one of the connectives stands at `i`, and no digit before it. */
  ghost predicate MayBegin(units: seq<string>, r: string, i: int) {
    && 0 < i < |r| && !('0' <= r[i - 1] <= '9')
    && (r[i] in {'，', '。', '！', '？', '、', '；', '：'} || ConnectiveAt(units, r, i))
  }

  lemma BoundaryMayBegin(units: seq<string>, r: string, i: nat)
    ensures Boundary(units, r, i) <==> MayBegin(units, r, i)
  {
    ConnectiveStarts(units, r, i);
  }

  /** No cut that is due is left out: within a raw piece, the last one included, nothing may
      begin at 40 runes from its start or later. */
  lemma {:induction false} DueCutsMade(units: seq<string>, r: string, start: nat, k: nat, i: nat)
    requires start <= |r| && k < |RawParts(units, r, start)|
    requires var from := start + Offset(RawParts(units, r, start), k);
             from < i < from + |RawParts(units, r, start)[k]| && i - from >= 40
    ensures !MayBegin(units, r, i)
    decreases |r| - start
  {
    var parts := RawParts(units, r, start);
    if k > 0 {
      var cut := RawFirst(units, r, start);
      DueCutsMade(units, r, cut, k - 1, i);
    } else {
      DueCutMade(units, r, start, i);
    }
  }

  /** The first raw piece and the others. */
  lemma RawFirst(units: seq<string>, r: string, start: nat) returns (cut: nat)
    requires start <= |r| && |RawParts(units, r, start)| > 1
    ensures start < cut < |r| && RawParts(units, r, start) == [r[start..cut]] + RawParts(units, r, cut)
    ensures RawParts(units, r, start)[1..] == RawParts(units, r, cut) && |RawParts(units, r, start)[0]| == cut - start
  {
    cut := CutFrom(units, r, start, start + 1);
  }

  lemma DueCutMade(units: seq<string>, r: string, start: nat, i: nat)
    requires start < i < |r| && i < start + |RawParts(units, r, start)[0]| && i - start >= 40
    ensures !MayBegin(units, r, i)
  {
    var cut := CutFrom(units, r, start, start + 1);
    assert i < cut;
    BoundaryMayBegin(units, r, i);
  }

  /** Every cut is at a clause boundary, never after a digit. */
  lemma {:induction false} CutsAtBoundaries(units: seq<string>, r: string, start: nat, k: nat)
    requires start <= |r| && 0 < k < |RawParts(units, r, start)|
    ensures MayBegin(units, r, start + Offset(RawParts(units, r, start), k))
    decreases |r| - start
  {
    var parts := RawParts(units, r, start);
    var cut := CutFrom(units, r, start, start + 1);
    assert parts[1..] == RawParts(units, r, cut);
    if k > 1 {
      CutsAtBoundaries(units, r, cut, k - 1);
    } else {
      assert Offset(parts[1..], 0) == 0;
      BoundaryMayBegin(units, r, cut);
    }
  }

  /** The text without its white space. */
  function Dense(s: string): string {
    if s == [] then [] else (if IsSpace(s[0]) then [] else [s[0]]) + Dense(s[1..])
  }

  lemma {:induction false} DenseAppend(a: string, b: string)
    ensures Dense(a + b) == Dense(a) + Dense(b)
  {
    if a == [] {
      assert a + b == b;
    } else {
      assert (a + b)[1..] == a[1..] + b;
      DenseAppend(a[1..], b);
    }
  }

  lemma {:induction false} DenseOfSpaces(s: string)
    requires forall k | 0 <= k < |s| :: IsSpace(s[k])
    ensures Dense(s) == []
  {
    if s != [] {
      DenseOfSpaces(s[1..]);
    }
  }

  lemma DenseTrim(s: string)
    ensures Dense(TrimSpace(s)) == Dense(s)
  {
    var i, j := Lo(s), Hi(s, Lo(s));
    assert s == s[..i] + s[i..j] + s[j..];
    DenseBetween(s[..i], s[i..j], s[j..]);
  }

  lemma DenseBetween(a: string, b: string, c: string)
    requires (forall k | 0 <= k < |a| :: IsSpace(a[k])) && forall k | 0 <= k < |c| :: IsSpace(c[k])
    ensures Dense(a + b + c) == Dense(b)
  {
    DenseOfSpaces(a);
    DenseOfSpaces(c);
    DenseAppend(a, b);
    DenseAppend(a + b, c);
  }

  lemma {:induction false} FlatAppend(a: seq<string>, p: string)
    ensures Flat(a + [p]) == Flat(a) + p
  {
    if a == [] {
      assert a + [p] == [p];
      assert [p][1..] == [];
    } else {
      assert (a + [p])[1..] == a[1..] + [p];
      FlatAppend(a[1..], p);
    }
  }

  function Piece(p: string): seq<string> {
    if TrimSpace(p) == "" then [] else [TrimSpace(p)]
  }

  lemma PiecesLast(parts: seq<string>, p: string)
    ensures Pieces(parts + [p]) == Pieces(parts) + Piece(p)
  {
    assert (parts + [p])[..|parts|] == parts;
  }

  lemma {:induction false} PiecesAppend(a: seq<string>, b: seq<string>)
    ensures Pieces(a + b) == Pieces(a) + Pieces(b)
    decreases |b|
  {
    if b == [] {
      assert a + b == a;
    } else {
      var front, last := b[..|b| - 1], b[|b| - 1];
      PiecesAppend(a, front);
      OneMorePiece(a, front, last);
      assert b == front + [last];
    }
  }

  lemma OneMorePiece(a: seq<string>, front: seq<string>, last: string)
    requires Pieces(a + front) == Pieces(a) + Pieces(front)
    ensures Pieces(a + (front + [last])) == Pieces(a) + Pieces(front + [last])
  {
    PiecesLast(front, last);
    PiecesLast(a + front, last);
    Associative(a, front, [last]);
    Associative(Pieces(a), Pieces(front), Piece(last));
  }

  /** Each raw piece yields its trimmed text, or nothing if it is blank, in order. */
  lemma PiecesOfEach(a: seq<string>, p: string, b: seq<string>)
    ensures Pieces(a + [p] + b) == Pieces(a) + (if TrimSpace(p) == "" then [] else [TrimSpace(p)]) + Pieces(b)
  {
    PiecesAppend(a + [p], b);
    PiecesLast(a, p);
  }

  lemma {:induction false} PiecesTrimmed(parts: seq<string>)
    ensures forall k | 0 <= k < |Pieces(parts)| :: Pieces(parts)[k] != "" && Trimmed(Pieces(parts)[k])
    decreases |parts|
  {
    if parts != [] {
      PiecesTrimmed(parts[..|parts| - 1]);
    }
  }

  lemma DenseFlatAppend(parts: seq<string>, p: string)
    ensures Dense(Flat(parts + [p])) == Dense(Flat(parts)) + Dense(p)
  {
    FlatAppend(parts, p);
    DenseAppend(Flat(parts), p);
  }

  /** The pieces lose only white space. */
  lemma {:induction false} PiecesKeepRunes(parts: seq<string>)
    ensures Dense(Flat(Pieces(parts))) == Dense(Flat(parts))
    decreases |parts|
  {
    if parts != [] {
      var front, last := parts[..|parts| - 1], parts[|parts| - 1];
      PiecesKeepRunes(front);
      assert front + [last] == parts;
      DenseFlatAppend(front, last);
      DenseTrim(last);
      DenseFlatAppend(Pieces(front), TrimSpace(last));
    }
  }

  /** With white space erased the pieces concatenate to the text. */
  lemma ClausesCoverText(units: seq<string>, s: string)
    ensures Dense(Flat(Pieces(RawParts(units, s, 0)))) == Dense(s)
  {
    RawPartsPartition(units, s, 0);
    PiecesKeepRunes(RawParts(units, s, 0));
    assert s[0..] == s;
  }

  // ----- refinePlausible -----

  /** The runes of `c` that can be drawn from `o`, with multiplicity. */
  ghost function Shared(o: string, c: string): nat {
    |multiset(o) * multiset(c)|
  }

  /** The counts map of the method stands for this multiset of runes still available. */
  ghost predicate Stands(counts: map<char, int>, left: multiset<char>) {
    forall r: char :: left[r] == (if r in counts && counts[r] > 0 then counts[r] else 0)
  }

  method CountRunes(o: string) returns (counts: map<char, int>)
    ensures Stands(counts, multiset(o))
  {
    counts := map[];
    var k := 0;
    while k < |o|
      invariant 0 <= k <= |o|
      invariant Stands(counts, multiset(o[..k]))
      invariant forall r | r in counts :: counts[r] > 0
    {
      assert o[..k + 1] == o[..k] + [o[k]];
      counts := counts[o[k] := (if o[k] in counts then counts[o[k]] else 0) + 1];
      k := k + 1;
    }
    assert o[..k] == o;
  }

  /** Taking one more rune of `c` draws it from `left` if it is still there. */
  lemma DrawOne(o: multiset<char>, seen: multiset<char>, r: char)
    ensures var left := o - seen;
            |o * (seen + multiset{r})| == |o * seen| + if r in left then 1 else 0
  {
    var before, after := o * seen, o * (seen + multiset{r});
    if r in o - seen {
      assert after == before + multiset{r};
    } else {
      assert after == before;
    }
  }

  method CountShared(o: string, c: string) returns (shared: nat)
    ensures shared == Shared(o, c)
  {
    var counts := CountRunes(o);
    shared := 0;
    var k := 0;
    while k < |c|
      invariant 0 <= k <= |c|
      invariant Stands(counts, multiset(o) - multiset(c[..k]))
      invariant shared == |multiset(o) * multiset(c[..k])|
    {
      assert c[..k + 1] == c[..k] + [c[k]];
      assert multiset(c[..k + 1]) == multiset(c[..k]) + multiset{c[k]};
      DrawOne(multiset(o), multiset(c[..k]), c[k]);
      if c[k] in counts && counts[c[k]] > 0 {
        counts := counts[c[k] := counts[c[k]] - 1];
        shared := shared + 1;
      }
      k := k + 1;
    }
    assert c[..k] == c;
  }

  /** The acceptance rule over exact ratios: 0.3 <= |c|/|o| <= 3 and shared/|c| >= 0.6. */
  ghost predicate Plausible(o: string, c: string) {
    TrimSpace(c) != "" && |o| > 0 && 10 * |c| >= 3 * |o| && |c| <= 3 * |o| && 5 * Shared(o, c) >= 3 * |c|
  }

  method RefinePlausible(original: string, cleaned: string) returns (ok: bool)
    ensures ok == Plausible(original, cleaned)
    ensures var shared := |multiset(original) * multiset(cleaned)|;
            ok <==> (exists r | r in cleaned :: !IsSpace(r)) && original != "" &&
                    0.3 * |original| as real <= |cleaned| as real <= 3.0 * |original| as real &&
                    shared as real >= 0.6 * |cleaned| as real
  {
    BlankIffSpaces(cleaned);
    assert forall r :: r in multiset(cleaned) <==> r in cleaned;
    if TrimSpace(cleaned) == "" {
      return false;
    }
    if |original| == 0 || |cleaned| == 0 {
      return false;
    }
    if (|cleaned| as real) / (|original| as real) < 0.3 || (|cleaned| as real) / (|original| as real) > 3.0 {
      RatioBound(|cleaned|, |original|);
      return false;
    }
    RatioBound(|cleaned|, |original|);
    var shared := CountShared(original, cleaned);
    SharedBound(shared, |cleaned|);
    return (shared as real) / (|cleaned| as real) >= 0.6;
  }

  lemma ProductPositive(a: real, d: real)
    requires a > 0.0 && d > 0.0
    ensures a * d > 0.0
  {
  }

  /** Comparing a quotient with a constant is comparing the numerator with a product. */
  lemma QuotientBound(n: real, d: real, k: real)
    requires d > 0.0
    ensures n / d < k <==> n < k * d
    ensures n / d > k <==> n > k * d
  {
    var q := n / d;
    assert q * d == n;
    if q < k {
      ProductPositive(k - q, d);
      assert (k - q) * d == k * d - q * d;
    } else if q > k {
      ProductPositive(q - k, d);
      assert (q - k) * d == q * d - k * d;
    }
  }

  lemma RatioBound(c: nat, o: nat)
    requires o > 0
    ensures (c as real) / (o as real) < 0.3 <==> 10 * c < 3 * o
    ensures (c as real) / (o as real) > 3.0 <==> c > 3 * o
  {
    QuotientBound(c as real, o as real, 0.3);
    QuotientBound(c as real, o as real, 3.0);
  }

  lemma SharedBound(shared: nat, c: nat)
    requires c > 0
    ensures (shared as real) / (c as real) >= 0.6 <==> 5 * shared >= 3 * c
  {
    QuotientBound(shared as real, c as real, 0.6);
  }

  /** A text is blank exactly if it has no rune but white space. */
  lemma BlankIffSpaces(c: string)
    ensures TrimSpace(c) == "" <==> forall r | r in multiset(c) :: IsSpace(r)
  {
    var i := Lo(c);
    if i < |c| {
      assert c[i] in multiset(c) && !IsSpace(c[i]);
      assert Hi(c, i) > i;
    } else {
      assert forall r | r in c :: IsSpace(r);
    }
  }

  /** Only the runes matter, not their order. */
  lemma OrderIrrelevant(o: string, o': string, c: string, c': string)
    requires multiset(o) == multiset(o') && multiset(c) == multiset(c')
    ensures Plausible(o, c) == Plausible(o', c')
  {
    BlankIffSpaces(c);
    BlankIffSpaces(c');
    assert |multiset(o)| == |multiset(o')| && |multiset(c)| == |multiset(c')|;
  }

  /** A text that is not blank is a plausible repair of itself. */
  lemma AcceptsItself(s: string)
    requires TrimSpace(s) != ""
    ensures Plausible(s, s)
  {
    assert multiset(s) * multiset(s) == multiset(s);
    assert |multiset(s)| == |s|;
  }
}
