/** The local deduplication of transcripts (internal/server/stt_refine.go).  A text is a
    sequence of runes. */
module Dedup {
  import opened Basics
  import opened Text
  import opened Subsequence

  predicate IsPunct(c: char) {
    c == '，' || c == '。' || c == '！' || c == '？' || c == '、' || c == '；' || c == '：'
  }

  /** The allow-list of characters that may be doubled (legalRedup). */
  type Legal = char -> bool

  /** No allow-listed character is a punctuation mark. */
  ghost predicate LegalLetters(legal: Legal) {
    forall c :: legal(c) ==> !IsPunct(c)
  }

  // ----- what the pipeline establishes -----

  predicate PairOk(legal: Legal, a: char, b: char) {
    !(IsPunct(a) && IsPunct(b)) && (a == b ==> legal(a))
  }

  predicate TripleOk(a: char, b: char, c: char) {
    !(a == b && b == c)
  }

  /** No two adjacent punctuation marks, no run of three or more, and runs of two only for
      allow-listed characters. */
  ghost predicate Clean(legal: Legal, s: string) {
    && (forall i | 0 <= i < |s| - 1 :: PairOk(legal, s[i], s[i + 1]))
    && (forall i | 0 <= i < |s| - 2 :: TripleOk(s[i], s[i + 1], s[i + 2]))
  }

  lemma SliceClean(legal: Legal, s: string, i: nat, j: nat)
    requires Clean(legal, s) && i <= j <= |s|
    ensures Clean(legal, s[i..j])
  {
    var t := s[i..j];
    forall k | 0 <= k < |t| - 1 ensures PairOk(legal, t[k], t[k + 1]) {
      assert PairOk(legal, s[i + k], s[i + k + 1]);
    }
    forall k | 0 <= k < |t| - 2 ensures TripleOk(t[k], t[k + 1], t[k + 2]) {
      assert TripleOk(s[i + k], s[i + k + 1], s[i + k + 2]);
    }
  }

  /** Two clean stretches that overlap in at least two runes make a clean text. */
  lemma OverlapClean(legal: Legal, s: string, i: nat, j: nat)
    requires i + 2 <= j <= |s| && Clean(legal, s[..j]) && Clean(legal, s[i..])
    ensures Clean(legal, s)
  {
    var a, b := s[..j], s[i..];
    forall k | 0 <= k < |s| - 1 ensures PairOk(legal, s[k], s[k + 1]) {
      if k + 1 < j {
        assert PairOk(legal, a[k], a[k + 1]);
      } else {
        assert PairOk(legal, b[k - i], b[k - i + 1]);
      }
    }
    forall k | 0 <= k < |s| - 2 ensures TripleOk(s[k], s[k + 1], s[k + 2]) {
      if k + 2 < j {
        assert TripleOk(a[k], a[k + 1], a[k + 2]);
      } else {
        assert TripleOk(b[k - i], b[k - i + 1], b[k - i + 2]);
      }
    }
  }

  /** The runes around position `i` that a pair or triple across it can touch. */
  function Seam(s: string, i: nat): string
    requires i <= |s|
  {
    s[Max(0, i - 2)..Min(|s|, i + 2)]
  }

  lemma SeamClean(legal: Legal, s: string, i: nat)
    requires i <= |s| && Clean(legal, s[..i]) && Clean(legal, s[i..]) && Clean(legal, Seam(s, i))
    ensures Clean(legal, s)
  {
    var a, b, m, o := s[..i], s[i..], Seam(s, i), Max(0, i - 2);
    forall k | 0 <= k < |s| - 1 ensures PairOk(legal, s[k], s[k + 1]) {
      if k + 1 < i {
        assert PairOk(legal, a[k], a[k + 1]);
      } else if k >= i {
        assert PairOk(legal, b[k - i], b[k - i + 1]);
      } else {
        assert PairOk(legal, m[k - o], m[k - o + 1]);
      }
    }
    forall k | 0 <= k < |s| - 2 ensures TripleOk(s[k], s[k + 1], s[k + 2]) {
      if k + 2 < i {
        assert TripleOk(a[k], a[k + 1], a[k + 2]);
      } else if k >= i {
        assert TripleOk(b[k - i], b[k - i + 1], b[k - i + 2]);
      } else {
        assert TripleOk(m[k - o], m[k - o + 1], m[k - o + 2]);
      }
    }
  }

  lemma TrimIsSlice(s: string) returns (i: nat, j: nat)
    ensures i <= j <= |s| && TrimSpace(s) == s[i..j]
  {
    i, j := Lo(s), Hi(s, Lo(s));
  }

  // ----- dedupPunct -----

  /** Every mark that directly follows another mark is dropped. */
  function Unpunct(s: string): (r: string) {
    if s == [] then []
    else
      var n := |s|;
      if n >= 2 && IsPunct(s[n - 1]) && IsPunct(s[n - 2]) then Unpunct(s[..n - 1])
      else Unpunct(s[..n - 1]) + [s[n - 1]]
  }

  method DedupPunct(s: string) returns (out: string)
    ensures out == Unpunct(s)
  {
    out := [];
    var lastWasPunct := false;
    var i := 0;
    while i < |s|
      invariant 0 <= i <= |s|
      invariant out == Unpunct(s[..i])
      invariant lastWasPunct == (i > 0 && IsPunct(s[i - 1]))
    {
      var c := s[i];
      assert s[..i + 1][..i] == s[..i];
      if IsPunct(c) {
        if !lastWasPunct {
          out := out + [c];
          lastWasPunct := true;
        }
      } else {
        out := out + [c];
        lastWasPunct := false;
      }
      i := i + 1;
    }
    assert s[..i] == s;
  }

  /** The marks left are never adjacent. */
  lemma {:induction false} UnpunctSeparates(s: string)
    ensures s != [] ==> Unpunct(s) != [] && IsPunct(Unpunct(s)[|Unpunct(s)| - 1]) == IsPunct(s[|s| - 1])
    ensures forall k | 0 <= k < |Unpunct(s)| - 1 :: !(IsPunct(Unpunct(s)[k]) && IsPunct(Unpunct(s)[k + 1]))
  {
    if s != [] {
      UnpunctSeparates(s[..|s| - 1]);
    }
  }

  /** Only marks are dropped. */
  lemma {:induction false} UnpunctKeepsLetters(s: string)
    ensures Letters(Unpunct(s)) == Letters(s)
  {
    if s != [] {
      var front, last := s[..|s| - 1], s[|s| - 1];
      UnpunctKeepsLetters(front);
      assert (Unpunct(front) + [last])[..|Unpunct(front)|] == Unpunct(front);
    }
  }

  lemma {:induction false} UnpunctAppend(a: string, b: string)
    requires a != [] && b != [] ==> !(IsPunct(a[|a| - 1]) && IsPunct(b[0]))
    ensures Unpunct(a + b) == Unpunct(a) + Unpunct(b)
    decreases |b|
  {
    if b == [] {
      assert a + b == a;
    } else {
      var front, last := b[..|b| - 1], [b[|b| - 1]];
      assert (a + b)[..|a + b| - 1] == a + front;
      UnpunctAppend(a, front);
      Associative(Unpunct(a), Unpunct(front), last);
    }
  }

  lemma {:induction false} UnpunctRun(run: string)
    requires run != [] && forall k | 0 <= k < |run| :: IsPunct(run[k])
    ensures Unpunct(run) == [run[0]]
  {
    if |run| > 1 {
      UnpunctRun(run[..|run| - 1]);
    } else {
      assert run[..0] == [] && [run[0]] == run;
    }
  }

  /** Of a run of marks the first one is kept, and nothing around it matters. */
  lemma FirstMarkKept(a: string, run: string, b: string)
    requires run != [] && forall k | 0 <= k < |run| :: IsPunct(run[k])
    requires (a != [] ==> !IsPunct(a[|a| - 1])) && (b != [] ==> !IsPunct(b[0]))
    ensures Unpunct(a + run + b) == Unpunct(a) + [run[0]] + Unpunct(b)
  {
    UnpunctAppend(a + run, b);
    UnpunctAppend(a, run);
    UnpunctRun(run);
  }

  lemma {:induction false} UnpunctDeletes(s: string)
    ensures Subseq(Unpunct(s), s)
  {
    if s == [] {
      Reflexive(s);
    } else {
      var front, last := s[..|s| - 1], s[|s| - 1];
      UnpunctDeletes(front);
      assert s == front + [last] && front == s[0..|s| - 1];
      Slice(s, 0, |s| - 1);
      Transitive(Unpunct(front), front, s);
      Reflexive([last]);
      Concat(Unpunct(front), front, [last], [last]);
    }
  }

  /** The text without its punctuation marks. */
  function Letters(s: string): string {
    if s == [] then []
    else if IsPunct(s[|s| - 1]) then Letters(s[..|s| - 1])
    else Letters(s[..|s| - 1]) + [s[|s| - 1]]
  }

  // ----- dedupRuns -----

  /** Length of the run of equal runes a non-empty text starts with. */
  function RunLength(s: string): (n: nat)
    requires s != []
    ensures 1 <= n <= |s|
    ensures forall k | 0 <= k < n :: s[k] == s[0]
    ensures n < |s| ==> s[n] != s[0]
  {
    if |s| == 1 || s[1] != s[0] then 1 else 1 + RunLength(s[1..])
  }

  /** Every run collapses to one rune, except a run of exactly two allow-listed ones. */
  function CollapseRuns(legal: Legal, s: string): (r: string)
  {
    if s == [] then []
    else
      var n := RunLength(s);
      s[..if n == 2 && legal(s[0]) then 2 else 1] + CollapseRuns(legal, s[n..])
  }

  /** The inner loop: one past the run that starts at `i`. */
  method RunEnd(s: string, i: nat) returns (j: nat)
    requires i < |s|
    ensures i < j <= |s|
    ensures forall k | i <= k < j :: s[k] == s[i]
    ensures j < |s| ==> s[j] != s[i]
  {
    j := i;
    while j < |s| && s[j] == s[i]
      invariant i <= j <= |s|
      invariant forall k | i <= k < j :: s[k] == s[i]
      decreases |s| - j
    {
      j := j + 1;
    }
  }

  method DedupRuns(legal: Legal, s: string) returns (out: string)
    ensures out == CollapseRuns(legal, s)
  {
    out := [];
    var i := 0;
    ghost var goal := CollapseRuns(legal, s);
    CollapseStart(legal, s);
    while i < |s|
      invariant 0 <= i <= |s|
      invariant CollapsedSoFar(legal, s, i, out, goal)
    {
      var j := RunEnd(s, i);
      var keep := if j - i == 2 && legal(s[i]) then 2 else 1;
      CollapseRound(legal, s, i, j, out, goal);
      out := out + s[i..i + keep];
      i := j;
    }
    CollapseEnd(legal, s, out, goal);
  }

  /** `out` and the collapsed rest make the goal. */
  ghost predicate CollapsedSoFar(legal: Legal, s: string, i: nat, out: string, goal: string)
    requires i <= |s|
  {
    out + CollapseRuns(legal, s[i..]) == goal
  }

  lemma CollapseStart(legal: Legal, s: string)
    ensures CollapsedSoFar(legal, s, 0, [], CollapseRuns(legal, s))
  {
    assert s[0..] == s;
  }

  lemma CollapseEnd(legal: Legal, s: string, out: string, goal: string)
    requires CollapsedSoFar(legal, s, |s|, out, goal)
    ensures out == goal
  {
    assert s[|s|..] == [];
  }

  lemma CollapseRound(legal: Legal, s: string, i: nat, j: nat, out: string, goal: string)
    requires i < j <= |s|
    requires forall k | i <= k < j :: s[k] == s[i]
    requires j < |s| ==> s[j] != s[i]
    requires CollapsedSoFar(legal, s, i, out, goal)
    ensures CollapsedSoFar(legal, s, j, out + s[i..i + if j - i == 2 && legal(s[i]) then 2 else 1], goal)
  {
    var run := s[i..i + if j - i == 2 && legal(s[i]) then 2 else 1];
    CollapseStep(legal, s, i, j);
    Associative(out, run, CollapseRuns(legal, s[j..]));
  }

  lemma Associative<T>(a: seq<T>, b: seq<T>, c: seq<T>)
    ensures a + (b + c) == (a + b) + c
  {
  }

  lemma CollapseStep(legal: Legal, s: string, i: nat, j: nat)
    requires i < j <= |s|
    requires forall k | i <= k < j :: s[k] == s[i]
    requires j < |s| ==> s[j] != s[i]
    ensures CollapseRuns(legal, s[i..]) ==
            s[i..i + if j - i == 2 && legal(s[i]) then 2 else 1] + CollapseRuns(legal, s[j..])
  {
    var rest, n := s[i..], j - i;
    forall k | 0 <= k < n ensures rest[k] == rest[0] {
      assert rest[k] == s[i + k];
    }
    RunLengthIs(rest, n);
    CollapseFirst(legal, rest, n);
    var keep := if n == 2 && legal(s[i]) then 2 else 1;
    assert rest[n..] == s[j..];
    assert rest[..keep] == s[i..i + keep];
  }

  lemma CollapseFirst(legal: Legal, s: string, n: nat)
    requires s != [] && n == RunLength(s)
    ensures CollapseRuns(legal, s) == s[..if n == 2 && legal(s[0]) then 2 else 1] + CollapseRuns(legal, s[n..])
  {
  }

  lemma {:induction false} RunLengthIs(s: string, n: nat)
    requires s != [] && 1 <= n <= |s|
    requires forall k | 0 <= k < n :: s[k] == s[0]
    requires n < |s| ==> s[n] != s[0]
    ensures RunLength(s) == n
    decreases n
  {
    if n > 1 {
      RunLengthIs(s[1..], n - 1);
    }
  }

  lemma {:induction false} CollapseDeletes(legal: Legal, s: string)
    ensures Subseq(CollapseRuns(legal, s), s)
    decreases |s|
  {
    if s == [] {
      Reflexive(s);
    } else {
      var n := RunLength(s);
      var keep := if n == 2 && legal(s[0]) then 2 else 1;
      CollapseDeletes(legal, s[n..]);
      Slice(s[..n], 0, keep);
      assert s[..n][0..keep] == s[..keep];
      Concat(s[..keep], s[..n], CollapseRuns(legal, s[n..]), s[n..]);
      assert s[..n] + s[n..] == s;
    }
  }

  /** What is kept of the run of length `n` at the start. */
  function KeptOfRun(legal: Legal, s: string, n: nat): string
    requires 1 <= n <= |s|
  {
    if n == 2 && legal(s[0]) then s[..2] else s[..1]
  }

  lemma RunAhead(a: string, b: string)
    requires a != [] && (b != [] ==> a[|a| - 1] != b[0])
    ensures RunLength(a + b) == RunLength(a)
  {
    var s, n := a + b, RunLength(a);
    assert forall k | 0 <= k < |a| :: s[k] == a[k];
    if n == |a| && b != [] {
      assert s[n] == b[0] && a[n - 1] == a[0];
    }
    RunLengthIs(s, n);
  }

  lemma DropAhead<T>(a: seq<T>, b: seq<T>, n: nat)
    requires n <= |a|
    ensures (a + b)[n..] == a[n..] + b
  {
  }

  lemma CollapseAhead(legal: Legal, a: string, b: string)
    requires a != [] && (b != [] ==> a[|a| - 1] != b[0])
    ensures CollapseRuns(legal, a + b) ==
            KeptOfRun(legal, a, RunLength(a)) + CollapseRuns(legal, a[RunLength(a)..] + b)
  {
    RunAhead(a, b);
    DropAhead(a, b, RunLength(a));
    CollapseFirst(legal, a + b, RunLength(a));
  }

  /** Texts that meet in different runes are collapsed each for itself. */
  lemma {:induction false} CollapseAppend(legal: Legal, a: string, b: string)
    requires a != [] && b != [] ==> a[|a| - 1] != b[0]
    ensures CollapseRuns(legal, a + b) == CollapseRuns(legal, a) + CollapseRuns(legal, b)
    decreases |a|
  {
    if a == [] {
      assert a + b == b;
    } else {
      var rest := a[RunLength(a)..];
      CollapseAhead(legal, a, b);
      CollapseAppend(legal, rest, b);
      CollapseAhead(legal, a, []);
      assert a + [] == a && rest + [] == rest;
      Associative(KeptOfRun(legal, a, RunLength(a)), CollapseRuns(legal, rest), CollapseRuns(legal, b));
    }
  }

  lemma CollapseOfRun(legal: Legal, run: string)
    requires run != [] && forall k | 0 <= k < |run| :: run[k] == run[0]
    ensures CollapseRuns(legal, run) == if |run| == 2 && legal(run[0]) then run else [run[0]]
  {
    RunLengthIs(run, |run|);
    CollapseFirst(legal, run, |run|);
    assert run[|run|..] == [] && run[..1] == [run[0]];
  }

  /** Of a run of equal runes one is kept, and two exactly of an allow-listed pair. */
  lemma RunCollapses(legal: Legal, a: string, run: string, b: string)
    requires run != [] && forall k | 0 <= k < |run| :: run[k] == run[0]
    requires (a != [] ==> a[|a| - 1] != run[0]) && (b != [] ==> b[0] != run[0])
    ensures CollapseRuns(legal, a + run + b) ==
            CollapseRuns(legal, a) + (if |run| == 2 && legal(run[0]) then run else [run[0]]) + CollapseRuns(legal, b)
  {
    CollapseAppend(legal, a + run, b);
    CollapseAppend(legal, a, run);
    CollapseOfRun(legal, run);
  }

  /** Equal neighbours are allow-listed pairs, and no rune occurs three times in a row. */
  predicate RunsOk(legal: Legal, s: string) {
    && (forall i | 0 <= i < |s| - 1 :: s[i] == s[i + 1] ==> legal(s[i]))
    && (forall i | 0 <= i < |s| - 2 :: TripleOk(s[i], s[i + 1], s[i + 2]))
  }

  /** A text has admissible runs if its first run is and the rest has. */
  lemma FirstRunOk(legal: Legal, s: string)
    requires s != []
    ensures RunsOk(legal, s) <==>
            (RunLength(s) == 1 || (RunLength(s) == 2 && legal(s[0]))) && RunsOk(legal, s[RunLength(s)..])
  {
    var n := RunLength(s);
    var rest := s[n..];
    if RunsOk(legal, s) {
      assert n >= 2 ==> s[0] == s[1];
      assert n < 3;
      RunsOkSuffix(legal, s, n);
    } else if RunsOk(legal, rest) && (n == 1 || (n == 2 && legal(s[0]))) {
      RunsOkPrepend(legal, s, n);
    }
  }

  lemma RunsOkSuffix(legal: Legal, s: string, n: nat)
    requires RunsOk(legal, s) && n <= |s|
    ensures RunsOk(legal, s[n..])
  {
    var rest := s[n..];
    forall i | 0 <= i < |rest| - 1 ensures rest[i] == rest[i + 1] ==> legal(rest[i]) {
      assert rest[i] == s[n + i] && rest[i + 1] == s[n + i + 1];
    }
    forall i | 0 <= i < |rest| - 2 ensures TripleOk(rest[i], rest[i + 1], rest[i + 2]) {
      assert TripleOk(s[n + i], s[n + i + 1], s[n + i + 2]);
    }
  }

  lemma RunsOkPrepend(legal: Legal, s: string, n: nat)
    requires 1 <= n <= 2 && n <= |s| && (n == 2 ==> s[1] == s[0] && legal(s[0])) && (n < |s| ==> s[n] != s[0])
    requires RunsOk(legal, s[n..])
    ensures RunsOk(legal, s)
  {
    var rest := s[n..];
    forall i | 0 <= i < |s| - 1 ensures s[i] == s[i + 1] ==> legal(s[i]) {
      if i >= n {
        assert rest[i - n] == s[i] && rest[i - n + 1] == s[i + 1];
      }
    }
    forall i | 0 <= i < |s| - 2 ensures TripleOk(s[i], s[i + 1], s[i + 2]) {
      if i >= n {
        assert TripleOk(rest[i - n], rest[i - n + 1], rest[i - n + 2]);
      }
    }
  }

  lemma {:induction false} CollapseShrinks(legal: Legal, s: string)
    ensures |CollapseRuns(legal, s)| <= |s|
    decreases |s|
  {
    if s != [] {
      CollapseShrinks(legal, s[RunLength(s)..]);
    }
  }

  /** Of whatever script, a text comes back unchanged exactly if its runs are admissible:
      every other doubled or longer run loses runes. */
  lemma {:induction false} CollapseKeepsExactly(legal: Legal, s: string)
    ensures CollapseRuns(legal, s) == s <==> RunsOk(legal, s)
    decreases |s|
  {
    if s != [] {
      var n := RunLength(s);
      var rest := s[n..];
      FirstRunOk(legal, s);
      CollapseKeepsExactly(legal, rest);
      CollapseShrinks(legal, rest);
      if n == 1 || (n == 2 && legal(s[0])) {
        assert s == s[..n] + rest;
        assert CollapseRuns(legal, s)[n..] == CollapseRuns(legal, rest);
      } else {
        assert |CollapseRuns(legal, s)| <= 1 + |rest| < |s|;
      }
    }
  }

  /** The rule is not confined to Chinese characters: a number loses a digit. */
  lemma DigitsCollapse(legal: Legal)
    requires !legal('0')
    ensures CollapseRuns(legal, "100") == "10"
  {
    var s := "100";
    assert RunLength(s) == 1 && s[1..] == "00";
    RunLengthIs("00", 2);
    assert CollapseRuns(legal, "00") == "0" + CollapseRuns(legal, "00"[2..]);
  }

  /** What separates marks stays separated, and only allow-listed pairs survive. */
  lemma {:induction false} CollapseCleans(legal: Legal, s: string)
    requires LegalLetters(legal)
    requires forall k | 0 <= k < |s| - 1 :: !(IsPunct(s[k]) && IsPunct(s[k + 1]))
    ensures Clean(legal, CollapseRuns(legal, s))
    ensures s != [] ==> CollapseRuns(legal, s) != [] && CollapseRuns(legal, s)[0] == s[0]
    decreases |s|
  {
    if s != [] {
      var n := RunLength(s);
      var rest := s[n..];
      forall k | 0 <= k < |rest| - 1 ensures !(IsPunct(rest[k]) && IsPunct(rest[k + 1])) {
        assert rest[k] == s[n + k] && rest[k + 1] == s[n + k + 1];
      }
      CollapseCleans(legal, rest);
      if n < |s| {
        assert s[n] != s[0] && s[n - 1] == s[0];
        assert !(IsPunct(s[n - 1]) && IsPunct(s[n]));
      }
      PrependClean(legal, s[..if n == 2 && legal(s[0]) then 2 else 1], CollapseRuns(legal, rest));
    }
  }

  /** A kept run in front of a clean text that starts differently. */
  lemma PrependClean(legal: Legal, run: string, t: string)
    requires Clean(legal, t) && 1 <= |run| <= 2
    requires |run| == 2 ==> run[1] == run[0] && legal(run[0]) && !IsPunct(run[0])
    requires t != [] ==> t[0] != run[0] && !(IsPunct(run[0]) && IsPunct(t[0]))
    ensures Clean(legal, run + t)
  {
    var s := run + t;
    forall k | 0 <= k < |s| - 1 ensures PairOk(legal, s[k], s[k + 1]) {
      if k >= |run| {
        assert PairOk(legal, t[k - |run|], t[k - |run| + 1]);
      }
    }
    forall k | 0 <= k < |s| - 2 ensures TripleOk(s[k], s[k + 1], s[k + 2]) {
      if k >= |run| {
        assert TripleOk(t[k - |run|], t[k - |run| + 1], t[k - |run| + 2]);
      }
    }
  }
}
