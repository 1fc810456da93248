/** The transcript pipeline as a whole (internal/server/stt_refine.go). */
module Transcript {
  import opened Text
  import opened Subsequence
  import opened Dedup
  import opened Squares
  import opened Words

  /** The characters of legalRedup, each once. */
  predicate IsLegalRedup(c: char) {
    || c == '看' || c == '吧' || c == '说' || c == '见' || c == '面' || c == '想' || c == '问' || c == '听'
    || c == '读' || c == '写' || c == '练' || c == '试' || c == '找' || c == '走' || c == '玩' || c == '尝'
    || c == '拍' || c == '坐' || c == '聊' || c == '慢' || c == '渐' || c == '往' || c == '常' || c == '刚'
    || c == '天' || c == '日' || c == '年' || c == '月' || c == '夜' || c == '时' || c == '刻' || c == '每'
    || c == '隐' || c == '微' || c == '轻' || c == '紧' || c == '偷' || c == '悄' || c == '默' || c == '匆'
    || c == '忙' || c == '家' || c == '户' || c == '人' || c == '条' || c == '件' || c == '种' || c == '样'
    || c == '星' || c == '点' || c == '滴' || c == '谢' || c == '太' || c == '娃' || c == '宝' || c == '一'
    || c == '爸' || c == '妈' || c == '哥' || c == '姐' || c == '弟' || c == '妹' || c == '爷' || c == '奶'
    || c == '叔' || c == '姑' || c == '舅' || c == '姥' || c == '哈' || c == '呵' || c == '嘿' || c == '嘻'
    || c == '哼' || c == '汪' || c == '喵' || c == '呱'
  }

  lemma LegalRedupAreLetters()
    ensures LegalLetters(IsLegalRedup)
  {
  }

  /** The text that reaches dedupAdjacentRepeat. */
  function Prepared(legal: Legal, s: string): string {
    CollapseRuns(legal, Unpunct(UniqueWords(s)))
  }

  ghost function Refined(legal: Legal, s: string): string {
    TrimTail(Reduce(Scanned(Prepared(legal, s))))
  }

  /** The five stages, for any allow-list. */
  method DedupWith(legal: Legal, s: string) returns (out: string)
    ensures out == Refined(legal, s)
  {
    var words := DedupWords(s);
    var marks := DedupPunct(words);
    var runs := DedupRuns(legal, marks);
    var blocks := DedupAdjacentRepeat(runs);
    out := TrimTailRepeat(blocks);
  }

  method DedupTranscript(s: string) returns (out: string)
    ensures out == Refined(IsLegalRedup, s)
    ensures out == TrimTail(Reduce(Scanned(CollapseRuns(IsLegalRedup, Unpunct(UniqueWords(s))))))
  {
    out := DedupWith(IsLegalRedup, s);
  }

  // ----- every text -----

  /** No block of two or more runes occurs twice in a row in the result, directly or across
      one space. */
  lemma RefinedIsSquareFree(legal: Legal, s: string)
    ensures SquareFree(Refined(legal, s))
    ensures forall x, w, y | |w| >= 2 :: Refined(legal, s) != x + w + w + y && Refined(legal, s) != x + w + " " + w + y
  {
    var blocks := Reduce(Scanned(Prepared(legal, s)));
    ReduceIsSquareFree(Scanned(Prepared(legal, s)));
    TrimTailIsSlice(blocks);
    SliceOfSquareFree(TrimTail(blocks), blocks);
    ReadsNothingTwice(Refined(legal, s));
  }

  lemma ReadsNothingTwice(t: string)
    requires SquareFree(t)
    ensures forall x, w, y | |w| >= 2 :: t != x + w + w + y && t != x + w + " " + w + y
  {
    forall x, w, y | |w| >= 2 ensures t != x + w + w + y && t != x + w + " " + w + y {
      TwiceRepeats(x, w, y);
      assert !Repeats(t, |x|, |w|);
    }
  }

  lemma ScannedDeletes(s: string)
    ensures Subseq(Scanned(s), s)
  {
    var a, b := TrimIsSlice(s);
    Slice(s, a, b);
    var t := TrimSpace(s);
    if |t| > SCAN_RUNES {
      Slice(t, 0, SCAN_RUNES);
      assert t[0..SCAN_RUNES] == t[..SCAN_RUNES];
      Transitive(Scanned(s), t, s);
    }
  }

  lemma PreparedDeletes(legal: Legal, s: string)
    ensures Subseq(Prepared(legal, s), s)
  {
    UniqueWordsDeletes(s);
    UnpunctDeletes(UniqueWords(s));
    Transitive(Unpunct(UniqueWords(s)), UniqueWords(s), s);
    CollapseDeletes(legal, Unpunct(UniqueWords(s)));
    Transitive(Prepared(legal, s), Unpunct(UniqueWords(s)), s);
  }

  lemma SliceDeletes(x: string, s: string)
    requires IsSlice(x, s)
    ensures Subseq(x, s)
  {
    var a, b :| 0 <= a <= b <= |s| && x == s[a..b];
    Slice(s, a, b);
  }

  lemma SliceStaysClean(legal: Legal, x: string, s: string)
    requires IsSlice(x, s) && Clean(legal, s)
    ensures Clean(legal, x)
  {
    var a, b :| 0 <= a <= b <= |s| && x == s[a..b];
    SliceClean(legal, s, a, b);
  }

  /** The pipeline only deletes runes. */
  lemma RefinedDeletes(legal: Legal, s: string)
    ensures Subseq(Refined(legal, s), s)
  {
    var p := Prepared(legal, s);
    var blocks := Reduce(Scanned(p));
    PreparedDeletes(legal, s);
    ScannedDeletes(p);
    Transitive(Scanned(p), p, s);
    ReduceDeletes(Scanned(p));
    Transitive(blocks, Scanned(p), s);
    ReduceIsSquareFree(Scanned(p));
    TrimTailIsSlice(blocks);
    SliceDeletes(TrimTail(blocks), blocks);
    Transitive(Refined(legal, s), blocks, s);
  }

  /** Inside the pipeline trimTailRepeat removes at most a doubled last word: its loop over
      phrase lengths never finds one. */
  lemma TailPhraseNeverFires(legal: Legal, s: string, k: nat)
    requires k >= 2
    ensures var t := TrimSpace(Reduce(Scanned(Prepared(legal, s))));
            !TailTwice(t, k) && Refined(legal, s) == if |t| >= 2 && LastWordTwice(t) then DropLastWord(t) else t
  {
    var blocks := Reduce(Scanned(Prepared(legal, s)));
    ReduceIsSquareFree(Scanned(Prepared(legal, s)));
    var a, b := TrimIsSlice(blocks);
    SliceSquareFree(blocks, a, b);
    PhraseLoopIsDead(TrimSpace(blocks), k);
    PhraseLoopIsDead(TrimSpace(blocks), 2);
  }

  // ----- texts longer than the scan -----

  /** A text comes back whole exactly if it has no repeated block and at most 2000 runes. */
  lemma DedupKeepsExactly(s: string)
    ensures Reduce(Scanned(s)) == TrimSpace(s) <==> SquareFree(TrimSpace(s)) && |TrimSpace(s)| <= SCAN_RUNES
  {
    ReduceShrinks(Scanned(s));
    ReduceIsSquareFree(Scanned(s));
    if SquareFree(TrimSpace(s)) && |TrimSpace(s)| <= SCAN_RUNES {
      ReduceDone(TrimSpace(s));
    }
  }

  lemma SliceShrinks(x: string, s: string)
    requires IsSlice(x, s)
    ensures |x| <= |s|
  {
  }

  /** No transcript is longer than 2000 runes afterwards. */
  lemma RefinedIsShort(legal: Legal, s: string)
    ensures |Refined(legal, s)| <= SCAN_RUNES
  {
    var blocks := Reduce(Scanned(Prepared(legal, s)));
    ReduceShrinks(Scanned(Prepared(legal, s)));
    ReduceIsSquareFree(Scanned(Prepared(legal, s)));
    TrimTailIsSlice(blocks);
    SliceShrinks(TrimTail(blocks), blocks);
  }

  lemma {:induction false} ReduceShrinks(r: string)
    ensures |Reduce(r)| <= |r|
    decreases |r|
  {
    BestExists(r);
    if BestLength(r) > 0 {
      ReduceRound(r, BestStart(r), BestLength(r));
      ReduceShrinks(TrimSpace(Cut(r, BestStart(r), BestLength(r))));
    }
  }

  // ----- text without white space -----

  lemma SubseqNoSpace(t: string, s: string)
    requires Subseq(t, s) && NoSpace(s)
    ensures NoSpace(t)
  {
    var f :| Embeds(t, s, f);
  }

  lemma {:induction false} TokensNoSpace(s: string)
    requires NoSpace(s)
    ensures forall i | 0 <= i < |Tokens(s)| :: NoSpace(Tokens(s)[i])
  {
    if s != [] {
      TokensNoSpace(s[1..]);
    }
  }

  lemma WordsUntouched(s: string)
    requires NoSpace(s)
    ensures UniqueWords(s) == s
  {
    TokensNoSpace(s);
    TokensTokenize(s);
    var ts := Tokens(s);
    forall i | 0 <= i < |ts| ensures !IsGap(ts[i]) {
      assert IsToken(ts[i]);
      assert !IsSpace(ts[i][0]);
    }
    UnchangedExactly(s);
  }

  lemma PreparedClean(legal: Legal, s: string)
    requires LegalLetters(legal) && NoSpace(s)
    ensures NoSpace(Prepared(legal, s)) && Clean(legal, Prepared(legal, s))
  {
    WordsUntouched(s);
    UnpunctSeparates(s);
    CollapseCleans(legal, Unpunct(s));
    PreparedDeletes(legal, s);
    SubseqNoSpace(Prepared(legal, s), s);
  }

  /** On text without white space the pipeline keeps what each earlier stage established:
      no two adjacent marks, no run of three, and pairs of allow-listed characters only. */
  lemma RefinedIsClean(legal: Legal, s: string)
    requires LegalLetters(legal) && NoSpace(s)
    ensures Clean(legal, Refined(legal, s))
  {
    PreparedClean(legal, s);
    var p := Prepared(legal, s);
    var q := Scanned(p);
    assert TrimSpace(p) == p && q == p[..|q|];
    SliceClean(legal, p, 0, |q|);
    assert p[0..|q|] == q;
    ReduceKeepsClean(legal, q);
    ReduceIsSquareFree(q);
    TrimTailIsSlice(Reduce(q));
    SliceStaysClean(legal, TrimTail(Reduce(q)), Reduce(q));
  }

  lemma TranscriptIsClean(s: string)
    requires NoSpace(s)
    ensures Clean(IsLegalRedup, Refined(IsLegalRedup, s))
  {
    LegalRedupAreLetters();
    RefinedIsClean(IsLegalRedup, s);
  }

  // ----- text with white space -----

  lemma SpaceLedIsBest(r: string, t: string)
    requires r == "我 我们 我们" && t == "我我们"
    ensures IsBest(r, 1, 3) && SpaceLed(r, 1, 3) && Cut(r, 1, 3) == t
  {
    assert r[1..4] == " 我们" && r[4..7] == " 我们";
    assert r[..1] == "我" && r[5..] == "我们";
    assert r[0..3][0] == '我' && r[3..6][0] == '们';
    forall j: nat, m: nat | Repeats(r, j, m) ensures m < 3 || (m == 3 && 1 <= j) {
    }
  }

  lemma OneRound(r: string, i: nat, l: nat, t: string)
    requires IsBest(r, i, l) && Cut(r, i, l) == t && Trimmed(t) && SquareFree(t)
    ensures Reduce(r) == t
  {
    ReduceRound(r, i, l);
    ReduceDone(t);
  }

  lemma MergedText(r: string, t: string)
    requires r == "我 我们 我们" && t == "我我们"
    ensures Reduce(Scanned(r)) == t
  {
    SpaceLedIsBest(r, t);
    assert |t| == 3 && Trimmed(t) && SquareFree(t);
    OneRound(r, 1, 3, t);
    assert |r| == 7 && Trimmed(r) && TrimSpace(r) == r;
  }

  lemma MergingInputIsClean(legal: Legal, r: string)
    requires r == "我 我们 我们"
    ensures Clean(legal, r) && RunsOk(legal, r)
    ensures forall c | c in r :: !IsLetter(c) && !IsPunct(c)
  {
    assert r[0] == '我' && r[1] == ' ' && r[2] == '我' && r[3] == '们';
    assert r[4] == ' ' && r[5] == '我' && r[6] == '们';
  }

  lemma {:induction false} TokensNoLetter(s: string)
    requires forall c | c in s :: !IsLetter(c)
    ensures forall i | 0 <= i < |Tokens(s)| :: Tokens(s)[i] != [] && !IsLetter(Tokens(s)[i][0])
  {
    if s != [] {
      TokensNoLetter(s[1..]);
    }
  }

  /** A text without ASCII letters and marks reaches the collapsing of runs as it is. */
  lemma EarlyStagesIdle(s: string)
    requires forall c | c in s :: !IsLetter(c) && !IsPunct(c)
    ensures Unpunct(UniqueWords(s)) == s
  {
    TokensNoLetter(s);
    TokensTokenize(s);
    var tokens := Tokens(s);
    forall i | 0 <= i < |tokens| ensures !IsWord(tokens[i]) {
      assert !IsLetter(tokens[i][0]);
    }
    UnchangedExactly(s);
    UnpunctIdle(s);
  }

  lemma {:induction false} UnpunctIdle(s: string)
    requires forall c | c in s :: !IsPunct(c)
    ensures Unpunct(s) == s
  {
    if s != [] {
      UnpunctIdle(s[..|s| - 1]);
      assert s[..|s| - 1] + [s[|s| - 1]] == s;
    }
  }

  /** A text without white space is one word. */
  lemma {:induction false} SolidIsOneWord(t: string)
    requires NoSpace(t)
    ensures |WordsOf(t)| == if t == [] then 0 else 1
  {
    if t != [] {
      SolidIsOneWord(t[1..]);
    }
  }

  lemma TailIdle(t: string)
    requires SquareFree(t) && NoSpace(t)
    ensures TrimTail(t) == t
  {
    assert TrimSpace(t) == t;
    SolidIsOneWord(t);
    PhraseLoopIsDead(t, 2);
  }

  /** A text that only the removal of repeated blocks changes. */
  lemma OnlyBlocksGo(legal: Legal, r: string, t: string)
    requires forall c | c in r :: !IsLetter(c) && !IsPunct(c)
    requires RunsOk(legal, r) && Reduce(Scanned(r)) == t && NoSpace(t)
    ensures Refined(legal, r) == t
  {
    EarlyStagesIdle(r);
    CollapseKeepsExactly(legal, r);
    ReduceIsSquareFree(Scanned(r));
    TailIdle(t);
  }

  lemma MergedIsNotClean(legal: Legal, t: string)
    requires !legal('我') && t == "我我们"
    ensures NoSpace(t) && !Clean(legal, t)
  {
    assert !PairOk(legal, t[0], t[1]);
  }

  /** With spaces the property fails, for the whole pipeline: from a clean text, whose
      doubled word takes its leading space along, two equal characters get merged. */
  lemma SpacesCanMerge(legal: Legal, r: string, t: string)
    requires !legal('我') && r == "我 我们 我们" && t == "我我们"
    ensures Clean(legal, r) && Refined(legal, r) == t && !Clean(legal, t)
  {
    MergingInputIsClean(legal, r);
    MergedText(r, t);
    MergedIsNotClean(legal, t);
    OnlyBlocksGo(legal, r, t);
  }
}
