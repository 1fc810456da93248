/** localPunctuate: commas before connectives and a closing question mark, for transcripts
    without punctuation (internal/server/stt_refine.go). */
module Punctuate {
  import opened Text
  import opened Dedup

  const CONNECTIVES := [
    "然后", "但是", "但是呢", "所以", "因为", "如果", "而且", "还有", "接着", "最后",
    "那么", "这样", "再说", "并且", "以及", "或者", "还是", "甚至", "其实", "不过",
    "于是", "总之", "首先", "其次", "另外", "再说呢", "随后", "结果", "反正"]

  const QUESTIONS := [
    "怎么办", "为什么", "怎么做", "怎么", "什么", "多少", "几点", "哪里",
    "哪个", "谁", "去哪儿", "去不去", "是不是", "行不行", "可不可以",
    "吗", "呢", "么", "吧"]

  predicate OccursAt(r: string, i: nat, word: string) {
    i + |word| <= |r| && r[i..i + |word|] == word
  }

  /** One of the words occurs at position `i`. */
  predicate StartsWord(words: seq<string>, r: string, i: nat) {
    exists k | 0 <= k < |words| :: OccursAt(r, i, words[k])
  }

  predicate HasSuffix(r: string, word: string) {
    |word| <= |r| && r[|r| - |word|..] == word
  }

  predicate EndsIn(words: seq<string>, r: string) {
    exists k | 0 <= k < |words| :: HasSuffix(r, words[k])
  }

  predicate HasPunct(s: string) {
    exists k | 0 <= k < |s| :: IsPunct(s[k])
  }

  /** A comma belongs before position `i`. */
  predicate CommaBefore(units: seq<string>, r: string, i: nat) {
    0 < i < |r| && !IsPunct(r[i - 1]) && !IsDigit(r[i - 1]) && StartsWord(units, r, i)
  }

  /** The first `n` runes with their commas. */
  function WithCommas(units: seq<string>, r: string, n: nat): string
    requires n <= |r|
  {
    if n == 0 then []
    else WithCommas(units, r, n - 1) + (if CommaBefore(units, r, n - 1) then ['，'] else []) + [r[n - 1]]
  }

  function Punctuated(units: seq<string>, questions: seq<string>, s: string): string {
    var t := TrimSpace(s);
    if t == "" || HasPunct(t) then t
    else
      var out := WithCommas(units, t, |t|);
      if out != [] && IsPunct(out[|out| - 1]) then TrimSpace(out)
      else if EndsIn(questions, out) then TrimSpace(out + ['？'])
      else TrimSpace(out)
  }

  method MatchWord(words: seq<string>, r: string, i: nat) returns (matched: bool)
    requires i <= |r|
    ensures matched == StartsWord(words, r, i)
  {
    var k := 0;
    while k < |words|
      invariant 0 <= k <= |words|
      invariant forall j | 0 <= j < k :: !OccursAt(r, i, words[j])
    {
      if i + |words[k]| <= |r| && r[i..i + |words[k]|] == words[k] {
        assert OccursAt(r, i, words[k]);
        return true;
      }
      k := k + 1;
    }
    return false;
  }

  method MatchTail(words: seq<string>, r: string) returns (matched: bool)
    ensures matched == EndsIn(words, r)
  {
    var k := 0;
    while k < |words|
      invariant 0 <= k <= |words|
      invariant forall j | 0 <= j < k :: !HasSuffix(r, words[j])
    {
      if |r| >= |words[k]| && r[|r| - |words[k]|..] == words[k] {
        assert HasSuffix(r, words[k]);
        return true;
      }
      k := k + 1;
    }
    return false;
  }

  method InsertCommas(units: seq<string>, r: string) returns (out: string)
    ensures out == WithCommas(units, r, |r|)
  {
    out := [];
    var i := 0;
    while i < |r|
      invariant 0 <= i <= |r|
      invariant out == WithCommas(units, r, i)
    {
      if i > 0 && !IsPunct(r[i - 1]) && !IsDigit(r[i - 1]) {
        var matched := MatchWord(units, r, i);
        if matched {
          out := out + ['，'];
        }
      }
      out := out + [r[i]];
      i := i + 1;
    }
  }

  /** The algorithm for any two word lists. */
  method PunctuateWith(units: seq<string>, questions: seq<string>, s: string) returns (out: string)
    ensures out == Punctuated(units, questions, s)
  {
    var t := TrimSpace(s);
    if t == "" || HasPunct(t) {
      return t;
    }
    var r := InsertCommas(units, t);
    if r != [] && IsPunct(r[|r| - 1]) {
      return TrimSpace(r);
    }
    var question := MatchTail(questions, r);
    if question {
      return TrimSpace(r + ['？']);
    }
    return TrimSpace(r);
  }

  method LocalPunctuate(s: string) returns (out: string)
    ensures out == Punctuated(CONNECTIVES, QUESTIONS, s)
  {
    out := PunctuateWith(CONNECTIVES, QUESTIONS, s);
  }

  /** One of the words stands at position `i` of the text. */
  ghost predicate ConnectiveAt(words: seq<string>, r: string, i: int) {
    exists u | u in words :: 0 <= i && i + |u| <= |r| && r[i..i + |u|] == u
  }

  lemma ConnectiveStarts(words: seq<string>, r: string, i: nat)
    ensures StartsWord(words, r, i) <==> ConnectiveAt(words, r, i)
  {
    if StartsWord(words, r, i) {
      var k :| 0 <= k < |words| && OccursAt(r, i, words[k]);
      assert words[k] in words;
    }
  }

  /** A comma is due before position `i`: a connective stands there, inside the text and not
      after a digit. */
  ghost predicate CommaDue(units: seq<string>, r: string, i: int) {
    0 < i < |r| && !('0' <= r[i - 1] <= '9') && ConnectiveAt(units, r, i)
  }

  lemma CommaBeforeIsDue(units: seq<string>, r: string, i: nat)
    requires !HasPunct(r)
    ensures CommaBefore(units, r, i) <==> CommaDue(units, r, i)
  {
    ConnectiveStarts(units, r, i);
  }

  /** The text ends in one of the words. */
  ghost predicate EndsInOne(words: seq<string>, r: string) {
    exists x, u :: u in words && r == x + u
  }

  lemma EndsInIs(words: seq<string>, r: string)
    ensures EndsIn(words, r) <==> EndsInOne(words, r)
  {
    if EndsIn(words, r) {
      var k :| 0 <= k < |words| && HasSuffix(r, words[k]);
      assert r == r[..|r| - |words[k]|] + words[k] && words[k] in words;
    }
  }

  // ----- only insertions -----

  lemma {:induction false} LettersAppend(a: string, b: string)
    ensures Letters(a + b) == Letters(a) + Letters(b)
    decreases |b|
  {
    if b == [] {
      assert a + b == a;
    } else {
      assert (a + b)[..|a + b| - 1] == a + b[..|b| - 1];
      LettersAppend(a, b[..|b| - 1]);
    }
  }

  lemma {:induction false} NoPunctIsLetters(s: string)
    requires !HasPunct(s)
    ensures Letters(s) == s
  {
    if s != [] {
      var front := s[..|s| - 1];
      assert !HasPunct(front) by {
        assert forall k | 0 <= k < |front| :: front[k] == s[k];
      }
      NoPunctIsLetters(front);
    }
  }

  lemma LettersStep(before: string, comma: string, c: char)
    requires comma == [] || comma == ['，']
    requires !IsPunct(c)
    ensures Letters(before + comma + [c]) == Letters(before) + [c]
  {
    LettersAppend(before + comma, [c]);
    LettersAppend(before, comma);
    assert Letters(comma) == [] && Letters([c]) == [c];
  }

  /** One more rune, with its comma if it gets one. */
  lemma OneRune(units: seq<string>, r: string, n: nat) returns (comma: string)
    requires 0 < n <= |r|
    ensures comma == if CommaBefore(units, r, n - 1) then ['，'] else []
    ensures WithCommas(units, r, n) == WithCommas(units, r, n - 1) + comma + [r[n - 1]]
  {
    comma := if CommaBefore(units, r, n - 1) then ['，'] else [];
  }

  /** Erasing the commas gives back the text; its first and last rune stay at the ends. */
  lemma {:induction false} CommasOnlyInserted(units: seq<string>, r: string, n: nat)
    requires n <= |r| && !HasPunct(r)
    ensures Letters(WithCommas(units, r, n)) == r[..n]
    ensures n > 0 ==> WithCommas(units, r, n) != [] && WithCommas(units, r, n)[0] == r[0]
    ensures n > 0 ==> WithCommas(units, r, n)[|WithCommas(units, r, n)| - 1] == r[n - 1]
  {
    if n > 0 {
      CommasOnlyInserted(units, r, n - 1);
      var comma := OneRune(units, r, n);
      assert n == 1 ==> comma == [] && WithCommas(units, r, 0) == [];
      LettersStep(WithCommas(units, r, n - 1), comma, r[n - 1]);
      assert r[..n] == r[..n - 1] + [r[n - 1]];
    }
  }

  /** The three outcomes for a text without punctuation. */
  lemma PunctuatedForm(units: seq<string>, questions: seq<string>, s: string)
    requires TrimSpace(s) != "" && !HasPunct(TrimSpace(s))
    ensures var t := TrimSpace(s); var out := WithCommas(units, t, |t|);
            Punctuated(units, questions, s) == if EndsIn(questions, out) then out + ['？'] else out
    ensures Trimmed(Punctuated(units, questions, s))
  {
    var t := TrimSpace(s);
    CommasOnlyInserted(units, t, |t|);
    assert !IsPunct(t[|t| - 1]);
  }

  /** A blank text or one with punctuation comes back trimmed; any other gets a question mark
      at its end exactly if it ends in a question word. */
  lemma QuestionExactly(units: seq<string>, questions: seq<string>, s: string)
    ensures var t := TrimSpace(s);
            Punctuated(units, questions, s) ==
            if t == "" || (exists k | 0 <= k < |t| :: t[k] in {'，', '。', '！', '？', '、', '；', '：'}) then t
            else var out := WithCommas(units, t, |t|); if EndsInOne(questions, out) then out + ['？'] else out
  {
    var t := TrimSpace(s);
    assert HasPunct(t) <==> exists k | 0 <= k < |t| :: t[k] in {'，', '。', '！', '？', '、', '；', '：'};
    if t != "" && !HasPunct(t) {
      PunctuatedForm(units, questions, s);
      EndsInIs(questions, WithCommas(units, t, |t|));
    }
  }

  /** For every text, erasing punctuation from the result and from the trimmed input gives
      the same: nothing else is inserted, nothing is removed, nothing moves. */
  lemma OnlyPunctuationInserted(units: seq<string>, questions: seq<string>, s: string)
    ensures Letters(Punctuated(units, questions, s)) == Letters(TrimSpace(s))
  {
    var t := TrimSpace(s);
    if t != "" && !HasPunct(t) {
      PunctuatedForm(units, questions, s);
      CommasOnlyInserted(units, t, |t|);
      NoPunctIsLetters(t);
      var out := WithCommas(units, t, |t|);
      LettersAppend(out, ['？']);
      assert t[..|t|] == t;
    }
  }

  /** A second application changes nothing. */
  lemma Idempotent(units: seq<string>, questions: seq<string>, s: string)
    ensures Punctuated(units, questions, Punctuated(units, questions, s)) == Punctuated(units, questions, s)
  {
    var t, p := TrimSpace(s), Punctuated(units, questions, s);
    if t != "" && !HasPunct(t) {
      PunctuatedForm(units, questions, s);
      CommasOnlyInserted(units, t, |t|);
      assert TrimSpace(p) == p;
      if !HasPunct(p) {
        NoPunctIsLetters(p);
        OnlyPunctuationInserted(units, questions, s);
        NoPunctIsLetters(t);
        assert p == t;
      }
    }
  }

  /** How many runes of the text come before position `k` of the result. */
  function Before(out: string, k: nat): nat
    requires k <= |out|
  {
    |Letters(out[..k])|
  }

  lemma {:induction false} CommasInserted(units: seq<string>, r: string, n: nat, k: nat)
    requires n <= |r| && !HasPunct(r) && k < |WithCommas(units, r, n)| && WithCommas(units, r, n)[k] == '，'
    ensures var out := WithCommas(units, r, n); var i := Before(out, k);
            && 0 < i < n && CommaBefore(units, r, i)
            && 0 < k && out[k - 1] == r[i - 1] && k + 1 < |out| && out[k + 1] == r[i]
    decreases n
  {
    var before, out := WithCommas(units, r, n - 1), WithCommas(units, r, n);
    CommasOnlyInserted(units, r, n - 1);
    if k < |before| {
      CommasInserted(units, r, n - 1, k);
      assert out[..k] == before[..k];
    } else {
      assert r[n - 1] != '，';
      assert k == |before| && CommaBefore(units, r, n - 1);
      assert out[..k] == before;
      assert |Letters(before)| == n - 1;
    }
  }

  /** Every comma sits right before a connective of the text, inside it, and not after a digit. */
  lemma CommasBeforeConnectives(units: seq<string>, r: string, n: nat, k: nat)
    requires n <= |r| && !HasPunct(r) && k < |WithCommas(units, r, n)| && WithCommas(units, r, n)[k] == '，'
    ensures var out := WithCommas(units, r, n); var i := Before(out, k);
            && 0 < i < n && CommaDue(units, r, i)
            && 0 < k && out[k - 1] == r[i - 1] && k + 1 < |out| && out[k + 1] == r[i]
  {
    CommasInserted(units, r, n, k);
    CommaBeforeIsDue(units, r, Before(WithCommas(units, r, n), k));
  }

  /** Some comma of the output stands before rune `i` of the text. */
  ghost predicate HasCommaAt(out: string, i: nat) {
    exists k :: 0 <= k < |out| && out[k] == '，' && Before(out, k) == i
  }

  lemma CommaStays(before: string, more: string, i: nat)
    requires HasCommaAt(before, i)
    ensures HasCommaAt(before + more, i)
  {
    var k :| 0 <= k < |before| && before[k] == '，' && Before(before, k) == i;
    var out := before + more;
    assert out[..k] == before[..k] && out[k] == '，' && Before(out, k) == i;
  }

  lemma CommaNow(before: string, rest: string)
    ensures HasCommaAt(before + ['，'] + rest, |Letters(before)|)
  {
    var out := before + ['，'] + rest;
    assert out[..|before|] == before && out[|before|] == '，' && Before(out, |before|) == |Letters(before)|;
  }

  /** And every such place has its comma. */
  lemma {:induction false} ConnectivesHaveCommas(units: seq<string>, r: string, n: nat, i: nat)
    requires n <= |r| && !HasPunct(r) && i < n && CommaDue(units, r, i)
    ensures HasCommaAt(WithCommas(units, r, n), i)
    decreases n
  {
    var before := WithCommas(units, r, n - 1);
    var comma := OneRune(units, r, n);
    CommasOnlyInserted(units, r, n - 1);
    if i == n - 1 {
      CommaBeforeIsDue(units, r, i);
      CommaNow(before, [r[n - 1]]);
    } else {
      ConnectivesHaveCommas(units, r, n - 1, i);
      CommaStays(before, comma + [r[n - 1]], i);
      assert before + comma + [r[n - 1]] == before + (comma + [r[n - 1]]);
    }
  }
}
