/** dedupWords: consecutive identical ASCII words collapse to one (internal/server/stt_refine.go). */
module Words {
  import opened Subsequence

  /** The three character classes of the tokenising regular expression. */
  datatype Kind = Letter | Blank | Other

  predicate IsLetter(c: char) {
    'a' <= c <= 'z' || 'A' <= c <= 'Z'
  }

  function KindOf(c: char): Kind {
    if IsLetter(c) then Letter
    else if c == ' ' || c == '\t' || c == '\n' || c == '\U{000C}' || c == '\r' then Blank
    else Other
  }

  /** The maximal runs of characters of one kind. */
  function Tokens(s: string): seq<string> {
    if s == [] then []
    else
      var rest := Tokens(s[1..]);
      if rest != [] && rest[0] != [] && KindOf(rest[0][0]) == KindOf(s[0])
      then [[s[0]] + rest[0]] + rest[1..]
      else [[s[0]]] + rest
  }

  function Flatten(tokens: seq<string>): string {
    if tokens == [] then [] else Flatten(tokens[..|tokens| - 1]) + tokens[|tokens| - 1]
  }

  /** A non-empty run of characters of one kind. */
  predicate IsToken(f: string) {
    f != [] && forall k | 0 <= k < |f| :: KindOf(f[k]) == KindOf(f[0])
  }

  /** Tokens of which no two neighbours are of the same kind. */
  ghost predicate Tokenized(tokens: seq<string>) {
    && (forall i | 0 <= i < |tokens| :: IsToken(tokens[i]))
    && (forall i, j | 0 <= i && j == i + 1 && j < |tokens| :: KindOf(tokens[i][0]) != KindOf(tokens[j][0]))
  }

  lemma {:induction false} FlattenFirst(tokens: seq<string>)
    requires tokens != []
    ensures Flatten(tokens) == tokens[0] + Flatten(tokens[1..])
  {
    if |tokens| > 1 {
      var front := tokens[..|tokens| - 1];
      FlattenFirst(front);
      assert front[1..] == tokens[1..][..|tokens| - 2];
    } else {
      assert tokens[..0] == [] && tokens[1..] == [];
    }
  }

  lemma JoinTokenized(c: char, rest: seq<string>)
    requires Tokenized(rest) && rest != [] && KindOf(rest[0][0]) == KindOf(c)
    ensures var all := [[c] + rest[0]] + rest[1..]; Tokenized(all) && Flatten(all) == [c] + Flatten(rest)
  {
    LongerFirst(c, rest);
    var all := [[c] + rest[0]] + rest[1..];
    FlattenFirst(all);
    FlattenFirst(rest);
    assert all[1..] == rest[1..];
  }

  lemma LongerFirst(c: char, rest: seq<string>)
    requires Tokenized(rest) && rest != [] && KindOf(rest[0][0]) == KindOf(c)
    ensures Tokenized([[c] + rest[0]] + rest[1..])
  {
    var all := [[c] + rest[0]] + rest[1..];
    assert IsToken(all[0]) && forall i | 0 < i < |all| :: all[i] == rest[i];
  }

  lemma AheadTokenized(c: char, rest: seq<string>)
    requires Tokenized(rest) && (rest != [] ==> KindOf(rest[0][0]) != KindOf(c))
    ensures Tokenized([[c]] + rest) && Flatten([[c]] + rest) == [c] + Flatten(rest)
  {
    FlattenFirst([[c]] + rest);
    assert ([[c]] + rest)[1..] == rest;
  }

  lemma {:induction false} TokensTokenize(s: string)
    ensures Tokenized(Tokens(s)) && Flatten(Tokens(s)) == s
    ensures s != [] ==> Tokens(s) != [] && Tokens(s)[0][0] == s[0]
  {
    if s != [] {
      TokensTokenize(s[1..]);
      var rest := Tokens(s[1..]);
      if rest != [] && KindOf(rest[0][0]) == KindOf(s[0]) {
        JoinTokenized(s[0], rest);
      } else {
        AheadTokenized(s[0], rest);
      }
    }
  }

  predicate IsWord(f: string) {
    f != [] && forall k | 0 <= k < |f| :: IsLetter(f[k])
  }

  /** isSpaceRun: blanks and tabs only. */
  predicate IsGap(f: string) {
    forall k | 0 <= k < |f| :: f[k] == ' ' || f[k] == '\t'
  }

  function LowerChar(c: char): char {
    if 'A' <= c <= 'Z' then c - 'A' + 'a' else c
  }

  function Lower(f: string): (r: string)
    ensures |r| == |f|
    ensures forall k | 0 <= k < |f| :: r[k] == LowerChar(f[k])
  {
    if f == [] then [] else [LowerChar(f[0])] + Lower(f[1..])
  }

  /** The word a token list ends in, looking past one gap; empty if there is none. */
  function EndWord(kept: seq<string>): string {
    var n := |kept|;
    if n >= 1 && IsWord(kept[n - 1]) then kept[n - 1]
    else if n >= 2 && IsGap(kept[n - 1]) && IsWord(kept[n - 2]) then kept[n - 2]
    else []
  }

  function WithoutEndGap(kept: seq<string>): seq<string> {
    if kept != [] && IsGap(kept[|kept| - 1]) then kept[..|kept| - 1] else kept
  }

  /** The tokens that stay: a word that repeats the end word goes, with the gap before it. */
  function Kept(tokens: seq<string>): seq<string> {
    if tokens == [] then []
    else
      var kept, f := Kept(tokens[..|tokens| - 1]), tokens[|tokens| - 1];
      if Repeated(kept, f) then WithoutEndGap(kept) else kept + [f]
  }

  /** strings.TrimRight(s, " \t") */
  function TrimGap(s: string): string {
    if s != [] && (s[|s| - 1] == ' ' || s[|s| - 1] == '\t') then TrimGap(s[..|s| - 1]) else s
  }

  /** What dedupWords returns, as text. */
  function UniqueWords(s: string): string {
    Flatten(Kept(Tokens(s)))
  }

  lemma TrimGapOfWord(a: string, gap: string)
    requires a == [] || !(a[|a| - 1] == ' ' || a[|a| - 1] == '\t')
    requires IsGap(gap)
    ensures TrimGap(a + gap) == a
    decreases |gap|
  {
    if gap == [] {
      assert a + gap == a;
    } else {
      assert (a + gap)[..|a + gap| - 1] == a + gap[..|gap| - 1];
      TrimGapOfWord(a, gap[..|gap| - 1]);
    }
  }

  lemma FlattenEndsIn(tokens: seq<string>)
    requires tokens != [] && IsWord(tokens[|tokens| - 1])
    ensures Flatten(tokens) != [] && IsLetter(Flatten(tokens)[|Flatten(tokens)| - 1])
  {
  }

  /** Cutting blanks off the text drops exactly the gap token. */
  lemma TrimDropsGap(kept: seq<string>)
    requires EndWord(kept) != []
    ensures TrimGap(Flatten(kept)) == Flatten(WithoutEndGap(kept))
  {
    var n := |kept|;
    if IsWord(kept[n - 1]) {
      assert !IsGap(kept[n - 1]) by {
        assert IsLetter(kept[n - 1][0]);
      }
      FlattenEndsIn(kept);
      TrimGapOfWord(Flatten(kept), []);
      assert Flatten(kept) + [] == Flatten(kept);
    } else {
      FlattenEndsIn(kept[..n - 1]);
      TrimGapOfWord(Flatten(kept[..n - 1]), kept[n - 1]);
    }
  }

  lemma AppendTokenized(kept: seq<string>, f: string)
    requires Tokenized(kept) && IsToken(f) && (kept != [] ==> KindOf(kept[|kept| - 1][0]) != KindOf(f[0]))
    ensures Tokenized(kept + [f])
  {
  }

  lemma PrefixTokenized(tokens: seq<string>, n: nat)
    requires Tokenized(tokens) && n <= |tokens|
    ensures Tokenized(tokens[..n])
  {
    var front := tokens[..n];
    forall i, j | 0 <= i && j == i + 1 && j < |front| ensures KindOf(front[i][0]) != KindOf(front[j][0]) {
      assert front[i] == tokens[i] && front[j] == tokens[j];
    }
  }

  /** A repeated word goes: the kept tokens then end in the word it repeats. */
  predicate Repeated(kept: seq<string>, f: string) {
    IsWord(f) && EndWord(kept) != [] && Lower(EndWord(kept)) == Lower(f)
  }

  lemma WithoutEndGapTokenized(kept: seq<string>, f: string)
    requires Tokenized(kept) && IsToken(f) && Repeated(kept, f)
    ensures Tokenized(WithoutEndGap(kept)) && WithoutEndGap(kept) != []
    ensures KindOf(WithoutEndGap(kept)[|WithoutEndGap(kept)| - 1][0]) == KindOf(f[0])
  {
    EndsInWordOrGap(kept);
    PrefixTokenized(kept, |kept| - 1);
    assert IsLetter(f[0]) && IsLetter(EndWord(kept)[0]);
  }

  /** The kept tokens alternate like the original ones, and end in the same kind. */
  ghost predicate EndsLike(tokens: seq<string>, f: string)
    requires Tokenized(tokens) && f != []
  {
    tokens != [] && KindOf(tokens[|tokens| - 1][0]) == KindOf(f[0])
  }

  lemma StepAlternates(kept: seq<string>, f: string)
    requires Tokenized(kept) && IsToken(f) && !EndsLike(kept, f)
    ensures var next := if Repeated(kept, f) then WithoutEndGap(kept) else kept + [f];
            Tokenized(next) && EndsLike(next, f)
  {
    if Repeated(kept, f) {
      WithoutEndGapTokenized(kept, f);
    } else {
      AppendTokenized(kept, f);
    }
  }

  lemma {:induction false} KeptAlternates(tokens: seq<string>)
    requires Tokenized(tokens)
    ensures Tokenized(Kept(tokens))
    ensures tokens != [] ==> EndsLike(Kept(tokens), tokens[|tokens| - 1])
  {
    if tokens != [] {
      var front, f := tokens[..|tokens| - 1], tokens[|tokens| - 1];
      PrefixTokenized(tokens, |tokens| - 1);
      KeptAlternates(front);
      if front != [] {
        assert KindOf(front[|front| - 1][0]) != KindOf(f[0]);
      }
      StepAlternates(Kept(front), f);
    }
  }

  lemma EndsInWordOrGap(kept: seq<string>)
    requires EndWord(kept) != []
    ensures WithoutEndGap(kept) != [] && WithoutEndGap(kept)[|WithoutEndGap(kept)| - 1] == EndWord(kept) &&
            IsWord(EndWord(kept))
    ensures EndWord(WithoutEndGap(kept)) == EndWord(kept)
  {
    var last := kept[|kept| - 1];
    assert IsWord(last) ==> IsLetter(last[0]) && !IsGap(last);
  }

  /** How the end word develops as a token is appended. */
  lemma EndWordAppend(kept: seq<string>, f: string)
    requires Tokenized(kept) && IsToken(f) && (kept != [] ==> KindOf(kept[|kept| - 1][0]) != KindOf(f[0]))
    ensures EndWord(kept + [f]) == if IsWord(f) then f else if IsGap(f) then EndWord(kept) else []
  {
    assert IsWord(f) ==> IsLetter(f[0]);
    if kept != [] {
      var last := kept[|kept| - 1];
      assert IsGap(last) ==> last[0] == ' ' || last[0] == '\t';
      assert IsGap(f) ==> f[0] == ' ' || f[0] == '\t';
    }
  }

  /** One round of the loop, on the kept tokens. */
  lemma KeptStep(fields: seq<string>, i: nat)
    requires Tokenized(fields) && i < |fields|
    ensures var kept, f, next := Kept(fields[..i]), fields[i], Kept(fields[..i + 1]);
            if Repeated(kept, f)
            then Flatten(next) == TrimGap(Flatten(kept)) && EndWord(next) == EndWord(kept)
            else
              && Flatten(next) == Flatten(kept) + f
              && EndWord(next) == if IsWord(f) then f else if IsGap(f) then EndWord(kept) else []
  {
    var front, f := fields[..i], fields[i];
    assert fields[..i + 1][..i] == front;
    KeptAlternates(front);
    var kept := Kept(front);
    if Repeated(kept, f) {
      EndsInWordOrGap(kept);
      TrimDropsGap(kept);
    } else {
      if i > 0 {
        assert KindOf(fields[i - 1][0]) != KindOf(f[0]);
      }
      EndWordAppend(kept, f);
      assert (kept + [f])[..|kept|] == kept;
    }
  }

  method DedupWords(s: string) returns (out: string)
    ensures out == UniqueWords(s)
  {
    var fields := Tokens(s);
    TokensTokenize(s);
    if |fields| < 3 {
      NothingToDrop(fields);
      return s;
    }
    var b, lastWord, lastWordAtEnd := "", "", false;
    var i := 0;
    while i < |fields|
      invariant 0 <= i <= |fields|
      invariant b == Flatten(Kept(fields[..i]))
      invariant lastWordAtEnd == (EndWord(Kept(fields[..i])) != [])
      invariant lastWordAtEnd ==> lastWord == Lower(EndWord(Kept(fields[..i])))
    {
      var f := fields[i];
      KeptStep(fields, i);
      if IsWord(f) {
        var lower := Lower(f);
        if lastWordAtEnd && lastWord == lower {
          b := TrimGap(b);
        } else {
          lastWord, lastWordAtEnd := lower, true;
          b := b + f;
        }
      } else {
        if !IsGap(f) {
          lastWordAtEnd := false;
        }
        b := b + f;
      }
      i := i + 1;
    }
    assert fields[..i] == fields;
    out := b;
  }

  // ----- what the result is -----

  /** No word follows the same word, up to case, with only blanks and tabs in between. */
  ghost predicate NoRepeatedWord(tokens: seq<string>) {
    forall i, j | 0 <= i && j == i + 2 && j < |tokens| ::
        IsWord(tokens[i]) && IsGap(tokens[i + 1]) && IsWord(tokens[j]) ==> Lower(tokens[i]) != Lower(tokens[j])
  }

  lemma PrefixNoRepeat(tokens: seq<string>, n: nat)
    requires NoRepeatedWord(tokens) && n <= |tokens|
    ensures NoRepeatedWord(tokens[..n])
  {
    var front := tokens[..n];
    forall i, j | 0 <= i && j == i + 2 && j < |front| && IsWord(front[i]) && IsGap(front[i + 1]) && IsWord(front[j])
      ensures Lower(front[i]) != Lower(front[j])
    {
      assert front[i] == tokens[i] && front[i + 1] == tokens[i + 1] && front[j] == tokens[j];
    }
  }

  lemma AppendNoRepeat(kept: seq<string>, f: string)
    requires NoRepeatedWord(kept) && Tokenized(kept) && !Repeated(kept, f)
    ensures NoRepeatedWord(kept + [f])
  {
    var n := |kept|;
    if n >= 2 && IsWord(kept[n - 2]) && IsGap(kept[n - 1]) && IsWord(f) {
      assert !IsLetter(kept[n - 1][0]);
      assert EndWord(kept) == kept[n - 2];
    }
  }

  lemma StepNoRepeat(kept: seq<string>, f: string)
    requires NoRepeatedWord(kept) && Tokenized(kept)
    ensures NoRepeatedWord(if Repeated(kept, f) then WithoutEndGap(kept) else kept + [f])
  {
    if Repeated(kept, f) {
      PrefixNoRepeat(kept, |kept| - 1);
    } else {
      AppendNoRepeat(kept, f);
    }
  }

  lemma {:induction false} KeptHasNoRepeat(tokens: seq<string>)
    requires Tokenized(tokens)
    ensures NoRepeatedWord(Kept(tokens))
  {
    if tokens != [] {
      var front := tokens[..|tokens| - 1];
      PrefixTokenized(tokens, |tokens| - 1);
      KeptHasNoRepeat(front);
      KeptAlternates(front);
      StepNoRepeat(Kept(front), tokens[|tokens| - 1]);
    }
  }

  lemma NotRepeated(tokens: seq<string>, k: nat)
    requires Tokenized(tokens) && NoRepeatedWord(tokens) && k < |tokens|
    ensures !Repeated(tokens[..k], tokens[k])
  {
    var f := tokens[k];
    if IsWord(f) && k > 0 {
      assert IsLetter(f[0]) && KindOf(tokens[k - 1][0]) != KindOf(f[0]);
      assert !IsWord(tokens[k - 1]);
    }
  }

  lemma KeptNext(front: seq<string>, f: string)
    ensures Kept(front + [f]) == if Repeated(Kept(front), f) then WithoutEndGap(Kept(front)) else Kept(front) + [f]
  {
    assert (front + [f])[..|front|] == front;
  }

  /** The last token of tokens without a repeated word is no repetition. */
  lemma NothingMore(front: seq<string>, f: string)
    requires Tokenized(front + [f]) && NoRepeatedWord(front + [f]) && Kept(front) == front
    ensures Kept(front + [f]) == front + [f]
  {
    var tokens := front + [f];
    NotRepeated(tokens, |front|);
    assert tokens[..|front|] == front && tokens[|front|] == f;
    KeptNext(front, f);
  }

  /** Without a repeated word nothing is dropped. */
  lemma {:induction false} NothingToDrop(tokens: seq<string>)
    requires Tokenized(tokens) && NoRepeatedWord(tokens)
    ensures Kept(tokens) == tokens
  {
    if tokens != [] {
      var front, last := tokens[..|tokens| - 1], tokens[|tokens| - 1];
      assert front + [last] == tokens;
      PrefixTokenized(tokens, |front|);
      PrefixNoRepeat(tokens, |front|);
      NothingToDrop(front);
      NothingMore(front, last);
    }
  }

  lemma {:induction false} TokensPrepend(f: string, rest: string)
    requires IsToken(f) && (rest != [] ==> KindOf(rest[0]) != KindOf(f[0]))
    ensures Tokens(f + rest) == [f] + Tokens(rest)
    decreases |f|
  {
    var s := f + rest;
    if |f| == 1 {
      assert s[1..] == rest && f == [s[0]];
      TokensTokenize(rest);
    } else {
      assert s[1..] == f[1..] + rest;
      TokensPrepend(f[1..], rest);
      assert [f[0]] + f[1..] == f;
    }
  }

  /** Alternating tokens are the tokens of their text. */
  lemma {:induction false} TokensOfFlatten(tokens: seq<string>)
    requires Tokenized(tokens)
    ensures Tokens(Flatten(tokens)) == tokens
    decreases |tokens|
  {
    if tokens != [] {
      var rest := tokens[1..];
      FlattenFirst(tokens);
      forall i, j | 0 <= i && j == i + 1 && j < |rest| ensures KindOf(rest[i][0]) != KindOf(rest[j][0]) {
        assert rest[i] == tokens[i + 1] && rest[j] == tokens[j + 1];
      }
      TokensOfFlatten(rest);
      if rest != [] {
        FlattenFirst(rest);
        assert KindOf(tokens[0][0]) != KindOf(tokens[1][0]);
      }
      TokensPrepend(tokens[0], Flatten(rest));
    }
  }

  /** The result has no repeated word. */
  lemma UniqueWordsAreUnique(s: string)
    ensures NoRepeatedWord(Tokens(UniqueWords(s)))
  {
    TokensTokenize(s);
    KeptAlternates(Tokens(s));
    KeptHasNoRepeat(Tokens(s));
    TokensOfFlatten(Kept(Tokens(s)));
  }

  /** A text is returned unchanged exactly if it has no repeated word; so a second pass
      changes nothing. */
  lemma UnchangedExactly(s: string)
    ensures UniqueWords(s) == s <==> NoRepeatedWord(Tokens(s))
    ensures UniqueWords(UniqueWords(s)) == UniqueWords(s)
  {
    UniqueWordsAreUnique(s);
    TokensTokenize(s);
    TokensTokenize(UniqueWords(s));
    if NoRepeatedWord(Tokens(s)) {
      NothingToDrop(Tokens(s));
    }
    NothingToDrop(Tokens(UniqueWords(s)));
  }

  // ----- which words go -----

  /** Texts that meet in characters of different kinds have the tokens of both. */
  lemma TokensConcat(a: string, b: string)
    requires a != [] && b != [] ==> KindOf(a[|a| - 1]) != KindOf(b[0])
    ensures Tokens(a + b) == Tokens(a) + Tokens(b)
  {
    var s, t := Tokens(a), Tokens(b);
    TokensTokenize(a);
    TokensTokenize(b);
    if a != [] {
      LastOfTokens(a);
    }
    TokenizedAppend(s, t);
    FlattenAppend(s, t);
    TokensOfFlatten(s + t);
  }

  lemma TokenizedAppend(s: seq<string>, t: seq<string>)
    requires Tokenized(s) && Tokenized(t)
    requires s != [] && t != [] ==> KindOf(s[|s| - 1][0]) != KindOf(t[0][0])
    ensures Tokenized(s + t)
  {
    var all := s + t;
    assert forall i | 0 <= i < |all| :: all[i] == if i < |s| then s[i] else t[i - |s|];
  }

  lemma LastOfTokens(a: string)
    requires a != []
    ensures var s := Tokens(a); s != [] && IsToken(s[|s| - 1]) && KindOf(s[|s| - 1][0]) == KindOf(a[|a| - 1])
  {
    TokensTokenize(a);
    var last := Tokens(a)[|Tokens(a)| - 1];
    assert IsToken(last) && Flatten(Tokens(a))[|a| - 1] == last[|last| - 1];
  }

  lemma {:induction false} FlattenAppend(a: seq<string>, b: seq<string>)
    ensures Flatten(a + b) == Flatten(a) + Flatten(b)
    decreases |b|
  {
    if b == [] {
      assert a + b == a;
    } else {
      assert (a + b)[..|a + b| - 1] == a + b[..|b| - 1];
      FlattenAppend(a, b[..|b| - 1]);
    }
  }

  lemma OneToken(f: string)
    requires IsToken(f)
    ensures Tokens(f) == [f]
  {
    assert f + [] == f;
    TokensPrepend(f, []);
  }

  lemma {:induction false} KeptDependsOnKept(a: seq<string>, b: seq<string>, more: seq<string>)
    requires Kept(a) == Kept(b)
    ensures Kept(a + more) == Kept(b + more)
    decreases |more|
  {
    if more == [] {
      assert a + more == a && b + more == b;
    } else {
      var n := |more| - 1;
      assert (a + more)[..|a + more| - 1] == a + more[..n] && (b + more)[..|b + more| - 1] == b + more[..n];
      KeptDependsOnKept(a, b, more[..n]);
    }
  }

  /** A word just taken, or dropped as a repetition, leaves a list that ends in it up to case. */
  lemma EndsInWord(front: seq<string>, w: string)
    requires IsWord(w)
    ensures var kept := Kept(front + [w]);
            kept != [] && IsWord(kept[|kept| - 1]) && Lower(kept[|kept| - 1]) == Lower(w)
  {
    KeptNext(front, w);
    if Repeated(Kept(front), w) {
      EndsInWordOrGap(Kept(front));
    }
  }

  lemma RepetitionGoes(front: seq<string>, w: string, gap: string, v: string)
    requires IsWord(w) && IsWord(v) && Lower(w) == Lower(v) && gap != [] && IsGap(gap)
    ensures Kept(front + [w] + [gap] + [v]) == Kept(front + [w])
  {
    var kept := Kept(front + [w]);
    EndsInWord(front, w);
    GapThenRepetition(kept, gap, v);
    KeptNext(front + [w], gap);
    KeptNext(front + [w] + [gap], v);
  }

  lemma GapThenRepetition(kept: seq<string>, gap: string, v: string)
    requires kept != [] && IsWord(kept[|kept| - 1]) && IsWord(v) && Lower(kept[|kept| - 1]) == Lower(v)
    requires gap != [] && IsGap(gap)
    ensures !Repeated(kept, gap) && Repeated(kept + [gap], v) && WithoutEndGap(kept + [gap]) == kept
  {
    var longer := kept + [gap];
    assert gap[0] == ' ' || gap[0] == '\t';
    assert !IsWord(gap);
    assert EndWord(longer) == kept[|kept| - 1];
    assert longer[..|longer| - 1] == kept;
  }

  /** The same letter, in lower or upper case. */
  predicate SameLetter(a: char, b: char) {
    a == b || a as int == b as int + 32 || b as int == a as int + 32
  }

  lemma SameLower(w: string, v: string)
    requires IsWord(w) && IsWord(v) && |w| == |v| && forall k | 0 <= k < |w| :: SameLetter(w[k], v[k])
    ensures Lower(w) == Lower(v)
  {
    forall k | 0 <= k < |w| ensures Lower(w)[k] == Lower(v)[k] {
      SameLowerChar(w[k], v[k]);
    }
  }

  lemma SameLowerChar(a: char, b: char)
    requires IsLetter(a) && IsLetter(b) && SameLetter(a, b)
    ensures LowerChar(a) == LowerChar(b)
  {
  }

  lemma WordIsToken(w: string)
    requires IsWord(w)
    ensures IsToken(w) && KindOf(w[0]) == Letter && KindOf(w[|w| - 1]) == Letter
  {
    assert forall k | 0 <= k < |w| :: IsLetter(w[k]) && KindOf(w[k]) == Letter;
  }

  lemma GapIsToken(gap: string)
    requires gap != [] && IsGap(gap)
    ensures IsToken(gap) && KindOf(gap[0]) == Blank && KindOf(gap[|gap| - 1]) == Blank
  {
    assert forall k | 0 <= k < |gap| :: KindOf(gap[k]) == Blank;
  }

  lemma TokensAround(x: string, w: string, y: string)
    requires IsWord(w) && (x != [] ==> !IsLetter(x[|x| - 1])) && (y != [] ==> !IsLetter(y[0]))
    ensures Tokens(x + w) == Tokens(x) + [w] && Tokens(x + w + y) == Tokens(x) + [w] + Tokens(y)
  {
    WordIsToken(w);
    OneToken(w);
    TokensConcat(x, w);
    TokensConcat(x + w, y);
  }

  /** A word repeated after blanks and tabs, in whatever case, goes together with them, and
      the first one stays. */
  lemma RepeatedWordGoes(x: string, w: string, gap: string, v: string, y: string)
    requires w != [] && |w| == |v| && forall k | 0 <= k < |w| :: SameLetter(w[k], v[k])
    requires forall k | 0 <= k < |w| :: 'a' <= w[k] <= 'z' || 'A' <= w[k] <= 'Z'
    requires forall k | 0 <= k < |v| :: 'a' <= v[k] <= 'z' || 'A' <= v[k] <= 'Z'
    requires gap != [] && forall k | 0 <= k < |gap| :: gap[k] == ' ' || gap[k] == '\t'
    requires x != [] ==> !('a' <= x[|x| - 1] <= 'z' || 'A' <= x[|x| - 1] <= 'Z')
    requires y != [] ==> !('a' <= y[0] <= 'z' || 'A' <= y[0] <= 'Z')
    ensures UniqueWords(x + w + gap + v + y) == UniqueWords(x + w + y)
  {
    assert IsWord(w) && IsWord(v);
    SameLower(w, v);
    GapIsToken(gap);
    TokensAround(x, w, y);
    WordIsToken(w);
    OneToken(gap);
    TokensConcat(x + w, gap);
    TokensAround(x + w + gap, v, y);
    RepetitionGoes(Tokens(x), w, gap, v);
    KeptDependsOnKept(Tokens(x) + [w] + [gap] + [v], Tokens(x) + [w], Tokens(y));
  }

  lemma {:induction false} KeptDeletes(tokens: seq<string>)
    ensures Subseq(Flatten(Kept(tokens)), Flatten(tokens))
  {
    if tokens == [] {
      Reflexive(Flatten(tokens));
    } else {
      var front, f := tokens[..|tokens| - 1], tokens[|tokens| - 1];
      var kept := Kept(front);
      KeptDeletes(front);
      Reflexive(f);
      Concat(Flatten(kept), Flatten(front), f, f);
      if Repeated(kept, f) {
        FlattenWithoutEndGap(kept);
        Transitive(Flatten(WithoutEndGap(kept)), Flatten(kept), Flatten(front));
        Slice(Flatten(tokens), 0, |Flatten(front)|);
        assert Flatten(tokens)[0..|Flatten(front)|] == Flatten(front);
        Transitive(Flatten(WithoutEndGap(kept)), Flatten(front), Flatten(tokens));
      } else {
        assert (kept + [f])[..|kept|] == kept;
      }
    }
  }

  lemma FlattenWithoutEndGap(kept: seq<string>)
    ensures Subseq(Flatten(WithoutEndGap(kept)), Flatten(kept))
  {
    var n := |Flatten(WithoutEndGap(kept))|;
    assert Flatten(kept)[..n] == Flatten(WithoutEndGap(kept));
    Slice(Flatten(kept), 0, n);
    assert Flatten(kept)[0..n] == Flatten(kept)[..n];
  }

  lemma UniqueWordsDeletes(s: string)
    ensures Subseq(UniqueWords(s), s)
  {
    TokensTokenize(s);
    KeptDeletes(Tokens(s));
  }
}
