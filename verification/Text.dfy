/** Strings as sequences of code points, with the pieces of Go's `strings`, `unicode` and
    `strconv` packages that the modelled code calls. */
module Text {
  import opened Basics

  /** unicode.IsSpace */
  predicate IsSpace(c: char) {
    || ('\t' <= c <= '\r') || c == ' ' || c == '\U{0085}' || c == '\U{00A0}' || c == '\U{1680}'
    || ('\U{2000}' <= c <= '\U{200A}') || c == '\U{2028}' || c == '\U{2029}' || c == '\U{202F}'
    || c == '\U{205F}' || c == '\U{3000}'
  }

  /** Index of the first non-space, or the length. */
  function Lo(s: string): (i: nat)
    ensures i <= |s|
    ensures forall k | 0 <= k < i :: IsSpace(s[k])
    ensures i < |s| ==> !IsSpace(s[i])
  {
    if s == [] || !IsSpace(s[0]) then 0 else 1 + Lo(s[1..])
  }

  /** One past the last non-space at or after `from`. */
  function Hi(s: string, from: nat): (j: nat)
    requires from <= |s|
    ensures from <= j <= |s|
    ensures forall k | j <= k < |s| :: IsSpace(s[k])
    ensures j > from ==> !IsSpace(s[j - 1])
    decreases |s|
  {
    if |s| == from || !IsSpace(s[|s| - 1]) then |s| else Hi(s[..|s| - 1], from)
  }

  /** strings.TrimSpace */
  function TrimSpace(s: string): (t: string)
    ensures |t| <= |s|
    ensures Trimmed(t)
    ensures Trimmed(s) ==> t == s
  {
    s[Lo(s)..Hi(s, Lo(s))]
  }

  predicate Trimmed(s: string) {
    s == [] || (!IsSpace(s[0]) && !IsSpace(s[|s| - 1]))
  }

  predicate AllSpaces(s: string) {
    forall k | 0 <= k < |s| :: IsSpace(s[k])
  }

  /** Trimming takes away exactly the white space at both ends. */
  lemma TrimIs(a: string, t: string, b: string)
    requires AllSpaces(a) && AllSpaces(b) && Trimmed(t)
    ensures TrimSpace(a + t + b) == t
  {
    var s := a + t + b;
    var i := Lo(s);
    if t == [] {
      assert AllSpaces(s);
    } else {
      assert s[|a|] == t[0] && s[|a| + |t| - 1] == t[|t| - 1];
      assert i == |a|;
      assert Hi(s, i) == |a| + |t|;
      assert s[|a|..|a| + |t|] == t;
    }
  }

  lemma TrimParts(s: string) returns (a: string, b: string)
    ensures AllSpaces(a) && AllSpaces(b) && s == a + TrimSpace(s) + b
  {
    var i, j := Lo(s), Hi(s, Lo(s));
    a, b := s[..i], s[j..];
    assert s == s[..i] + s[i..j] + s[j..];
  }

  /** White space around a text is trimmed off with that of the text. */
  lemma TrimAround(a: string, s: string, b: string)
    requires AllSpaces(a) && AllSpaces(b)
    ensures TrimSpace(a + s + b) == TrimSpace(s)
  {
    var c, d := TrimParts(s);
    Regroup(a, c, TrimSpace(s), d, b);
    TrimIs(a + c, TrimSpace(s), d + b);
  }

  lemma Regroup<T>(a: seq<T>, b: seq<T>, c: seq<T>, d: seq<T>, e: seq<T>)
    ensures a + (b + c + d) + e == (a + b) + c + (d + e)
  {
  }

  /** strings.Split for a one-character separator: at least one part, cut at every separator. */
  function Split(s: string, sep: char): (parts: seq<string>)
    ensures |parts| > 0
  {
    if s == [] then [[]]
    else
      var rest := Split(s[1..], sep);
      if s[0] == sep then [[]] + rest else [[s[0]] + rest[0]] + rest[1..]
  }

  lemma {:induction false} SplitWhole(s: string, sep: char)
    requires sep !in s
    ensures Split(s, sep) == [s]
  {
    if s != [] {
      SplitWhole(s[1..], sep);
      assert [s[0]] + s[1..] == s;
    }
  }

  /** strings.Join */
  function Join(parts: seq<string>, sep: string): string {
    if parts == [] then ""
    else if |parts| == 1 then parts[0]
    else parts[0] + sep + Join(parts[1..], sep)
  }

  lemma {:induction false} JoinLast(parts: seq<string>, p: string, sep: string)
    ensures Join(parts + [p], sep) == if parts == [] then p else Join(parts, sep) + sep + p
  {
    var all := parts + [p];
    if parts != [] {
      assert all[1..] == parts[1..] + [p];
      JoinLast(parts[1..], p, sep);
    }
  }

  lemma {:induction false} JoinAhead(c: char, parts: seq<string>, sep: string)
    requires parts != []
    ensures Join([[c] + parts[0]] + parts[1..], sep) == [c] + Join(parts, sep)
  {
    var all := [[c] + parts[0]] + parts[1..];
    assert all[1..] == parts[1..];
    if |parts| > 1 {
      assert [c] + (parts[0] + sep + Join(parts[1..], sep)) == ([c] + parts[0]) + sep + Join(parts[1..], sep);
    }
  }

  /** Joined by the separator the parts are the text again; none of them contains the
      separator, and there is one part more than there are separators. */
  lemma {:induction false} SplitExactly(s: string, sep: char)
    ensures Join(Split(s, sep), [sep]) == s
    ensures forall k | 0 <= k < |Split(s, sep)| :: sep !in Split(s, sep)[k]
    ensures |Split(s, sep)| == multiset(s)[sep] + 1
  {
    if s != [] {
      var c, rest := s[0], Split(s[1..], sep);
      SplitExactly(s[1..], sep);
      assert s == [c] + s[1..];
      if c == sep {
        assert ([""] + rest)[1..] == rest;
        assert "" + [sep] + Join(rest, [sep]) == [sep] + Join(rest, [sep]);
      } else {
        JoinAhead(c, rest, [sep]);
      }
    }
  }

  /** Cutting at a separator cuts what is on its two sides. */
  lemma {:induction false} SplitAtSep(a: string, sep: char, b: string)
    ensures Split(a + [sep] + b, sep) == Split(a, sep) + Split(b, sep)
  {
    var s := a + [sep] + b;
    if a == [] {
      assert s[1..] == b;
    } else {
      assert s[1..] == a[1..] + [sep] + b;
      SplitAtSep(a[1..], sep, b);
    }
  }

  /** Text without a separator ahead of another goes into its first part. */
  lemma {:induction false} SplitAhead(a: string, s: string, sep: char)
    requires sep !in a
    ensures Split(a + s, sep) == [a + Split(s, sep)[0]] + Split(s, sep)[1..]
  {
    var parts := Split(s, sep);
    if a == [] {
      assert a + s == s && a + parts[0] == parts[0] && [parts[0]] + parts[1..] == parts;
    } else {
      assert (a + s)[1..] == a[1..] + s;
      SplitAhead(a[1..], s, sep);
      assert [a[0]] + (a[1..] + parts[0]) == a + parts[0];
    }
  }

  /** The list with `b` appended to its last part. */
  function WithLast(parts: seq<string>, b: string): seq<string>
    requires parts != []
  {
    parts[..|parts| - 1] + [parts[|parts| - 1] + b]
  }

  lemma LastOfAhead(p: string, rest: seq<string>, b: string)
    requires rest != []
    ensures WithLast([p] + rest, b) == [p] + WithLast(rest, b)
  {
  }

  lemma LastOfLonger(c: char, rest: seq<string>, b: string)
    requires rest != []
    ensures var longer := WithLast(rest, b);
            WithLast([[c] + rest[0]] + rest[1..], b) == [[c] + longer[0]] + longer[1..]
  {
    if |rest| == 1 {
      assert [c] + (rest[0] + b) == ([c] + rest[0]) + b;
    }
  }

  /** Text without a separator after another goes into its last part. */
  lemma {:induction false} SplitBehind(s: string, b: string, sep: char)
    requires sep !in b
    ensures Split(s + b, sep) == WithLast(Split(s, sep), b)
  {
    if s == [] {
      assert s + b == b;
      SplitWhole(b, sep);
    } else {
      assert (s + b)[1..] == s[1..] + b;
      SplitBehind(s[1..], b, sep);
      var rest := Split(s[1..], sep);
      if s[0] == sep {
        LastOfAhead("", rest, b);
      } else {
        LastOfLonger(s[0], rest, b);
      }
    }
  }

  /** strings.Fields: the maximal runs of non-space characters. */
  function WordsOf(s: string): seq<string> {
    if s == [] then []
    else if IsSpace(s[0]) then WordsOf(s[1..])
    else if |s| == 1 || IsSpace(s[1]) then [[s[0]]] + WordsOf(s[1..])
    else var rest := WordsOf(s[1..]); if rest == [] then [[s[0]]] else [[s[0]] + rest[0]] + rest[1..]
  }

  lemma {:induction false} WordsSkip(gap: string, rest: string)
    requires AllSpaces(gap)
    ensures WordsOf(gap + rest) == WordsOf(rest)
  {
    if gap == [] {
      assert gap + rest == rest;
    } else {
      assert (gap + rest)[1..] == gap[1..] + rest;
      WordsSkip(gap[1..], rest);
    }
  }

  predicate NoSpace(s: string) {
    forall k | 0 <= k < |s| :: !IsSpace(s[k])
  }

  lemma {:induction false} WordsFirst(w: string, rest: string)
    requires w != "" && NoSpace(w) && (rest != "" ==> IsSpace(rest[0]))
    ensures WordsOf(w + rest) == [w] + WordsOf(rest)
  {
    var s := w + rest;
    if |w| == 1 {
      assert s[1..] == rest && [s[0]] == w;
    } else {
      assert s[1..] == w[1..] + rest;
      WordsFirst(w[1..], rest);
      assert [w[0]] + w[1..] == w;
    }
  }

  /** Words on the two sides of white space. */
  lemma {:induction false} WordsAppend(x: string, y: string)
    requires x != "" ==> IsSpace(x[|x| - 1])
    ensures WordsOf(x + y) == WordsOf(x) + WordsOf(y)
  {
    if x == "" {
      assert x + y == y;
    } else {
      var s := x + y;
      assert s[1..] == x[1..] + y && (|x| > 1 ==> s[1] == x[1]);
      WordsAppend(x[1..], y);
    }
  }

  /** The words with white space before, between and after them. */
  function Spread(words: seq<string>, gaps: seq<string>): string
    requires |gaps| == |words| + 1
  {
    if words == [] then gaps[0] else gaps[0] + words[0] + Spread(words[1..], gaps[1..])
  }

  /** Words spread out over a text, with some white space between any two, are found again. */
  lemma {:induction false} WordsFound(words: seq<string>, gaps: seq<string>)
    requires |gaps| == |words| + 1
    requires forall k | 0 <= k < |words| :: words[k] != "" && NoSpace(words[k])
    requires forall k | 0 <= k < |gaps| :: AllSpaces(gaps[k]) && (0 < k < |words| ==> gaps[k] != "")
    ensures WordsOf(Spread(words, gaps)) == words
  {
    if words == [] {
      WordsSkip(gaps[0], "");
      assert gaps[0] + "" == gaps[0];
    } else {
      var rest := Spread(words[1..], gaps[1..]);
      WordsFound(words[1..], gaps[1..]);
      assert rest != "" ==> IsSpace(rest[0]);
      WordsSkip(gaps[0], words[0] + rest);
      assert gaps[0] + words[0] + rest == gaps[0] + (words[0] + rest);
      WordsFirst(words[0], rest);
    }
  }

  predicate IsDigit(c: char) {
    '0' <= c <= '9'
  }

  predicate AllDigits(s: string) {
    forall k | 0 <= k < |s| :: IsDigit(s[k])
  }

  /** The number a string of digits denotes. */
  function Denotes(s: string): nat
    requires AllDigits(s)
  {
    if s == [] then 0 else 10 * Denotes(s[..|s| - 1]) + (s[|s| - 1] as int - '0' as int)
  }

  /** The number denoted, starting from the value `n` of the digits read so far. */
  function DenotesFrom(n: nat, s: string): nat
    requires AllDigits(s)
    decreases |s|
  {
    if s == [] then n else DenotesFrom(10 * n + (s[0] as int - '0' as int), s[1..])
  }

  lemma {:induction false} ReadDigits(s: string, t: string)
    requires AllDigits(s) && AllDigits(t)
    ensures AllDigits(s + t) && Denotes(s + t) == DenotesFrom(Denotes(s), t)
    decreases |t|
  {
    if t == [] {
      assert s + t == s;
    } else {
      var more := s + [t[0]];
      assert more[..|s|] == s;
      assert s + t == more + t[1..];
      ReadDigits(more, t[1..]);
    }
  }

  const MAX_INT := 0x7fff_ffff_ffff_ffff
  const MIN_INT := -0x8000_0000_0000_0000

  /** strconv.Atoi: an optional sign and at least one digit, within the range of int. */
  function Atoi(s: string): (n: Option<int>)
    ensures n.Some? ==> MIN_INT <= n.value <= MAX_INT
  {
    var digits := if s != [] && (s[0] == '+' || s[0] == '-') then s[1..] else s;
    if digits == [] || !AllDigits(digits) then None
    else
      var n: int := if s[0] == '-' then 0 - Denotes(digits) else Denotes(digits);
      if MIN_INT <= n <= MAX_INT then Some(n) else None
  }

  /** What an optional sign and digits read as, and that nothing else reads as a number. */
  lemma AtoiExactly(s: string)
    ensures Atoi(s).Some? <==> exists sign, digits :: Signed(s, sign, digits) && InInt(sign, Denotes(digits))
    ensures forall sign, digits | Signed(s, sign, digits) && InInt(sign, Denotes(digits)) ::
              Atoi(s) == Some(if sign == "-" then 0 - Denotes(digits) else Denotes(digits))
  {
    var digits := if s != [] && (s[0] == '+' || s[0] == '-') then s[1..] else s;
    forall sign, d | Signed(s, sign, d) ensures d == digits && (sign == "-" <==> s[0] == '-') {
      assert s == sign + d;
    }
    if digits != [] && AllDigits(digits) {
      var sign := if s[0] == '+' then "+" else if s[0] == '-' then "-" else "";
      assert s == sign + digits;
      assert Signed(s, sign, digits);
    }
  }

  ghost predicate Signed(s: string, sign: string, digits: string) {
    sign in {"", "+", "-"} && s == sign + digits && digits != "" && AllDigits(digits)
  }

  predicate InInt(sign: string, n: nat) {
    if sign == "-" then n <= 0x8000_0000_0000_0000 else n <= 0x7fff_ffff_ffff_ffff
  }

  /** Two's-complement wrap-around of a 64-bit int. */
  function Wrap(n: int): int {
    (n - MIN_INT) % 0x1_0000_0000_0000_0000 + MIN_INT
  }
}
