/** One sequence read off another by deleting elements. */
module Subsequence {

  /** `f` lists, in increasing order, where the elements of `t` sit in `s`. */
  ghost predicate Embeds<T>(t: seq<T>, s: seq<T>, f: seq<nat>) {
    && |f| == |t|
    && (forall k | 0 <= k < |t| :: f[k] < |s| && t[k] == s[f[k]])
    && (forall j, k | 0 <= j < k < |t| :: f[j] < f[k])
  }

  ghost predicate Subseq<T>(t: seq<T>, s: seq<T>) {
    exists f :: Embeds(t, s, f)
  }

  lemma Transitive<T>(a: seq<T>, b: seq<T>, c: seq<T>)
    requires Subseq(a, b) && Subseq(b, c)
    ensures Subseq(a, c)
  {
    var f :| Embeds(a, b, f);
    var g :| Embeds(b, c, g);
    var h := seq(|a|, k requires 0 <= k < |a| => g[f[k]]);
    assert Embeds(a, c, h);
  }

  lemma Slice<T>(s: seq<T>, i: nat, j: nat)
    requires i <= j <= |s|
    ensures Subseq(s[i..j], s)
  {
    var f := seq(j - i, k requires 0 <= k < j - i => i + k);
    assert Embeds(s[i..j], s, f);
  }

  lemma Reflexive<T>(s: seq<T>)
    ensures Subseq(s, s)
  {
    Slice(s, 0, |s|);
    assert s[0..|s|] == s;
  }

  lemma Concat<T>(a: seq<T>, s: seq<T>, b: seq<T>, t: seq<T>)
    requires Subseq(a, s) && Subseq(b, t)
    ensures Subseq(a + b, s + t)
  {
    var f :| Embeds(a, s, f);
    var g :| Embeds(b, t, g);
    var h := f + seq(|b|, k requires 0 <= k < |b| => |s| + g[k]);
    assert Embeds(a + b, s + t, h);
  }

  /** Deleting the stretch from `i` to `j`. */
  lemma Deletion<T>(s: seq<T>, i: nat, j: nat)
    requires i <= j <= |s|
    ensures Subseq(s[..i] + s[j..], s)
  {
    Slice(s, 0, i);
    Slice(s, j, |s|);
    var f := seq(i, k requires 0 <= k < i => k) + seq(|s| - j, k requires 0 <= k < |s| - j => j + k);
    assert Embeds(s[..i] + s[j..], s, f);
  }
}
