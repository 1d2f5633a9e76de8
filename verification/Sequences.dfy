/** Slices and concatenations of sequences. */
module Sequences {

  lemma Assoc<T>(a: seq<T>, b: seq<T>, c: seq<T>)
    ensures a + b + c == a + (b + c)
  {
  }

  lemma CutHere<T>(s: seq<T>, i: nat)
    requires i <= |s|
    ensures s == s[..i] + s[i..]
  {
  }

  lemma Slice<T>(s: seq<T>, i: nat, a: nat, b: nat)
    requires a <= b && i + b <= |s|
    ensures s[i..][a..b] == s[i + a..i + b]
  {
  }

  lemma SliceIn<T>(s: seq<T>, i: nat, j: nat, a: nat, b: nat)
    requires a <= b && i + b <= j <= |s|
    ensures s[i..j][a..b] == s[i + a..i + b]
  {
    forall k | 0 <= k < b - a
      ensures s[i..j][a..b][k] == s[i + a..i + b][k]
    {
      assert s[i..j][a..b][k] == s[i..j][a + k] == s[i + a + k];
    }
  }

  lemma Element<T>(s: seq<T>, i: nat, k: nat)
    requires i + k < |s|
    ensures s[i..][k] == s[i + k]
  {
  }

  /** The three parts of a concatenation. */
  lemma Middle<T>(p: seq<T>, m: seq<T>, q: seq<T>)
    ensures (p + m + q)[..|p|] == p && (p + m + q)[|p|..|p| + |m|] == m && (p + m + q)[|p| + |m|..] == q && (p + m + q)[|p|..] == m + q
  {
  }

  lemma HeadTail<T>(s: seq<T>, i: nat, n: nat)
    requires i + 1 + n <= |s|
    ensures s[i..i + 1 + n] == [s[i]] + s[i..][1..][..n]
  {
  }

  /** Behind a replaced stretch. */
  lemma Spliced<T>(s: seq<T>, a: nat, b: nat, x: seq<T>, m: nat)
    requires a <= b <= m <= |s|
    ensures var s' := s[..a] + x + s[b..];
      var m': nat := a + |x| + (m - b);
      m' <= |s'| && s' == s'[..m'] + s[m..] && s == s[..m] + s[m..] && s'[m'..] == s[m..]
  {
  }

  /** What a prefix ends with. */
  lemma PrefixCut<T>(s: seq<T>, a: nat, b: nat, v: seq<T>)
    requires a <= |s| && b <= |s| && s[..b] == s[..a] + v
    ensures a <= b && s[a..b] == v
  {
  }

  /** A head, what it encloses, and a last element. */
  lemma Framed<T>(s: seq<T>, h: nat)
    requires h < |s|
    ensures s == s[..h] + s[h..|s| - 1] + [s[|s| - 1]]
  {
  }
}
