/** Strictly increasing sequences, and slices. */
module Sequences {

  ghost predicate Increasing(s: seq<nat>) {
    forall a, b :: 0 <= a < b < |s| ==> s[a] < s[b]
  }

  lemma Prepend(i: nat, s: seq<nat>)
    requires Increasing(s) && forall c :: c in s ==> i < c
    ensures Increasing([i] + s)
  {
    forall a, b | 0 <= a < b < |[i] + s|
      ensures ([i] + s)[a] < ([i] + s)[b]
    {
      assert ([i] + s)[b] == s[b - 1];
      assert s[b - 1] in s;
    }
  }

  lemma Append(s: seq<nat>, i: nat)
    requires Increasing(s) && forall k :: k in s ==> k < i
    ensures Increasing(s + [i])
    ensures forall k :: k in s + [i] <==> k in s || k == i
  {
    forall a | 0 <= a < |s|
      ensures s[a] < i
    {
      assert s[a] in s;
    }
  }

  /** A slice of a slice. */
  lemma Within<T>(s: seq<T>, at: nat, n: nat, i: nat, j: nat)
    requires at + n <= |s| && i <= j <= n
    ensures s[at..at + n][i..j] == s[at + i..at + j]
  {
    var t := s[at..at + n];
    forall k | 0 <= k < j - i
      ensures t[i..j][k] == s[at + i..at + j][k]
    {
      assert t[i + k] == s[at + (i + k)];
    }
  }

  /** The middle of three parts. */
  lemma Middle<T>(s: seq<T>, a: seq<T>, b: seq<T>, c: seq<T>)
    requires s == a + b + c
    ensures s[|a|..|a| + |b|] == b
  {
  }
}
