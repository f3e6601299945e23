/** Small facts about sequence slices, stated once so that proofs about hashes stay cheap. */
module Seqs {

  /** When s carries t between a and b, every slice of t is the matching slice of s. */
  lemma {:induction false} SliceWithin<T>(s: seq<T>, t: seq<T>, a: nat, b: nat, i: nat, j: nat)
    requires a <= b <= |s| && s[a..b] == t
    requires i <= j <= |t|
    ensures s[a + i .. a + j] == t[i..j]
  {
    forall n | 0 <= n < j - i
      ensures s[a + i .. a + j][n] == t[i..j][n]
    {
      assert s[a + i .. a + j][n] == s[a + i + n];
      assert t[i + n] == s[a..b][i + n];
    }
  }

  /** The first k + 1 elements are the first k followed by element k. */
  lemma {:induction false} TakeSnoc<T>(s: seq<T>, k: nat)
    requires k < |s|
    ensures s[..k] + [s[k]] == s[..k + 1]
  {
  }

  /** A concatenation splits back into its two parts at the first part's length. */
  lemma {:induction false} AppendParts<T>(a: seq<T>, b: seq<T>)
    ensures (a + b)[..|a|] == a && (a + b)[|a|..] == b
    ensures |b| >= 0 && (a + b)[..|a + b| - |b|] == a && (a + b)[|a + b| - |b|..] == b
  {
  }

  /** The last element of a sequence built by appending x is x. */
  lemma {:induction false} SnocLast<T>(s: seq<T>, p: seq<T>, x: T)
    requires s == p + [x]
    ensures |s| >= 1 && s[|s| - 1] == x
  {
  }
}
