/** Cutting a flat sequence into consecutive pieces of a fixed size, the
    `[s[i:i+n] for i in range(0, len(s), n)]` idiom that the codec uses both
    to regroup extracted bits into characters (n = 8) and to regroup carrier
    bytes into RGB pixels (n = 3). The last piece may be shorter than n. */
module Chunking {

  function Min(a: int, b: int): int { if a <= b then a else b }

  /** The consecutive pieces of `s`, each of length `n` except possibly the last. */
  function Chunks<T>(s: seq<T>, n: nat): (r: seq<seq<T>>)
    requires n > 0
    ensures (|r| - 1) * n < |s| <= |r| * n
    ensures forall k :: 0 <= k < |r| ==> 0 < |r[k]| <= n
    decreases |s|
  {
    if |s| == 0 then []
    else if |s| <= n then [s]
    else [s[..n]] + Chunks(s[n..], n)
  }

  /** Concatenation of a sequence of pieces, in order. */
  function Flatten<T>(ss: seq<seq<T>>): seq<T>
  {
    if ss == [] then [] else ss[0] + Flatten(ss[1..])
  }

  /** Piece `k` is the slice of `s` that starts at `k * n`. */
  lemma {:induction false} ChunkAt<T>(s: seq<T>, n: nat, k: nat)
    requires n > 0 && k < |Chunks(s, n)|
    ensures k * n < |s|
    ensures Chunks(s, n)[k] == s[k * n .. Min(k * n + n, |s|)]
    decreases |s|
  {
    if k > 0 {
      var j := (k - 1) * n;
      ChunkAt(s[n..], n, k - 1);
      assert j + n == k * n;
      SliceOfSuffix(s, n, j, Min(j + n, |s| - n));
    }
  }

  lemma SliceOfSuffix<T>(s: seq<T>, a: nat, i: nat, j: nat)
    requires a <= |s| && i <= j <= |s| - a
    ensures s[a..][i .. j] == s[a + i .. a + j]
  {
  }

  /** Cutting loses and reorders nothing: flattening the pieces gives `s` back. */
  lemma {:induction false} FlattenChunks<T>(s: seq<T>, n: nat)
    requires n > 0
    ensures Flatten(Chunks(s, n)) == s
    decreases |s|
  {
    if |s| > n {
      FlattenChunks(s[n..], n);
      assert s == s[..n] + s[n..];
    }
  }

  lemma SliceOfLeft<T>(a: seq<T>, b: seq<T>, i: nat, j: nat)
    requires i <= j <= |a|
    ensures (a + b)[i .. j] == a[i .. j]
  {
  }

  lemma SliceOfRight<T>(a: seq<T>, b: seq<T>, i: nat, j: nat)
    requires i <= j <= |b|
    ensures (a + b)[|a| + i .. |a| + j] == b[i .. j]
  {
  }

  lemma SplitThree<T>(s: seq<T>, i: nat, j: nat)
    requires i <= j <= |s|
    ensures s == (s[..i] + s[i .. j]) + s[j..]
  {
  }
}
