/**
 * `body.match(/.{1,1000}/gs) || []`: the cleaned body is cut, left to right,
 * into greedy pieces of at most 1000 characters; with the `s` flag `.` also
 * matches line terminators, so nothing is skipped. An empty body matches
 * nothing and gives no pieces.
 */
module Chunker {

  /** The piece size index.js uses. */
  const ChunkLimit: nat := 1000

  /** The pieces glued back together, in order. */
  function Concat(xs: seq<string>): string
  {
    if xs == [] then "" else xs[0] + Concat(xs[1..])
  }

  /** The greedy split of `s` into pieces of at most `n` characters. */
  function Chunks(s: string, n: nat): (r: seq<string>)
    requires n > 0
    ensures Concat(r) == s
    ensures forall i :: 0 <= i < |r| ==> 0 < |r[i]| <= n
    ensures forall i :: 0 <= i < |r| - 1 ==> |r[i]| == n
    ensures r == [] <==> s == []
    decreases |s|
  {
    if s == [] then []
    else if |s| <= n then [s]
    else
      var rest := Chunks(s[n..], n);
      assert Concat([s[..n]] + rest) == s[..n] + Concat(rest);
      [s[..n]] + rest
  }

  /** The number of pieces is the length divided by `n`, rounded up. */
  lemma {:induction false} ChunksCount(s: string, n: nat)
    requires n > 0
    ensures (|Chunks(s, n)| - 1) * n < |s| <= |Chunks(s, n)| * n
    decreases |s|
  {
    if |s| > n {
      var m := |Chunks(s[n..], n)|;
      ChunksCount(s[n..], n);
      assert |Chunks(s, n)| == m + 1;
      assert (m - 1) * n + n == m * n;
      assert m * n + n == (m + 1) * n;
    }
  }

  /**
   * The greedy split is the only split whose pieces are non-empty, at most
   * `n` long, exactly `n` long except for the last one, and glue back to `s`.
   */
  lemma {:induction false} ChunksUnique(s: string, n: nat, xs: seq<string>)
    requires n > 0
    requires Concat(xs) == s
    requires forall i :: 0 <= i < |xs| ==> 0 < |xs[i]| <= n
    requires forall i :: 0 <= i < |xs| - 1 ==> |xs[i]| == n
    ensures xs == Chunks(s, n)
    decreases |xs|
  {
    if xs == [] {
    } else if |xs| == 1 {
      assert Concat(xs[1..]) == "";
      assert s == xs[0];
    } else {
      var tail := xs[1..];
      assert |Concat(tail)| >= |tail[0]| > 0 by {
        assert Concat(tail) == tail[0] + Concat(tail[1..]);
      }
      assert s == xs[0] + Concat(tail);
      assert |xs[0]| == n;
      assert s[..n] == xs[0];
      assert s[n..] == Concat(tail);
      ChunksUnique(s[n..], n, tail);
      assert xs == [xs[0]] + tail;
    }
  }
}
