/** The generator's `ShuffleArray`: an in-place shuffle of the direction table.

    For `i` from `0` up to the table length, the generator draws
    `r = Random.Range(0, i + 1)`, a value in `[0, i]` because the upper bound
    is exclusive, and swaps entries `i` and `r`. The engine's random source is
    not modelled: the draws are an input sequence whose `k`-th element is the
    value of the `k`-th call.

    Besides being a permutation, the shuffle is a bijection between blocks of
    valid draws and orderings of the table: `Unshuffle` recovers the unique
    block that yields a given ordering.
 */
module Shuffle {

  /** `draws` can feed `n` steps of the shuffle: the `k`-th draw lies in `[0, k]`. */
  predicate ValidBlock(draws: seq<nat>, n: nat) {
    n <= |draws| && forall k | 0 <= k < n :: draws[k] <= k
  }

  /** No value occurs twice. */
  predicate Distinct<T(==)>(a: seq<T>) {
    forall i, j | 0 <= i < j < |a| :: a[i] != a[j]
  }

  /** The body of one shuffle step: `temp := a[i]; a[i] := a[j]; a[j] := temp`. */
  function Swap<T>(a: seq<T>, i: nat, j: nat): (r: seq<T>)
    requires i < |a| && j < |a|
    ensures |r| == |a| && r[i] == a[j] && r[j] == a[i]
    ensures forall k | 0 <= k < |a| && k != i && k != j :: r[k] == a[k]
    ensures multiset(r) == multiset(a)
  {
    a[i := a[j]][j := a[i]]
  }

  /** The table after the first `n` iterations of the shuffle loop. */
  function ShufflePrefix<T>(a: seq<T>, draws: seq<nat>, n: nat): (r: seq<T>)
    requires n <= |a| && ValidBlock(draws, n)
    ensures |r| == |a|
    ensures multiset(r) == multiset(a)
    ensures r[n..] == a[n..]
    ensures Distinct(a) ==> Distinct(r)
  {
    if n == 0 then a
    else Swap(ShufflePrefix(a, draws, n - 1), n - 1, draws[n - 1])
  }

  /** `ShuffleArray`: shuffles the whole table and returns the draws left
      in the stream; exactly one draw is consumed per entry. */
  function ShuffleArray<T>(a: seq<T>, draws: seq<nat>): (r: (seq<T>, seq<nat>))
    requires ValidBlock(draws, |a|)
    ensures |r.0| == |a| && multiset(r.0) == multiset(a)
    ensures r.1 == draws[|a|..] && |draws| - |r.1| == |a|
  {
    (ShufflePrefix(a, draws, |a|), draws[|a|..])
  }

  /** The first index at which `x` occurs in `s`. */
  function IndexOf<T(==)>(s: seq<T>, x: T): (i: nat)
    requires x in s
    ensures i < |s| && s[i] == x
    ensures forall k | 0 <= k < i :: s[k] != x
  {
    if s[0] == x then 0 else 1 + IndexOf(s[1..], x)
  }

  /** A table reachable from `a` by `n` shuffle steps: a permutation of `a`
      whose entries from `n` on are still in place. */
  predicate ReachableOrder<T(==)>(a: seq<T>, t: seq<T>, n: nat) {
    n <= |a| == |t| && multiset(t) == multiset(a) && t[n..] == a[n..]
  }

  /** Recovers, from an ordering `t`, the draws the shuffle must have made:
      step `n - 1` moved `a[n - 1]` to wherever it now sits. */
  function Unshuffle<T(==)>(a: seq<T>, t: seq<T>, n: nat): (draws: seq<nat>)
    requires Distinct(a) && ReachableOrder(a, t, n)
    ensures |draws| == n && ValidBlock(draws, n)
    decreases n
  {
    if n == 0 then []
    else
      assert a[n - 1] in multiset(t);
      var r := IndexOf(t, a[n - 1]);
      var s := Swap(t, n - 1, r);
      assert s[n - 1..] == a[n - 1..] by {
        forall k | n - 1 <= k < |a| ensures s[k] == a[k] {
          if k >= n {
            assert t[n..][k - n] == a[n..][k - n];
          }
        }
      }
      Unshuffle(a, s, n - 1) + [r]
  }

  /** One unfolding of `Unshuffle`. */
  lemma UnshuffleStep<T>(a: seq<T>, t: seq<T>, n: nat)
    requires Distinct(a) && ReachableOrder(a, t, n) && n > 0
    ensures a[n - 1] in t
    ensures IndexOf(t, a[n - 1]) < n
    ensures ReachableOrder(a, Swap(t, n - 1, IndexOf(t, a[n - 1])), n - 1)
    ensures Unshuffle(a, t, n)
         == Unshuffle(a, Swap(t, n - 1, IndexOf(t, a[n - 1])), n - 1) + [IndexOf(t, a[n - 1])]
  {
    assert a[n - 1] in multiset(t);
  }

  lemma IndexOfDistinct<T>(t: seq<T>, r: nat)
    requires Distinct(t) && r < |t|
    ensures IndexOf(t, t[r]) == r
  {
  }

  lemma TakeSnoc<T>(s: seq<T>, n: nat)
    requires 0 < n <= |s|
    ensures s[..n] == s[..n - 1] + [s[n - 1]]
  {
  }

  lemma SwapTwice<T>(a: seq<T>, i: nat, j: nat)
    requires i < |a| && j < |a|
    ensures Swap(Swap(a, i, j), i, j) == a
  {
    var b := Swap(Swap(a, i, j), i, j);
    assert forall k | 0 <= k < |a| :: b[k] == a[k];
  }

  /** Unshuffling a shuffle gives back the draws: different valid draw
      blocks never yield the same ordering of distinct entries. */
  lemma {:induction false} UnshuffleShuffle<T>(a: seq<T>, draws: seq<nat>, n: nat)
    requires Distinct(a) && n <= |a| && ValidBlock(draws, n)
    ensures ReachableOrder(a, ShufflePrefix(a, draws, n), n)
    ensures Unshuffle(a, ShufflePrefix(a, draws, n), n) == draws[..n]
  {
    if n > 0 {
      var s := ShufflePrefix(a, draws, n - 1);
      var t := ShufflePrefix(a, draws, n);
      var r := draws[n - 1];
      assert s[n - 1] == a[n - 1] by {
        assert s[n - 1..][0] == a[n - 1..][0];
      }
      assert t == Swap(s, n - 1, r);
      assert t[r] == a[n - 1];
      IndexOfDistinct(t, r);
      assert IndexOf(t, a[n - 1]) == r;
      SwapTwice(s, n - 1, r);
      assert Swap(t, n - 1, r) == s;
      UnshuffleShuffle(a, draws, n - 1);
      UnshuffleStep(a, t, n);
      assert ReachableOrder(a, s, n - 1);
      calc {
        Unshuffle(a, t, n);
        Unshuffle(a, Swap(t, n - 1, IndexOf(t, a[n - 1])), n - 1) + [IndexOf(t, a[n - 1])];
        Unshuffle(a, s, n - 1) + [r];
        draws[..n - 1] + [r];
        { TakeSnoc(draws, n); }
        draws[..n];
      }
    }
  }

  /** Shuffling with the recovered draws reproduces the ordering: every
      ordering of distinct entries is produced by some valid draw block. */
  lemma {:induction false} ShuffleUnshuffle<T>(a: seq<T>, t: seq<T>, n: nat)
    requires Distinct(a) && ReachableOrder(a, t, n)
    ensures ShufflePrefix(a, Unshuffle(a, t, n), n) == t
    decreases n
  {
    if n == 0 {
      assert t == t[0..] == a[0..] == a;
    } else {
      var draws := Unshuffle(a, t, n);
      var r := IndexOf(t, a[n - 1]);
      var s := Swap(t, n - 1, r);
      UnshuffleStep(a, t, n);
      assert ReachableOrder(a, s, n - 1);
      ShuffleUnshuffle(a, s, n - 1);
      var d := Unshuffle(a, s, n - 1);
      assert draws == d + [r];
      assert draws[..n - 1] == d == d[..n - 1];
      assert draws[n - 1] == r;
      PrefixOnly(a, draws, d, n - 1);
      SwapTwice(t, n - 1, r);
      calc {
        ShufflePrefix(a, draws, n);
        Swap(ShufflePrefix(a, draws, n - 1), n - 1, r);
        Swap(ShufflePrefix(a, d, n - 1), n - 1, r);
        Swap(s, n - 1, r);
        t;
      }
    }
  }

  /** A shuffle prefix depends only on the draws it consumes. */
  lemma {:induction false} PrefixOnly<T>(a: seq<T>, d1: seq<nat>, d2: seq<nat>, n: nat)
    requires n <= |a| && ValidBlock(d1, n) && ValidBlock(d2, n) && d1[..n] == d2[..n]
    ensures ShufflePrefix(a, d1, n) == ShufflePrefix(a, d2, n)
  {
    if n > 0 {
      assert d1[n - 1] == d1[..n][n - 1] == d2[..n][n - 1] == d2[n - 1];
      assert d1[..n - 1] == d1[..n][..n - 1];
      assert d2[..n - 1] == d2[..n][..n - 1];
      PrefixOnly(a, d1, d2, n - 1);
    }
  }

  /** Every ordering of distinct entries is produced by some valid block
      of draws: the one `Unshuffle` recovers. */
  lemma ShuffleOnto<T>(a: seq<T>, order: seq<T>)
    requires Distinct(a) && |order| == |a| && multiset(order) == multiset(a)
    ensures ReachableOrder(a, order, |a|)
    ensures ShufflePrefix(a, Unshuffle(a, order, |a|), |a|) == order
  {
    assert order[|a|..] == [] == a[|a|..];
    ShuffleUnshuffle(a, order, |a|);
  }

  /** Different valid blocks of draws never produce the same ordering of
      distinct entries: the block is recovered from the ordering. */
  lemma ShuffleInjective<T>(a: seq<T>, block: seq<nat>)
    requires Distinct(a) && |block| == |a| && ValidBlock(block, |a|)
    ensures Unshuffle(a, ShufflePrefix(a, block, |a|), |a|) == block
  {
    var n := |a|;
    UnshuffleShuffle(a, block, n);
    TakeAll(block);
  }

  /** A valid block of draws yields a given ordering of distinct entries
      exactly when it is the block `Unshuffle` recovers from it. */
  lemma ShuffleUnique<T>(a: seq<T>, order: seq<T>, block: seq<nat>)
    requires Distinct(a) && ReachableOrder(a, order, |a|)
    requires |block| == |a| && ValidBlock(block, |a|)
    ensures ShufflePrefix(a, block, |a|) == order <==> block == Unshuffle(a, order, |a|)
  {
    ShuffleUnshuffle(a, order, |a|);
    ShuffleInjective(a, block);
  }

  lemma TakeAll<T>(s: seq<T>)
    ensures s[..|s|] == s
  {
  }
}
