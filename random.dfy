/**
 * The random source shared by the games. Every `Math.random()` call of the
 * source is one value of type `Unit`, a real in [0, 1) that the caller
 * supplies, and `Math.floor(Math.random() * n)` is `RandomInt(u, n)`.
 */
module Random {

  /** A value returned by `Math.random()`. */
  type Unit = u: real | 0.0 <= u < 1.0

  /** `u * n`, written as the sum of `n` copies of `u`. */
  function Scaled(u: Unit, n: nat): (x: real)
    ensures 0.0 <= x <= n as real
    ensures n > 0 ==> x < n as real
  {
    if n == 0 then 0.0 else Scaled(u, n - 1) + u
  }

  /** `Math.floor(u * n)`: a uniform index below `n`. */
  function RandomInt(u: Unit, n: nat): (k: nat)
    requires n > 0
    ensures k < n
  {
    Scaled(u, n).Floor
  }

  /** The sequence with the elements at `i` and `j` exchanged. */
  function SwapAt<T>(s: seq<T>, i: nat, j: nat): (r: seq<T>)
    requires i < |s| && j < |s|
    ensures |r| == |s| && r[i] == s[j] && r[j] == s[i]
    ensures forall k :: 0 <= k < |s| && k != i && k != j ==> r[k] == s[k]
    ensures multiset(r) == multiset(s)
  {
    var r := seq(|s|, k requires 0 <= k < |s| => if k == j then s[i] else if k == i then s[j] else s[k]);
    assert r == s[i := s[j]][j := s[i]];
    r
  }

  /** How many draws a Fisher-Yates shuffle of `n` elements consumes. */
  function ShuffleDraws(n: nat): nat
  {
    if n == 0 then 0 else n - 1
  }

  /**
   * The swap partners of the Fisher-Yates loop
   * `for (i = n - 1; i > 0; i--) { j = floor(random * (i + 1)); swap(i, j) }`
   * from index `i` down: the t-th draw picks a partner at most `i - t`.
   */
  function Partners(draws: seq<Unit>, i: nat): (js: seq<nat>)
    requires |draws| == i
    ensures |js| == i && forall t :: 0 <= t < i ==> js[t] <= i - t
    decreases i
  {
    if i == 0 then [] else [RandomInt(draws[0], i + 1)] + Partners(draws[1..], i - 1)
  }

  /** The swaps of the loop from index `i` down, with partners `js`. */
  function SwapDown<T>(s: seq<T>, i: nat, js: seq<nat>): seq<T>
    requires i < |s| && |js| == i && forall t :: 0 <= t < i ==> js[t] <= i - t
    decreases i
  {
    if i == 0 then s else SwapDown(SwapAt(s, i, js[0]), i - 1, js[1..])
  }

  /** The Fisher-Yates loop from index `i` down, consuming `draws` from the front. */
  function ShuffleFrom<T>(s: seq<T>, i: nat, draws: seq<Unit>): seq<T>
    requires i < |s| && |draws| == i
  {
    SwapDown(s, i, Partners(draws, i))
  }

  /** The shuffle of the whole sequence. */
  function Shuffled<T>(s: seq<T>, draws: seq<Unit>): seq<T>
    requires |draws| == ShuffleDraws(|s|)
  {
    if |s| == 0 then s else ShuffleFrom(s, |s| - 1, draws)
  }

  /** One turn of the loop: swap at `i` with the partner of the first draw, then go on from `i - 1`. */
  lemma ShuffleFromStep<T>(s: seq<T>, i: nat, draws: seq<Unit>)
    requires 0 < i < |s| && |draws| == i
    ensures ShuffleFrom(s, i, draws)
         == ShuffleFrom(SwapAt(s, i, RandomInt(draws[0], i + 1)), i - 1, draws[1..])
  {
    var js := Partners(draws, i);
    assert js[1..] == Partners(draws[1..], i - 1);
  }

  lemma {:induction false} SwapDownIsPermutation<T>(s: seq<T>, i: nat, js: seq<nat>)
    requires i < |s| && |js| == i && forall t :: 0 <= t < i ==> js[t] <= i - t
    ensures |SwapDown(s, i, js)| == |s|
    ensures multiset(SwapDown(s, i, js)) == multiset(s)
    decreases i
  {
    if i > 0 {
      var s' := SwapAt(s, i, js[0]);
      SwapDownIsPermutation(s', i - 1, js[1..]);
    }
  }

  /** A shuffle only reorders: same length, same multiset of elements. */
  lemma ShuffledIsPermutation<T>(s: seq<T>, draws: seq<Unit>)
    requires |draws| == ShuffleDraws(|s|)
    ensures |Shuffled(s, draws)| == |s|
    ensures multiset(Shuffled(s, draws)) == multiset(s)
  {
    if |s| > 0 {
      SwapDownIsPermutation(s, |s| - 1, Partners(draws, |s| - 1));
    }
  }

  /** No element occurs twice. */
  predicate Distinct<T(==)>(s: seq<T>)
  {
    forall i, j :: 0 <= i < j < |s| ==> s[i] != s[j]
  }

  /** Two sequences without repetitions and without common elements concatenate to one. */
  lemma DistinctConcat<T>(a: seq<T>, b: seq<T>)
    requires Distinct(a) && Distinct(b) && forall x :: x in a ==> x !in b
    ensures Distinct(a + b)
  {
    forall i, j | 0 <= i < j < |a + b| ensures (a + b)[i] != (a + b)[j] {
      if j < |a| {
        assert (a + b)[i] == a[i] && (a + b)[j] == a[j];
      } else if i >= |a| {
        assert (a + b)[i] == b[i - |a|] && (a + b)[j] == b[j - |a|];
      } else {
        assert (a + b)[i] == a[i] && (a + b)[j] == b[j - |a|];
        assert a[i] in a && b[j - |a|] in b;
      }
    }
  }

  /** A prefix of a sequence without repetitions has none, and misses the elements after it. */
  lemma DistinctPrefix<T>(s: seq<T>, n: nat)
    requires Distinct(s) && n <= |s|
    ensures Distinct(s[..n]) && forall k :: n <= k < |s| ==> s[k] !in s[..n]
  {
  }

  /** A permutation of a sequence without repetitions has none either. */
  lemma PermutationKeepsDistinct<T>(s: seq<T>, t: seq<T>)
    requires Distinct(s) && multiset(s) == multiset(t)
    ensures Distinct(t)
  {
    forall i, j | 0 <= i < j < |t| ensures t[i] != t[j] {
      if t[i] == t[j] {
        assert multiset(t)[t[i]] >= 2 by {
          assert t == t[..j] + t[j..];
          assert t[..j][i] == t[i] && t[j..][0] == t[j];
        }
        DistinctOccursOnce(s, t[i]);
        assert false;
      }
    }
  }

  lemma {:induction false} DistinctOccursOnce<T>(s: seq<T>, x: T)
    requires Distinct(s)
    ensures multiset(s)[x] <= 1
  {
    if |s| > 0 {
      assert s == [s[0]] + s[1..];
      assert Distinct(s[1..]) by {
        forall i, j | 0 <= i < j < |s[1..]| ensures s[1..][i] != s[1..][j] {
          assert s[1..][i] == s[i + 1] && s[1..][j] == s[j + 1];
        }
      }
      DistinctOccursOnce(s[1..], x);
      if s[0] == x {
        assert x !in s[1..] by {
          forall k | 0 <= k < |s[1..]| ensures s[1..][k] != x {
            assert s[1..][k] == s[k + 1];
          }
        }
      }
    }
  }

  /** A sequence without repetitions has as many elements as its set. */
  lemma {:induction false} DistinctCardinality<T>(s: seq<T>)
    requires Distinct(s)
    ensures |set x | x in s| == |s|
  {
    if |s| > 0 {
      var t := s[..|s| - 1];
      assert Distinct(t) by {
        forall i, j | 0 <= i < j < |t| ensures t[i] != t[j] {
          assert t[i] == s[i] && t[j] == s[j];
        }
      }
      DistinctCardinality(t);
      assert s == t + [s[|s| - 1]];
      assert s[|s| - 1] !in t;
      assert (set x | x in s) == (set x | x in t) + {s[|s| - 1]};
    }
  }
}
