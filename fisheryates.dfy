/** The Fisher-Yates shuffle that puts the gallery's images in a random
    display order. `Math.random()` is replaced by a sequence of draws, each a
    real number in `[0, 1)` as JavaScript promises; the draws are consumed
    in order, one per loop iteration. Iteration `k` handles position
    `n - 1 - k` and swaps it with the partner its draw selects. */
module FisherYates {

  /** What `Math.random()` may return. */
  predicate ValidDraws(draws: seq<real>) {
    forall k :: 0 <= k < |draws| ==> 0.0 <= draws[k] < 1.0
  }

  /** `Math.floor(r * (i + 1))`: the swap partner for position `i`. */
  function Pick(r: real, i: nat): (j: int)
    requires 0.0 <= r < 1.0
    ensures 0 <= j <= i
  {
    ScaledBelow(r, (i + 1) as real);
    (r * (i + 1) as real).Floor
  }

  lemma ScaledBelow(r: real, n: real)
    requires 0.0 <= r < 1.0 && 0.0 < n
    ensures 0.0 <= r * n < n
  {
    assert (1.0 - r) * n > 0.0;
    assert (1.0 - r) * n == n - r * n;
  }

  /** Choosing the draw `j / (i + 1)` makes the swap partner exactly `j`, so
      any partner in `[0, i]` can come up. */
  lemma {:induction false} DrawForPartner(i: nat, j: nat)
    requires j <= i
    ensures 0.0 <= j as real / (i + 1) as real < 1.0
    ensures Pick(j as real / (i + 1) as real, i) == j
  {
    var r := j as real / (i + 1) as real;
    assert r * (i + 1) as real == j as real;
  }

  /** Swap partners indexed by position: position `i` is exchanged with
      `partners[i]`, which lies in `[0, i]` (position 0 is never visited). */
  predicate Fits(partners: seq<int>) {
    forall i :: 0 <= i < |partners| ==> 0 <= partners[i] <= i
  }

  /** The partners the draws select when shuffling `n` elements: the loop
      visits position `i` in iteration `n - 1 - i`. */
  function Partners(draws: seq<real>, n: nat): (partners: seq<int>)
    requires ValidDraws(draws) && n - 1 <= |draws|
    ensures |partners| == n && Fits(partners)
  {
    seq(n, i requires 0 <= i < n => if i == 0 then 0 else Pick(draws[n - 1 - i], i))
  }

  /** Exchanging two positions of a sequence. */
  function Swap<T>(s: seq<T>, i: nat, j: nat): (r: seq<T>)
    requires i < |s| && j < |s|
    ensures |r| == |s| && r[i] == s[j] && r[j] == s[i]
    ensures forall m :: 0 <= m < |s| && m != i && m != j ==> r[m] == s[m]
  {
    s[i := s[j]][j := s[i]]
  }

  /** A swap keeps the multiset of elements. */
  lemma SwapPermutes<T>(s: seq<T>, i: nat, j: nat)
    requires i < |s| && j < |s|
    ensures multiset(Swap(s, i, j)) == multiset(s)
  {
  }

  /** The loop iterations for positions `i`, `i - 1`, ..., `1`; at `i <= 0`
      the loop has finished. */
  function ShuffleFrom<T>(s: seq<T>, i: int, partners: seq<int>): (r: seq<T>)
    requires i < |s| && i < |partners| && Fits(partners)
    ensures |r| == |s|
    decreases i
  {
    if i <= 0 then s
    else ShuffleFrom(Swap(s, i, partners[i]), i - 1, partners)
  }

  /** The partner the loop uses for position `i` is the one the draw of that
      iteration selects. */
  lemma PartnerAt(draws: seq<real>, n: nat, i: int)
    requires ValidDraws(draws) && n - 1 <= |draws| && 0 < i < n
    ensures Partners(draws, n)[i] == Pick(draws[n - 1 - i], i)
  {
  }

  /** One loop iteration: swap position `i` with its partner, then go on with `i - 1`. */
  lemma ShuffleStep<T>(s: seq<T>, i: int, partners: seq<int>)
    requires 0 < i < |s| && i < |partners| && Fits(partners)
    ensures ShuffleFrom(s, i, partners) == ShuffleFrom(Swap(s, i, partners[i]), i - 1, partners)
  {
  }

  /** `shuffleImages`: the whole loop, from the last position down to 1. */
  function Shuffle<T>(s: seq<T>, draws: seq<real>): (r: seq<T>)
    requires ValidDraws(draws) && |s| - 1 <= |draws|
  {
    ShuffleFrom(s, |s| - 1, Partners(draws, |s|))
  }

  /** The result is a rearrangement of the input: same length, same multiset
      of elements, nothing duplicated or lost. */
  lemma ShuffleIsPermutation<T>(s: seq<T>, draws: seq<real>)
    requires ValidDraws(draws) && |s| - 1 <= |draws|
    ensures |Shuffle(s, draws)| == |s|
    ensures multiset(Shuffle(s, draws)) == multiset(s)
  {
    ShuffleFromIsPermutation(s, |s| - 1, Partners(draws, |s|));
  }

  /** Each iteration only exchanges two elements, so every stage of the loop
      is a rearrangement of its input. */
  lemma {:induction false} ShuffleFromIsPermutation<T>(s: seq<T>, i: int, partners: seq<int>)
    requires i < |s| && i < |partners| && Fits(partners)
    ensures multiset(ShuffleFrom(s, i, partners)) == multiset(s)
    decreases i
  {
    if 0 < i {
      SwapPermutes(s, i, partners[i]);
      ShuffleFromIsPermutation(Swap(s, i, partners[i]), i - 1, partners);
    } else {
      assert ShuffleFrom(s, i, partners) == s;
    }
  }

  /** For zero or one image the loop body never runs. */
  lemma ShortInputUnchanged<T>(s: seq<T>, draws: seq<real>)
    requires ValidDraws(draws) && |s| <= 1
    ensures Shuffle(s, draws) == s
  {
  }

  /** Once the loop has passed a position it never touches it again: every
      position above `i` keeps what it held when the loop reached `i`. */
  lemma {:induction false} PassedPositionsFinal<T>(s: seq<T>, i: int, partners: seq<int>, m: int)
    requires i < |s| && i < |partners| && Fits(partners)
    requires 0 <= m < |s| && i < m
    ensures ShuffleFrom(s, i, partners)[m] == s[m]
    decreases i
  {
    if 0 < i {
      var j := partners[i];
      assert j <= i;
      var t := Swap(s, i, j);
      assert t[m] == s[m];
      assert ShuffleFrom(s, i, partners) == ShuffleFrom(t, i - 1, partners);
      PassedPositionsFinal(t, i - 1, partners, m);
    } else {
      assert ShuffleFrom(s, i, partners) == s;
    }
  }

  /** The shuffle only reads the partners of the positions it visits. */
  lemma {:induction false} OnlyVisitedPartners<T>(s: seq<T>, i: int, p: seq<int>, q: seq<int>)
    requires i < |s| && i < |p| && i < |q| && Fits(p) && Fits(q)
    requires forall k :: 0 < k <= i ==> p[k] == q[k]
    ensures ShuffleFrom(s, i, p) == ShuffleFrom(s, i, q)
    decreases i
  {
    if 0 < i {
      OnlyVisitedPartners(Swap(s, i, p[i]), i - 1, p, q);
    } else {
      assert ShuffleFrom(s, i, p) == s;
      assert ShuffleFrom(s, i, q) == s;
    }
  }

  /** The first position of `s` holding `x`. */
  function IndexOf<T(==)>(s: seq<T>, x: T): (k: nat)
    requires x in s
    ensures k < |s| && s[k] == x
  {
    if s[0] == x then 0 else 1 + IndexOf(s[1..], x)
  }

  /** A swap of two positions inside a prefix keeps the prefix's multiset. */
  lemma SwapInPrefix<T>(s: seq<T>, i: nat, j: nat)
    requires j <= i < |s|
    ensures multiset(Swap(s, i, j)[..i + 1]) == multiset(s[..i + 1])
  {
    assert Swap(s, i, j)[..i + 1] == Swap(s[..i + 1], i, j);
    SwapPermutes(s[..i + 1], i, j);
  }

  /** Bringing `t[i]` to position `i` with one swap inside the prefix leaves a
      smaller instance of the same problem: the prefix below `i` still holds
      the same elements as `t`'s. */
  lemma {:induction false} SwapTowards<T>(s: seq<T>, t: seq<T>, i: int, j: nat)
    requires |s| == |t| && 0 < i < |s| && j <= i && s[j] == t[i]
    requires multiset(s[..i + 1]) == multiset(t[..i + 1])
    ensures multiset(Swap(s, i, j)[..i]) == multiset(t[..i])
  {
    var next := Swap(s, i, j);
    SwapInPrefix(s, i, j);
    var x := multiset{t[i]};
    assert t[..i + 1] == t[..i] + [t[i]];
    assert next[..i + 1] == next[..i] + [t[i]];
    assert multiset(next[..i]) + x == multiset(t[..i]) + x;
    assert multiset(next[..i]) == multiset(next[..i]) + x - x;
    assert multiset(t[..i]) == multiset(t[..i]) + x - x;
  }

  /** After that swap `s` agrees with `t` from position `i` on. */
  lemma SwapKeepsAgreement<T>(s: seq<T>, t: seq<T>, i: int, j: nat)
    requires |s| == |t| && 0 < i < |s| && j <= i && s[j] == t[i]
    requires forall k :: i < k < |s| ==> s[k] == t[k]
    ensures forall k :: i - 1 < k < |s| ==> Swap(s, i, j)[k] == t[k]
  {
  }

  /** With one position left the prefix facts pin the whole sequence. */
  lemma OneLeftToPlace<T>(s: seq<T>, t: seq<T>)
    requires |s| == |t| && 0 < |s|
    requires forall k :: 0 < k < |s| ==> s[k] == t[k]
    requires multiset(s[..1]) == multiset(t[..1])
    ensures s == t
  {
    assert s[..1] == [s[0]];
    assert t[..1] == [t[0]];
    assert s[0] in multiset(t[..1]);
  }

  /** Partners that take `s` to `t` when the positions above `i` already agree
      and the positions up to `i` hold the same elements in some order. */
  lemma {:induction false} PartnersReaching<T>(s: seq<T>, t: seq<T>, i: int) returns (partners: seq<int>)
    requires |s| == |t| && -1 <= i < |s|
    requires forall k :: i < k < |s| ==> s[k] == t[k]
    requires multiset(s[..i + 1]) == multiset(t[..i + 1])
    ensures |partners| == i + 1 && Fits(partners) && (0 <= i ==> partners[0] == 0)
    ensures ShuffleFrom(s, i, partners) == t
    decreases i
  {
    if i == 0 {
      OneLeftToPlace(s, t);
      partners := [0];
      assert ShuffleFrom(s, i, partners) == s;
    } else if i < 0 {
      assert s == t;
      partners := [];
      assert ShuffleFrom(s, i, partners) == s;
    } else {
      assert t[..i + 1] == t[..i] + [t[i]];
      assert t[i] in multiset(s[..i + 1]);
      var j := IndexOf(s[..i + 1], t[i]);
      SwapTowards(s, t, i, j);
      var next := Swap(s, i, j);
      SwapKeepsAgreement(s, t, i, j);
      var rest := PartnersReaching(next, t, i - 1);
      partners := rest + [j];
      OnlyVisitedPartners(next, i - 1, partners, rest);
      ShuffleStep(s, i, partners);
    }
  }

  /** Draws that make the loop pick the given partners: the iteration for
      position `i` draws `partners[i] / (i + 1)`. */
  function DrawsFor(partners: seq<int>): seq<real> {
    var n := |partners|;
    seq(if n == 0 then 0 else n - 1,
        k requires 0 <= k < n - 1 => partners[n - 1 - k] as real / (n - k) as real)
  }

  /** Any partners that fit can be drawn: the draws above are valid and select
      exactly them. */
  lemma {:induction false} DrawsSelectPartners(partners: seq<int>)
    requires Fits(partners) && (0 < |partners| ==> partners[0] == 0)
    ensures ValidDraws(DrawsFor(partners)) && |partners| - 1 <= |DrawsFor(partners)|
    ensures Partners(DrawsFor(partners), |partners|) == partners
  {
    var n, draws := |partners|, DrawsFor(partners);
    forall k | 0 <= k < |draws|
      ensures 0.0 <= draws[k] < 1.0
      ensures Pick(draws[k], n - 1 - k) == partners[n - 1 - k]
    {
      DrawForPartner(n - 1 - k, partners[n - 1 - k]);
    }
    var chosen := Partners(draws, n);
    forall i | 0 < i < n
      ensures chosen[i] == partners[i]
    {
      PartnerAt(draws, n, i);
    }
  }

  /** A permutation has the length of the original. */
  lemma PermutationLength<T>(s: seq<T>, t: seq<T>)
    requires multiset(s) == multiset(t)
    ensures |s| == |t|
  {
    assert |s| == |multiset(s)|;
  }

  /** Partners that take `s` to any permutation `t` of it. */
  lemma PartnersForPermutation<T>(s: seq<T>, t: seq<T>) returns (partners: seq<int>)
    requires multiset(s) == multiset(t)
    ensures |s| == |t| == |partners| && Fits(partners) && (0 < |s| ==> partners[0] == 0)
    ensures ShuffleFrom(s, |s| - 1, partners) == t
  {
    PermutationLength(s, t);
    assert s[..|s|] == s;
    assert t[..|t|] == t;
    partners := PartnersReaching(s, t, |s| - 1);
  }

  /** Every rearrangement of the images is a possible display order: for each
      permutation `t` of `s` some sequence of `Math.random()` results makes
      the shuffle produce `t`. With `ShuffleIsPermutation`, the orders the
      shuffle can produce are exactly the permutations of its input. */
  lemma {:induction false} EveryOrderReachable<T>(s: seq<T>, t: seq<T>)
    requires multiset(s) == multiset(t)
    ensures exists draws :: ValidDraws(draws) && |s| - 1 <= |draws| && Shuffle(s, draws) == t
  {
    var partners := PartnersForPermutation(s, t);
    DrawsSelectPartners(partners);
    var draws := DrawsFor(partners);
    assert ValidDraws(draws) && |s| - 1 <= |draws| && Shuffle(s, draws) == t;
  }
}
