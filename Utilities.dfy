/** The in-place Fisher–Yates shuffle of app.js (`shuffle`), with the
    random source made explicit: the values `Math.random()` would return,
    in the order the loop asks for them, are passed in as `rand`. */
module Utilities {

  /** Every value is a possible result of `Math.random()`: in [0, 1). */
  ghost predicate ValidRandoms(rand: seq<real>) {
    forall k :: 0 <= k < |rand| ==> 0.0 <= rand[k] < 1.0
  }

  /** The swap partner `Math.floor(Math.random() * (i + 1))` chosen for position `i`. */
  function Partner(r: real, i: nat): (j: nat)
    requires 0.0 <= r < 1.0
    ensures j <= i
  {
    ScaledBelow(r, i + 1);
    (r * (i + 1) as real).Floor
  }

  /** A value in [0, 1) scaled by a positive count `n` lies in [0, n). */
  lemma {:induction false} ScaledBelow(r: real, n: nat)
    requires 0.0 <= r < 1.0 && n >= 1
    ensures 0.0 <= r * n as real < n as real
  {
    if n > 1 {
      ScaledBelow(r, n - 1);
      assert r * n as real == r * (n - 1) as real + r;
    }
  }

  /** `s` with the elements at `i` and `j` exchanged. */
  function Swap(s: seq<int>, i: nat, j: nat): (r: seq<int>)
    requires i < |s| && j < |s|
    ensures |r| == |s| && r[i] == s[j] && r[j] == s[i]
    ensures forall k :: 0 <= k < |s| && k != i && k != j ==> r[k] == s[k]
  {
    s[i := s[j]][j := s[i]]
  }

  /** The loop of the shuffle run from position `i` down to 1, as a function:
      position `i` uses the first of the remaining random values `rand`. */
  function ShuffleFrom(s: seq<int>, rand: seq<real>, i: int): (r: seq<int>)
    requires i < |s| && i <= |rand| && ValidRandoms(rand)
    ensures |r| == |s|
    decreases i
  {
    if i <= 0 then s
    else ShuffleFrom(Swap(s, i, Partner(rand[0], i)), rand[1..], i - 1)
  }

  /** `shuffle` on a value: the result of shuffling `s` when `Math.random()`
      returns the values of `rand` in turn. */
  function Shuffled(s: seq<int>, rand: seq<real>): (r: seq<int>)
    requires |s| <= |rand| + 1 && ValidRandoms(rand)
    ensures |r| == |s|
  {
    ShuffleFrom(s, rand, |s| - 1)
  }

  lemma SwapPermutes(s: seq<int>, i: nat, j: nat)
    requires i < |s| && j < |s|
    ensures multiset(Swap(s, i, j)) == multiset(s)
  {
    if i != j {
      var t := s[i := s[j]];
      assert multiset(t) == multiset(s) - multiset{s[i]} + multiset{s[j]};
      assert multiset(t[j := s[i]]) == multiset(t) - multiset{t[j]} + multiset{s[i]};
    }
  }

  /** Every round of the loop only exchanges two elements, so the result is
      a permutation of the input, of the same length. */
  lemma {:induction false} ShuffleFromPermutes(s: seq<int>, rand: seq<real>, i: int)
    requires i < |s| && i <= |rand| && ValidRandoms(rand)
    ensures multiset(ShuffleFrom(s, rand, i)) == multiset(s)
    decreases i
  {
    if i > 0 {
      var j := Partner(rand[0], i);
      SwapPermutes(s, i, j);
      ShuffleFromPermutes(Swap(s, i, j), rand[1..], i - 1);
    }
  }

  lemma ShuffledPermutes(s: seq<int>, rand: seq<real>)
    requires |s| <= |rand| + 1 && ValidRandoms(rand)
    ensures multiset(Shuffled(s, rand)) == multiset(s)
  {
    ShuffleFromPermutes(s, rand, |s| - 1);
  }

  /** The random value that makes `Math.floor(r * (i + 1))` pick `j`. */
  lemma PartnerHits(i: nat, j: nat) returns (r: real)
    requires j <= i
    ensures 0.0 <= r < 1.0 && Partner(r, i) == j
  {
    var n := (i + 1) as real;
    r := j as real / n;
    assert r * n == j as real;
  }

  /** Swapping into position `i` an element equal to `p[i]` leaves a
      prefix that is still a rearrangement of `p`'s, and fixes one more
      position of the suffix. */
  lemma SwapPlacesLast(s: seq<int>, p: seq<int>, i: nat, j: nat)
    requires j <= i < |s| == |p| && s[j] == p[i]
    requires multiset(s[..i + 1]) == multiset(p[..i + 1]) && s[i + 1..] == p[i + 1..]
    ensures multiset(Swap(s, i, j)[..i]) == multiset(p[..i])
    ensures Swap(s, i, j)[i..] == p[i..]
  {
    var t := Swap(s, i, j);
    assert t[..i + 1] == Swap(s[..i + 1], i, j);
    SwapPermutes(s[..i + 1], i, j);
    assert t[..i + 1] == t[..i] + [p[i]] && p[..i + 1] == p[..i] + [p[i]];
    assert multiset(t[..i]) + multiset{p[i]} == multiset(p[..i]) + multiset{p[i]};
    assert forall v :: multiset(t[..i])[v] == (multiset(t[..i]) + multiset{p[i]})[v] - multiset{p[i]}[v];
    assert forall v :: multiset(p[..i])[v] == (multiset(p[..i]) + multiset{p[i]})[v] - multiset{p[i]}[v];
    assert t[i + 1..] == s[i + 1..];
    assert t[i..] == [t[i]] + t[i + 1..] && p[i..] == [p[i]] + p[i + 1..];
  }

  /** With one position left to place, the arrangement is already `p`. */
  lemma OneLeftToPlace(s: seq<int>, p: seq<int>)
    requires 0 < |s| == |p|
    requires multiset(s[..1]) == multiset(p[..1]) && s[1..] == p[1..]
    ensures s == p
  {
    assert s[..1] == [s[0]] && p[..1] == [p[0]];
    assert s[0] == p[0] by { assert s[0] in multiset{p[0]}; }
    assert s == [s[0]] + s[1..];
    assert p == [p[0]] + p[1..];
  }

  /** The element that belongs at position `i` of `p` sits at some
      position `j <= i` of `s`. */
  lemma IndexOfPartner(s: seq<int>, p: seq<int>, i: nat) returns (j: nat)
    requires i < |s| == |p| && multiset(s[..i + 1]) == multiset(p[..i + 1])
    ensures j <= i && s[j] == p[i]
  {
    assert p[i] in multiset(s[..i + 1]) by {
      assert p[..i + 1][i] == p[i];
    }
    var k :| 0 <= k < i + 1 && s[..i + 1][k] == p[i];
    j := k;
  }

  /** The loop's first round uses the first random value: if it picks `j`,
      the rest of the loop runs on the swapped sequence with the rest of
      the values. */
  lemma FirstRandomSwaps(s: seq<int>, rand: seq<real>, i: nat, j: nat)
    requires 0 < i < |s| && 0 < |rand| && i <= |rand| && j <= i
    requires 0.0 <= rand[0] < 1.0 && Partner(rand[0], i) == j && ValidRandoms(rand[1..])
    ensures ValidRandoms(rand)
    ensures ShuffleFrom(s, rand, i) == ShuffleFrom(Swap(s, i, j), rand[1..], i - 1)
  {
    forall k | 0 <= k < |rand| ensures 0.0 <= rand[k] < 1.0 {
      if k > 0 {
        assert rand[k] == rand[1..][k - 1];
      }
    }
  }

  /** For every arrangement `p` of `s` that differs from `s` only in the
      first i + 1 positions, some random values make the loop from position
      `i` produce exactly `p`. */
  lemma {:induction false} ShuffleFromReaches(s: seq<int>, p: seq<int>, i: nat) returns (rand: seq<real>)
    requires i < |s| == |p|
    requires multiset(s[..i + 1]) == multiset(p[..i + 1]) && s[i + 1..] == p[i + 1..]
    ensures |rand| == i && ValidRandoms(rand)
    ensures ShuffleFrom(s, rand, i) == p
    decreases i
  {
    if i == 0 {
      rand := [];
      OneLeftToPlace(s, p);
    } else {
      var j := IndexOfPartner(s, p, i);
      var t := Swap(s, i, j);
      SwapPlacesLast(s, p, i, j);
      var r := PartnerHits(i, j);
      var rest := ShuffleFromReaches(t, p, i - 1);
      rand := [r] + rest;
      assert rand[0] == r && rand[1..] == rest;
      FirstRandomSwaps(s, rand, i, j);
    }
  }

  /** Every permutation of the input is a possible result of the shuffle:
      some `Math.random()` values produce it, one per swap. This is the part
      of the fairness of Fisher–Yates that needs no probability. */
  lemma ShuffleReachesEveryPermutation(s: seq<int>, p: seq<int>)
    requires multiset(p) == multiset(s)
    ensures exists rand :: |rand| == (if |s| > 0 then |s| - 1 else 0) && ValidRandoms(rand) &&
                           Shuffled(s, rand) == p
  {
    assert |p| == |multiset(p)| == |multiset(s)| == |s|;
    if |s| == 0 {
      assert Shuffled(s, []) == p;
    } else {
      assert s[..|s|] == s && p[..|p|] == p;
      var rand := ShuffleFromReaches(s, p, |s| - 1);
      assert Shuffled(s, rand) == p;
    }
  }

  /** `shuffle(array)`: reorders `a` in place and returns the same array. */
  method Shuffle(a: array<int>, rand: seq<real>) returns (r: array<int>)
    requires a.Length <= |rand| + 1 && ValidRandoms(rand)
    modifies a
    ensures r == a
    ensures a[..] == Shuffled(old(a[..]), rand)
    ensures multiset(a[..]) == multiset(old(a[..]))
  {
    var i := a.Length - 1;
    assert rand[a.Length - 1 - i..] == rand;
    while i > 0
      invariant -1 <= i < a.Length && a.Length - 1 - i <= |rand|
      invariant ValidRandoms(rand[a.Length - 1 - i..])
      invariant ShuffleFrom(a[..], rand[a.Length - 1 - i..], i) == Shuffled(old(a[..]), rand)
    {
      var j := Partner(rand[a.Length - 1 - i], i);
      assert rand[a.Length - 1 - i..][1..] == rand[a.Length - 1 - (i - 1)..];
      assert ValidRandoms(rand[a.Length - 1 - (i - 1)..]);
      assert a[..][i := a[j]][j := a[i]] == Swap(a[..], i, j);
      a[i], a[j] := a[j], a[i];
      i := i - 1;
    }
    ShuffledPermutes(old(a[..]), rand);
    r := a;
  }
}
