/**
 * `AreEqualCollections`: order-independent equality of two collections, either of which may be
 * null. Every element of `x` claims the first element of `y` that it equals and that no earlier
 * element of `x` has claimed; the claims are recorded in the `alreadyFound` flags.
 */
module Collections {
  import opened Outcomes

  /** An element comparer, `IEqualityComparer<T>.Equals`. */
  type Comparer<-T> = (T, T) -> bool

  /** The equality in force: the comparer when one is given, the elements' own otherwise. */
  predicate Same<T(==)>(comparer: Option<Comparer<T>>, a: T, b: T) {
    match comparer
    case None => a == b
    case Some(eq) => eq(a, b)
  }

  /** The `alreadyFound` flags before any element has been claimed. */
  function NoneFound(n: nat): (found: seq<bool>)
    ensures |found| == n
    ensures forall k :: 0 <= k < n ==> !found[k]
  {
    seq(n, _ => false)
  }

  /** The first position at or after `i` that is unclaimed and matches `a`, or `|ys|` when there is none. */
  function Claim<T(==)>(ys: seq<T>, found: seq<bool>, a: T, comparer: Option<Comparer<T>>, i: nat): (k: nat)
    requires |found| == |ys| && i <= |ys|
    ensures i <= k <= |ys|
    ensures k < |ys| ==> !found[k] && Same(comparer, a, ys[k])
    ensures forall j :: i <= j < k ==> found[j] || !Same(comparer, a, ys[j])
    decreases |ys| - i
  {
    if i == |ys| then i
    else if !found[i] && Same(comparer, a, ys[i]) then i
    else Claim(ys, found, a, comparer, i + 1)
  }

  /**
   * Every element of `xs` in turn claims its first unclaimed match in `ys`: the flags once all
   * have claimed one, or `None` as soon as one finds no match.
   */
  function Greedy<T(==)>(xs: seq<T>, ys: seq<T>, found: seq<bool>, comparer: Option<Comparer<T>>): (r: Option<seq<bool>>)
    requires |found| == |ys|
    ensures r.Some? ==> |r.value| == |ys|
    decreases |xs|
  {
    if |xs| == 0 then Some(found)
    else
      var k := Claim(ys, found, xs[0], comparer, 0);
      if k == |ys| then None else Greedy(xs[1..], ys, found[k := true], comparer)
  }

  /** The verdict of `AreEqualCollections(x, y, comparer)`; `None` stands for a null collection. */
  predicate EqualCollections<T(==)>(x: Option<seq<T>>, y: Option<seq<T>>, comparer: Option<Comparer<T>>) {
    if x.None? then y.None? || |y.value| == 0
    else if y.None? then |x.value| == 0
    else if |x.value| != |y.value| then false
    else if |x.value| == 0 then true
    else Greedy(x.value, y.value, NoneFound(|y.value|), comparer).Some?
  }

  /** `AreEqualCollections(x, y, comparer)`, the nested loops over `x` and `y`. */
  method AreEqualCollections<T(==)>(x: Option<seq<T>>, y: Option<seq<T>>, comparer: Option<Comparer<T>>)
    returns (r: bool)
    ensures r == EqualCollections(x, y, comparer)
    ensures x.None? ==> (r <==> y.None? || |y.value| == 0)
    ensures x.Some? && y.None? ==> (r <==> |x.value| == 0)
    ensures x.Some? && y.Some? && |x.value| != |y.value| ==> !r
  {
    if x.None? {
      return y.None? || |y.value| == 0;
    }
    if y.None? {
      return |x.value| == 0;
    }
    var xs, ys := x.value, y.value;
    if |xs| != |ys| {
      return false;
    }
    if |xs| == 0 {
      return true;
    }
    var alreadyFound := NoneFound(|xs|);
    NoneCounted(|xs|);
    var j := 0;
    while j < |xs|
      invariant j <= |xs| && |alreadyFound| == |ys|
      invariant Greedy(xs, ys, NoneFound(|ys|), comparer) == Greedy(xs[j..], ys, alreadyFound, comparer)
      invariant CountFound(alreadyFound) == j
      decreases |xs| - j
    {
      var i := 0;
      var found := false;
      while i < |ys|
        invariant i <= |ys|
        invariant Claim(ys, alreadyFound, xs[j], comparer, 0) == Claim(ys, alreadyFound, xs[j], comparer, i)
        decreases |ys| - i
      {
        if !alreadyFound[i] && Same(comparer, xs[j], ys[i]) {
          found := true;
          break;
        }
        i := i + 1;
      }
      assert xs[j..][1..] == xs[j + 1..];
      if !found {
        return false;
      }
      ClaimCounts(alreadyFound, i);
      alreadyFound := alreadyFound[i := true];
      j := j + 1;
    }
    AllCounted(alreadyFound);
    assert forall k :: 0 <= k < |alreadyFound| ==> alreadyFound[k];
    return true;
  }

  /** The number of claimed positions. */
  function CountFound(found: seq<bool>): (n: nat)
    ensures n <= |found|
    decreases |found|
  {
    if |found| == 0 then 0 else CountFound(found[1..]) + (if found[0] then 1 else 0)
  }

  /** Claiming an unclaimed position adds one to the count. */
  lemma {:induction false} ClaimCounts(found: seq<bool>, k: nat)
    requires k < |found| && !found[k]
    ensures CountFound(found[k := true]) == CountFound(found) + 1
    decreases |found|
  {
    if k > 0 {
      assert found[k := true][1..] == found[1..][k - 1 := true];
      ClaimCounts(found[1..], k - 1);
    } else {
      assert found[k := true][1..] == found[1..];
    }
  }

  /** When every position is counted, every position is claimed. */
  lemma {:induction false} AllCounted(found: seq<bool>)
    requires CountFound(found) == |found|
    ensures forall k :: 0 <= k < |found| ==> found[k]
    decreases |found|
  {
    if |found| > 0 {
      AllCounted(found[1..]);
      forall k | 0 < k < |found|
        ensures found[k]
      {
        assert found[k] == found[1..][k - 1];
      }
    }
  }

  /** A successful greedy match claims one fresh position per element of `xs`. */
  lemma {:induction false} GreedyCounts<T>(xs: seq<T>, ys: seq<T>, found: seq<bool>, comparer: Option<Comparer<T>>)
    requires |found| == |ys|
    requires Greedy(xs, ys, found, comparer).Some?
    ensures CountFound(Greedy(xs, ys, found, comparer).value) == CountFound(found) + |xs|
    decreases |xs|
  {
    if |xs| > 0 {
      var k := Claim(ys, found, xs[0], comparer, 0);
      ClaimCounts(found, k);
      GreedyCounts(xs[1..], ys, found[k := true], comparer);
    }
  }

  /**
   * When two non-empty collections of equal size are found equal, every `alreadyFound` flag ends
   * up set: the claim the source asserts before reporting equality.
   */
  lemma EveryFlagSet<T>(xs: seq<T>, ys: seq<T>, comparer: Option<Comparer<T>>)
    requires |xs| == |ys|
    requires Greedy(xs, ys, NoneFound(|ys|), comparer).Some?
    ensures forall k :: 0 <= k < |ys| ==> Greedy(xs, ys, NoneFound(|ys|), comparer).value[k]
  {
    NoneCounted(|ys|);
    GreedyCounts(xs, ys, NoneFound(|ys|), comparer);
    AllCounted(Greedy(xs, ys, NoneFound(|ys|), comparer).value);
  }

  /** Nothing is counted before any claim. */
  lemma {:induction false} NoneCounted(n: nat)
    ensures CountFound(NoneFound(n)) == 0
  {
    if n > 0 {
      assert NoneFound(n)[1..] == NoneFound(n - 1);
      NoneCounted(n - 1);
    }
  }
}

/** Under the elements' own equality, `AreEqualCollections` is multiset equality. */
module CollectionsMultiset {
  import opened Outcomes
  import opened Collections

  /** The elements of `ys` at unclaimed positions. */
  function Unclaimed<T>(ys: seq<T>, found: seq<bool>): multiset<T>
    requires |found| == |ys|
    decreases |ys|
  {
    if |ys| == 0 then multiset{}
    else Unclaimed(ys[1..], found[1..]) + (if found[0] then multiset{} else multiset{ys[0]})
  }

  /** With nothing claimed, every element is available. */
  lemma {:induction false} UnclaimedInitially<T>(ys: seq<T>)
    ensures Unclaimed(ys, NoneFound(|ys|)) == multiset(ys)
    decreases |ys|
  {
    if |ys| > 0 {
      assert NoneFound(|ys|)[1..] == NoneFound(|ys| - 1);
      UnclaimedInitially(ys[1..]);
      assert ys == [ys[0]] + ys[1..];
    }
  }

  /** An element is available exactly when it sits at some unclaimed position. */
  lemma {:induction false} UnclaimedMember<T>(ys: seq<T>, found: seq<bool>, a: T)
    requires |found| == |ys|
    ensures a in Unclaimed(ys, found) <==> exists k :: 0 <= k < |ys| && !found[k] && ys[k] == a
    decreases |ys|
  {
    if |ys| > 0 {
      UnclaimedMember(ys[1..], found[1..], a);
      if a in Unclaimed(ys[1..], found[1..]) {
        var k :| 0 <= k < |ys[1..]| && !found[1..][k] && ys[1..][k] == a;
        assert !found[k + 1] && ys[k + 1] == a;
      }
      if exists k :: 0 <= k < |ys| && !found[k] && ys[k] == a {
        var k :| 0 <= k < |ys| && !found[k] && ys[k] == a;
        if k > 0 {
          assert !found[1..][k - 1] && ys[1..][k - 1] == a;
        }
      }
    }
  }

  /** Claiming an unclaimed position takes its element out of the available ones. */
  lemma {:induction false} UnclaimedAfterClaim<T>(ys: seq<T>, found: seq<bool>, k: nat)
    requires |found| == |ys| && k < |ys| && !found[k]
    ensures Unclaimed(ys, found[k := true]) == Unclaimed(ys, found) - multiset{ys[k]}
    ensures ys[k] in Unclaimed(ys, found)
    decreases |ys|
  {
    if k > 0 {
      assert found[k := true][1..] == found[1..][k - 1 := true];
      assert ys[1..][k - 1] == ys[k];
      UnclaimedAfterClaim(ys[1..], found[1..], k - 1);
    } else {
      assert found[k := true][1..] == found[1..];
    }
  }

  /** Greedy matching under plain equality succeeds exactly when `xs` fits in the available elements. */
  lemma {:induction false} GreedyFits<T>(xs: seq<T>, ys: seq<T>, found: seq<bool>)
    requires |found| == |ys|
    ensures Greedy(xs, ys, found, None).Some? <==> multiset(xs) <= Unclaimed(ys, found)
    decreases |xs|
  {
    if |xs| > 0 {
      var a := xs[0];
      assert xs == [a] + xs[1..];
      assert multiset(xs) == multiset{a} + multiset(xs[1..]);
      var k := Claim(ys, found, a, None, 0);
      if k == |ys| {
        UnclaimedMember(ys, found, a);
      } else {
        UnclaimedAfterClaim(ys, found, k);
        GreedyFits(xs[1..], ys, found[k := true]);
        FitsAfterRemoval(multiset(xs[1..]), Unclaimed(ys, found), a);
      }
    }
  }

  /** `{a} + m` fits in `n` exactly when `m` fits in what is left of `n` once one `a` is taken out. */
  lemma FitsAfterRemoval<T>(m: multiset<T>, n: multiset<T>, a: T)
    requires a in n
    ensures multiset{a} + m <= n <==> m <= n - multiset{a}
  {
    if multiset{a} + m <= n {
      forall e
        ensures m[e] <= (n - multiset{a})[e]
      {
        assert (multiset{a} + m)[e] <= n[e];
      }
    }
    if m <= n - multiset{a} {
      forall e
        ensures (multiset{a} + m)[e] <= n[e]
      {
        assert m[e] <= (n - multiset{a})[e];
      }
    }
  }

  /** A sub-multiset of the same size is the whole multiset. */
  lemma FitsSameSize<T>(m: multiset<T>, n: multiset<T>)
    requires m <= n && |m| == |n|
    ensures m == n
  {
    var rest := n - m;
    assert n == m + rest;
    assert |rest| == 0;
  }

  /**
   * Under the elements' own equality, `AreEqualCollections` of two non-null collections holds
   * exactly when they hold the same elements the same number of times.
   */
  lemma EqualCollectionsIsMultiset<T>(xs: seq<T>, ys: seq<T>)
    ensures EqualCollections(Some(xs), Some(ys), None) <==> multiset(xs) == multiset(ys)
  {
    if |xs| == |ys| && |xs| > 0 {
      GreedyFits(xs, ys, NoneFound(|ys|));
      UnclaimedInitially(ys);
      if multiset(xs) <= multiset(ys) {
        FitsSameSize(multiset(xs), multiset(ys));
      }
    } else if |xs| != |ys| {
      assert |multiset(xs)| != |multiset(ys)|;
    }
  }

  /** Hence it ignores order and is symmetric and reflexive. */
  lemma EqualCollectionsSymmetric<T>(x: Option<seq<T>>, y: Option<seq<T>>)
    ensures EqualCollections(x, y, None) == EqualCollections(y, x, None)
  {
    if x.Some? && y.Some? {
      EqualCollectionsIsMultiset(x.value, y.value);
      EqualCollectionsIsMultiset(y.value, x.value);
    }
  }

  lemma EqualCollectionsReflexive<T>(x: Option<seq<T>>)
    ensures EqualCollections(x, x, None)
  {
    if x.Some? {
      EqualCollectionsIsMultiset(x.value, x.value);
    }
  }

  lemma EqualCollectionsIgnoresOrder<T>(xs: seq<T>, ys: seq<T>, zs: seq<T>)
    requires multiset(ys) == multiset(zs)
    ensures EqualCollections(Some(xs), Some(ys), None) == EqualCollections(Some(xs), Some(zs), None)
  {
    EqualCollectionsIsMultiset(xs, ys);
    EqualCollectionsIsMultiset(xs, zs);
  }
}
