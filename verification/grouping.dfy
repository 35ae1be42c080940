/**
 The round-based partition of the cart's ISBNs into discount groupings.
 Each round takes the series ISBNs still present in the remaining cart, as a
 set, and subtracts one copy of each from the remaining cart.

 Python sets have no specified iteration order; the model lists every
 grouping in series order. No result of the model depends on that order.
 */
module Grouping {
  import opened Lists

  /**
   The ISBNs of `keys`, in order, that occur more than `depth` times in
   `cart`. With `keys` the distinct series ISBNs this is the closed form of
   round `depth` of the partition.
   */
  function Layer<T(==,!new)>(keys: seq<T>, cart: seq<T>, depth: nat): (r: seq<T>)
    ensures forall x :: x in r <==> x in keys && Count(cart, x) > depth
    ensures NoDup(keys) ==> NoDup(r)
    ensures |r| <= |keys|
  {
    if keys == [] then []
    else
      var rest := Layer(keys[1..], cart, depth);
      assert NoDup(keys) ==> keys[0] !in keys[1..];
      assert NoDup(keys) ==> NoDup(keys[1..]) by {
        if NoDup(keys) {
          forall i, j | 0 <= i < j < |keys[1..]| ensures keys[1..][i] != keys[1..][j] {
            assert keys[1..][i] == keys[i + 1] && keys[1..][j] == keys[j + 1];
          }
        }
      }
      (if Count(cart, keys[0]) > depth then [keys[0]] else []) + rest
  }

  /**
   One round: `list(set(series).intersection(set(remaining)))`, each series
   ISBN still present in the remaining cart exactly once.
   */
  function CommonIsbns<T(==,!new)>(series: seq<T>, remaining: seq<T>): (r: seq<T>)
    ensures NoDup(r)
    ensures forall x :: x in r <==> x in series && x in remaining
  {
    var r := Layer(Dedup(series), remaining, 0);
    assert forall x :: x in r <==> x in series && x in remaining by {
      forall x ensures x in r <==> x in series && x in remaining {
        CountIn(remaining, x);
      }
    }
    r
  }

  /**
   `rounds` rounds of the partition loop over the remaining cart ISBNs: each
   round's grouping is the common ISBNs, and the next round works on the
   remaining cart minus that grouping.
   */
  function Partition<T(==,!new)>(series: seq<T>, remaining: seq<T>, rounds: nat): (gs: seq<seq<T>>)
    ensures |gs| == rounds
    decreases rounds
  {
    if rounds == 0 then []
    else
      var g := CommonIsbns(series, remaining);
      [g] + Partition(series, SubtractList(remaining, g), rounds - 1)
  }

  /** Two carts whose counts agree on `keys` (at shifted depths) have the same layers. */
  lemma {:induction false} LayerCongruent<T(!new)>(keys: seq<T>, c1: seq<T>, d1: nat, c2: seq<T>, d2: nat)
    requires forall x :: x in keys ==> (Count(c1, x) > d1 <==> Count(c2, x) > d2)
    ensures Layer(keys, c1, d1) == Layer(keys, c2, d2)
  {
    if keys != [] {
      assert keys[0] in keys;
      LayerCongruent(keys[1..], c1, d1, c2, d2);
    }
  }

  /** One unfolding of the partition loop. */
  lemma PartitionStep<T(!new)>(series: seq<T>, cart: seq<T>, rounds: nat)
    requires rounds > 0
    ensures Partition(series, cart, rounds)[0] == CommonIsbns(series, cart)
    ensures Partition(series, cart, rounds)[1..]
            == Partition(series, SubtractList(cart, CommonIsbns(series, cart)), rounds - 1)
  {
  }

  /** One round removes exactly one copy of each series ISBN still present. */
  lemma RoundCount<T(!new)>(series: seq<T>, cart: seq<T>, x: T)
    ensures Count(SubtractList(cart, CommonIsbns(series, cart)), x)
            == if x in series && Count(cart, x) > 0 then Count(cart, x) - 1 else Count(cart, x)
  {
    NoDupCount(CommonIsbns(series, cart), x);
    CountIn(cart, x);
  }

  /** Layer `i` of the cart is layer `i - 1` of what one round leaves. */
  lemma LayerAfterRound<T(!new)>(series: seq<T>, cart: seq<T>, i: nat)
    requires i > 0
    ensures Layer(Dedup(series), SubtractList(cart, CommonIsbns(series, cart)), i - 1) == Layer(Dedup(series), cart, i)
  {
    var next := SubtractList(cart, CommonIsbns(series, cart));
    forall x | x in Dedup(series) ensures Count(next, x) > i - 1 <==> Count(cart, x) > i {
      RoundCount(series, cart, x);
    }
    LayerCongruent(Dedup(series), next, i - 1, cart, i);
  }

  /**
   The closed form of the partition: round `i` is exactly the series ISBNs
   whose count in the cart exceeds `i`, each listed once in series order.
   */
  lemma PartitionIsLayers<T(!new)>(series: seq<T>, cart: seq<T>, rounds: nat)
    ensures forall i :: 0 <= i < rounds ==> Partition(series, cart, rounds)[i] == Layer(Dedup(series), cart, i)
  {
    forall i | 0 <= i < rounds ensures Partition(series, cart, rounds)[i] == Layer(Dedup(series), cart, i) {
      PartitionRoundIsLayer(series, cart, rounds, i);
    }
  }

  /** Round `i` of the partition is layer `i`, by induction on `i`. */
  lemma {:induction false} PartitionRoundIsLayer<T(!new)>(series: seq<T>, cart: seq<T>, rounds: nat, i: nat)
    requires i < rounds
    ensures Partition(series, cart, rounds)[i] == Layer(Dedup(series), cart, i)
    decreases i
  {
    var next := SubtractList(cart, CommonIsbns(series, cart));
    if i == 0 {
      assert Partition(series, cart, rounds)[0] == CommonIsbns(series, cart) by {
        PartitionStep(series, cart, rounds);
      }
    } else {
      assert Partition(series, cart, rounds)[i] == Partition(series, next, rounds - 1)[i - 1] by {
        PartitionStep(series, cart, rounds);
        assert Partition(series, cart, rounds)[i] == Partition(series, cart, rounds)[1..][i - 1];
      }
      PartitionRoundIsLayer(series, next, rounds - 1, i - 1);
      LayerAfterRound(series, cart, i);
    }
  }

  /** A deeper layer is never longer than a shallower one. */
  lemma {:induction false} LayerShrinks<T(!new)>(keys: seq<T>, cart: seq<T>, d1: nat, d2: nat)
    requires d1 <= d2
    ensures |Layer(keys, cart, d2)| <= |Layer(keys, cart, d1)|
  {
    if keys != [] {
      LayerShrinks(keys[1..], cart, d1, d2);
    }
  }

  /**
   The shape of the partition: round `i` holds a series ISBN exactly when the
   cart has more than `i` copies of it, no round repeats an ISBN, and rounds
   never grow.
   */
  lemma PartitionShape<T(!new)>(series: seq<T>, cart: seq<T>, rounds: nat)
    ensures |Partition(series, cart, rounds)| == rounds
    ensures forall i, x :: 0 <= i < rounds ==>
              (x in Partition(series, cart, rounds)[i] <==> x in series && Count(cart, x) > i)
    ensures forall i :: 0 <= i < rounds ==> NoDup(Partition(series, cart, rounds)[i])
    ensures forall i, j :: 0 <= i <= j < rounds ==>
              |Partition(series, cart, rounds)[j]| <= |Partition(series, cart, rounds)[i]|
  {
    PartitionIsLayers(series, cart, rounds);
    forall i, j | 0 <= i <= j < rounds
      ensures |Partition(series, cart, rounds)[j]| <= |Partition(series, cart, rounds)[i]|
    {
      LayerShrinks(Dedup(series), cart, i, j);
    }
  }

  /** Every ISBN of every round is a series ISBN taken from the cart. */
  lemma PartitionMembers<T(!new)>(series: seq<T>, cart: seq<T>, rounds: nat)
    ensures forall i, x :: 0 <= i < rounds && x in Partition(series, cart, rounds)[i] ==> x in series && x in cart
  {
    PartitionShape(series, cart, rounds);
    forall i, x | 0 <= i < rounds && x in Partition(series, cart, rounds)[i] ensures x in cart {
      CountIn(cart, x);
    }
  }

  /** One ISBN of one round of a partition: it is in the series and in the cart. */
  lemma PartitionMember<T(!new)>(series: seq<T>, cart: seq<T>, rounds: nat, i: nat, x: T)
    requires i < rounds && x in Partition(series, cart, rounds)[i]
    ensures x in series && x in cart
  {
    PartitionShape(series, cart, rounds);
    CountIn(cart, x);
  }

  lemma CountConcat<T(!new)>(a: seq<T>, b: seq<T>, x: T)
    ensures Count(a + b, x) == Count(a, x) + Count(b, x)
  {
  }

  /** The entries of a partition are those of its first round followed by the rest. */
  lemma FlattenStep<T(!new)>(series: seq<T>, cart: seq<T>, rounds: nat, x: T)
    requires rounds > 0
    ensures Count(Flatten(Partition(series, cart, rounds)), x)
            == Count(CommonIsbns(series, cart), x)
               + Count(Flatten(Partition(series, SubtractList(cart, CommonIsbns(series, cart)), rounds - 1)), x)
  {
    var g := CommonIsbns(series, cart);
    var gs := Partition(series, cart, rounds);
    PartitionStep(series, cart, rounds);
    var rest := Partition(series, SubtractList(cart, g), rounds - 1);
    assert Flatten(gs) == g + Flatten(rest) by {
      assert Flatten(gs) == gs[0] + Flatten(gs[1..]);
    }
    CountConcat(g, Flatten(rest), x);
  }

  /**
   Every copy of a series ISBN lands in some round, one per round, as long as
   there are enough rounds; non-series ISBNs never do.
   */
  lemma {:induction false} PartitionCounts<T(!new)>(series: seq<T>, cart: seq<T>, rounds: nat, x: T)
    ensures Count(Flatten(Partition(series, cart, rounds)), x)
            == if x in series then (if Count(cart, x) < rounds then Count(cart, x) else rounds) else 0
    decreases rounds
  {
    if rounds > 0 {
      var g := CommonIsbns(series, cart);
      var next := SubtractList(cart, g);
      PartitionCounts(series, next, rounds - 1, x);
      FlattenStep(series, cart, rounds, x);
      RoundCount(series, cart, x);
      RoundHere(series, cart, x);
      CappedStep(x in series, Count(cart, x), Count(next, x), Count(g, x),
                 Count(Flatten(Partition(series, next, rounds - 1)), x), rounds);
    }
  }

  /** An ISBN is in a round's grouping once when it is a series ISBN still in the cart, else not at all. */
  lemma RoundHere<T(!new)>(series: seq<T>, cart: seq<T>, x: T)
    ensures Count(CommonIsbns(series, cart), x) == if x in series && Count(cart, x) > 0 then 1 else 0
  {
    NoDupCount(CommonIsbns(series, cart), x);
    CountIn(cart, x);
  }

  /** The arithmetic of one round: the capped count is one plus the capped count of what is left. */
  lemma CappedStep(inSeries: bool, count: nat, left: nat, here: nat, rest: nat, rounds: nat)
    requires rounds > 0
    requires left == if inSeries && count > 0 then count - 1 else count
    requires here == if inSeries && count > 0 then 1 else 0
    requires rest == if inSeries then (if left < rounds - 1 then left else rounds - 1) else 0
    ensures here + rest == if inSeries then (if count < rounds then count else rounds) else 0
  {
  }

  lemma {:induction false} FlattenLength<T(!new)>(ss: seq<seq<T>>)
    ensures |Flatten(ss)| == TotalLength(ss)
  {
    if ss != [] {
      FlattenLength(ss[1..]);
    }
  }

  /**
   Drainage: with at least as many rounds as the largest count of any series
   ISBN, the groupings together hold exactly the cart's series entries, so
   their sizes add up to the number of those entries.
   */
  lemma Drainage<T(!new)>(series: seq<T>, cart: seq<T>, rounds: nat)
    requires forall x :: x in series ==> Count(cart, x) <= rounds
    ensures multiset(Flatten(Partition(series, cart, rounds))) == multiset(KeepIn(cart, Elems(series)))
    ensures TotalLength(Partition(series, cart, rounds)) == |KeepIn(cart, Elems(series))|
  {
    var flat := Flatten(Partition(series, cart, rounds));
    var kept := KeepIn(cart, Elems(series));
    forall x ensures multiset(flat)[x] == multiset(kept)[x] {
      PartitionCounts(series, cart, rounds, x);
      assert Count(kept, x) == if x in Elems(series) then Count(cart, x) else 0;
    }
    assert multiset(flat) == multiset(kept);
    FlattenLength(Partition(series, cart, rounds));
    assert |flat| == |multiset(flat)| == |multiset(kept)| == |kept|;
  }

  /**
   The partition only looks at the counts of series ISBNs: two carts that
   agree on those counts, each given at least as many rounds as the largest
   of them, produce the same groupings up to the shorter run, and every
   further round is empty.
   */
  lemma PartitionsAgree<T(!new)>(series: seq<T>, c1: seq<T>, n1: nat, c2: seq<T>, n2: nat)
    requires forall x :: x in series ==> Count(c1, x) == Count(c2, x)
    requires forall x :: x in series ==> Count(c1, x) <= n1 && Count(c1, x) <= n2
    ensures var k := if n1 < n2 then n1 else n2;
            Partition(series, c1, n1)[..k] == Partition(series, c2, n2)[..k]
    ensures forall i :: 0 <= i < n1 && n2 <= i ==> Partition(series, c1, n1)[i] == []
    ensures forall i :: 0 <= i < n2 && n1 <= i ==> Partition(series, c2, n2)[i] == []
  {
    var keys := Dedup(series);
    var p1 := Partition(series, c1, n1);
    var p2 := Partition(series, c2, n2);
    var k := if n1 < n2 then n1 else n2;
    PartitionIsLayers(series, c1, n1);
    PartitionIsLayers(series, c2, n2);
    forall i | 0 <= i < k ensures p1[i] == p2[i] {
      LayerCongruent(keys, c1, i, c2, i);
    }
    assert p1[..k] == p2[..k];
    forall i | 0 <= i < n1 && n2 <= i ensures p1[i] == [] {
      LayerBeyondCounts(keys, c1, i);
    }
    forall i | 0 <= i < n2 && n1 <= i ensures p2[i] == [] {
      LayerBeyondCounts(keys, c2, i);
    }
  }

  /** A layer deeper than every count is empty. */
  lemma {:induction false} LayerBeyondCounts<T(!new)>(keys: seq<T>, cart: seq<T>, depth: nat)
    requires forall x :: x in keys ==> Count(cart, x) <= depth
    ensures Layer(keys, cart, depth) == []
  {
    if keys != [] {
      assert keys[0] in keys;
      LayerBeyondCounts(keys[1..], cart, depth);
    }
  }

  /** One step of a layer: the first key is kept when its count exceeds the depth. */
  lemma LayerCons<T(!new)>(k: T, ks: seq<T>, cart: seq<T>, depth: nat)
    ensures Layer([k] + ks, cart, depth)
            == (if Count(cart, k) > depth then [k] else []) + Layer(ks, cart, depth)
  {
    assert ([k] + ks)[1..] == ks;
  }

  /**
   Partitions run for as many rounds as each cart's largest count agree up
   to the shorter run when the carts agree on every series count.
   */
  lemma CountedPartitionsAgree<T(!new)>(series: seq<T>, c1: seq<T>, c2: seq<T>, k: nat)
    requires forall x :: x in series ==> Count(c1, x) == Count(c2, x)
    requires k == if MaxCount(c1) < MaxCount(c2) then MaxCount(c1) else MaxCount(c2)
    ensures Partition(series, c1, MaxCount(c1))[..k] == Partition(series, c2, MaxCount(c2))[..k]
    ensures forall i :: k <= i < MaxCount(c1) ==> Partition(series, c1, MaxCount(c1))[i] == []
    ensures forall i :: k <= i < MaxCount(c2) ==> Partition(series, c2, MaxCount(c2))[i] == []
  {
    MaxCountBoundsBoth(series, c1, c2);
    PartitionsAgree(series, c1, MaxCount(c1), c2, MaxCount(c2));
  }
}
