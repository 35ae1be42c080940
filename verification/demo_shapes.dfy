/**
 The groupings of the example carts, worked out for any five different
 series keys: the shapes depend only on which keys repeat, not on what the
 keys are.
 */
module DemoShapes {
  import opened Lists
  import opened Grouping

  /** Five pairwise different keys. */
  predicate Apart<T(==)>(a: T, b: T, c: T, d: T, e: T)
  {
    && a != b && a != c && a != d && a != e
    && b != c && b != d && b != e
    && c != d && c != e
    && d != e
  }

  lemma ApartKeys<T(!new)>(a: T, b: T, c: T, d: T, e: T)
    requires Apart(a, b, c, d, e)
    ensures NoDup([a, b, c, d, e])
    ensures Dedup([a, b, c, d, e]) == [a, b, c, d, e]
  {
    DedupOfDistinct([a, b, c, d, e]);
  }

  /** A key's contribution to a layer, given its count. */
  function Pick<T>(k: T, count: nat, depth: nat): seq<T>
  {
    if count > depth then [k] else []
  }

  /** One layer over five keys whose counts are known. */
  lemma LayerByCounts<T(!new)>(k1: T, k2: T, k3: T, k4: T, k5: T, cart: seq<T>, depth: nat,
                               n1: nat, n2: nat, n3: nat, n4: nat, n5: nat)
    requires Count(cart, k1) == n1 && Count(cart, k2) == n2 && Count(cart, k3) == n3
    requires Count(cart, k4) == n4 && Count(cart, k5) == n5
    ensures Layer([k1, k2, k3, k4, k5], cart, depth)
            == Pick(k1, n1, depth) + (Pick(k2, n2, depth) + (Pick(k3, n3, depth)
               + (Pick(k4, n4, depth) + Pick(k5, n5, depth))))
  {
    var l5 := Layer([k5], cart, depth);
    assert l5 == Pick(k5, n5, depth) by {
      LayerCons(k5, [], cart, depth);
    }
    var l4 := Layer([k4, k5], cart, depth);
    assert l4 == Pick(k4, n4, depth) + l5 by {
      LayerCons(k4, [k5], cart, depth);
    }
    var l3 := Layer([k3, k4, k5], cart, depth);
    assert l3 == Pick(k3, n3, depth) + l4 by {
      LayerCons(k3, [k4, k5], cart, depth);
    }
    var l2 := Layer([k2, k3, k4, k5], cart, depth);
    assert l2 == Pick(k2, n2, depth) + l3 by {
      LayerCons(k2, [k3, k4, k5], cart, depth);
    }
    assert Layer([k1, k2, k3, k4, k5], cart, depth) == Pick(k1, n1, depth) + l2 by {
      LayerCons(k1, [k2, k3, k4, k5], cart, depth);
    }
  }

  /** Five pieces joined from the right are joined as a whole. */
  lemma Joined<T>(p1: seq<T>, p2: seq<T>, p3: seq<T>, p4: seq<T>, p5: seq<T>)
    ensures p1 + (p2 + (p3 + (p4 + p5))) == p1 + p2 + p3 + p4 + p5
  {
  }

  /** Layers of each shape the examples need, from which keys' counts exceed the depth. */
  lemma LayerAll<T(!new)>(a: T, b: T, c: T, d: T, e: T, cart: seq<T>, depth: nat)
    requires Count(cart, a) > depth && Count(cart, b) > depth && Count(cart, c) > depth
    requires Count(cart, d) > depth && Count(cart, e) > depth
    ensures Layer([a, b, c, d, e], cart, depth) == [a, b, c, d, e]
  {
    LayerByCounts(a, b, c, d, e, cart, depth, Count(cart, a), Count(cart, b), Count(cart, c), Count(cart, d), Count(cart, e));
    Joined(Pick(a, Count(cart, a), depth), Pick(b, Count(cart, b), depth), Pick(c, Count(cart, c), depth),
           Pick(d, Count(cart, d), depth), Pick(e, Count(cart, e), depth));
  }

  lemma LayerFirstThree<T(!new)>(a: T, b: T, c: T, d: T, e: T, cart: seq<T>, depth: nat)
    requires Count(cart, a) > depth && Count(cart, b) > depth && Count(cart, c) > depth
    requires Count(cart, d) <= depth && Count(cart, e) <= depth
    ensures Layer([a, b, c, d, e], cart, depth) == [a, b, c]
  {
    LayerByCounts(a, b, c, d, e, cart, depth, Count(cart, a), Count(cart, b), Count(cart, c), Count(cart, d), Count(cart, e));
    assert [a] + ([b] + ([c] + ([] + []))) == [a, b, c];
  }

  lemma LayerAllButFourth<T(!new)>(a: T, b: T, c: T, d: T, e: T, cart: seq<T>, depth: nat)
    requires Count(cart, a) > depth && Count(cart, b) > depth && Count(cart, c) > depth
    requires Count(cart, d) <= depth && Count(cart, e) > depth
    ensures Layer([a, b, c, d, e], cart, depth) == [a, b, c, e]
  {
    LayerByCounts(a, b, c, d, e, cart, depth, Count(cart, a), Count(cart, b), Count(cart, c), Count(cart, d), Count(cart, e));
    assert [a] + ([b] + ([c] + ([] + [e]))) == [a, b, c, e];
  }

  lemma LayerOddPlaces<T(!new)>(a: T, b: T, c: T, d: T, e: T, cart: seq<T>, depth: nat)
    requires Count(cart, a) > depth && Count(cart, b) <= depth && Count(cart, c) > depth
    requires Count(cart, d) <= depth && Count(cart, e) > depth
    ensures Layer([a, b, c, d, e], cart, depth) == [a, c, e]
  {
    LayerByCounts(a, b, c, d, e, cart, depth, Count(cart, a), Count(cart, b), Count(cart, c), Count(cart, d), Count(cart, e));
    assert [a] + ([] + ([c] + ([] + [e]))) == [a, c, e];
  }

  lemma LayerFirstAndThird<T(!new)>(a: T, b: T, c: T, d: T, e: T, cart: seq<T>, depth: nat)
    requires Count(cart, a) > depth && Count(cart, b) <= depth && Count(cart, c) > depth
    requires Count(cart, d) <= depth && Count(cart, e) <= depth
    ensures Layer([a, b, c, d, e], cart, depth) == [a, c]
  {
    LayerByCounts(a, b, c, d, e, cart, depth, Count(cart, a), Count(cart, b), Count(cart, c), Count(cart, d), Count(cart, e));
    assert [a] + ([] + ([c] + ([] + []))) == [a, c];
  }

  lemma LayerFirstOnly<T(!new)>(a: T, b: T, c: T, d: T, e: T, cart: seq<T>, depth: nat)
    requires Count(cart, a) > depth && Count(cart, b) <= depth && Count(cart, c) <= depth
    requires Count(cart, d) <= depth && Count(cart, e) <= depth
    ensures Layer([a, b, c, d, e], cart, depth) == [a]
  {
    LayerByCounts(a, b, c, d, e, cart, depth, Count(cart, a), Count(cart, b), Count(cart, c), Count(cart, d), Count(cart, e));
    assert [a] + ([] + ([] + ([] + []))) == [a];
  }

  lemma PartitionOfOne<T(!new)>(series: seq<T>, cart: seq<T>)
    ensures Partition(series, cart, 1) == [Layer(Dedup(series), cart, 0)]
  {
    PartitionIsLayers(series, cart, 1);
  }

  lemma PartitionOfTwo<T(!new)>(series: seq<T>, cart: seq<T>)
    ensures Partition(series, cart, 2) == [Layer(Dedup(series), cart, 0), Layer(Dedup(series), cart, 1)]
  {
    PartitionIsLayers(series, cart, 2);
    var p := Partition(series, cart, 2);
    assert p == [p[0], p[1]];
  }

  lemma PartitionOfFour<T(!new)>(series: seq<T>, cart: seq<T>)
    ensures Partition(series, cart, 4)
            == [Layer(Dedup(series), cart, 0), Layer(Dedup(series), cart, 1),
                Layer(Dedup(series), cart, 2), Layer(Dedup(series), cart, 3)]
  {
    PartitionIsLayers(series, cart, 4);
    var p := Partition(series, cart, 4);
    assert p == [p[0], p[1], p[2], p[3]];
  }

  // The three-book cart: the first three keys once each.

  lemma SmallCounts<T(!new)>(a: T, b: T, c: T, d: T, e: T)
    requires Apart(a, b, c, d, e)
    ensures Count([a, b, c], a) == 1 && Count([a, b, c], b) == 1 && Count([a, b, c], c) == 1
    ensures Count([a, b, c], d) == 0 && Count([a, b, c], e) == 0
  {
  }

  lemma SmallRounds<T(!new)>(a: T, b: T, c: T)
    requires a != b && a != c && b != c
    ensures MaxCount([a, b, c]) == 1
  {
    assert NoDup([a, b, c]);
    MaxCountOfDistinct([a, b, c]);
  }

  lemma SmallShape<T(!new)>(a: T, b: T, c: T, d: T, e: T)
    requires Apart(a, b, c, d, e)
    ensures Partition([a, b, c, d, e], [a, b, c], 1) == [[a, b, c]]
  {
    SmallCounts(a, b, c, d, e);
    ApartKeys(a, b, c, d, e);
    PartitionOfOne([a, b, c, d, e], [a, b, c]);
    LayerFirstThree(a, b, c, d, e, [a, b, c], 0);
  }

  // The eight-book cart: every key, then the first, third and fifth again.

  lemma LargeCounts<T(!new)>(a: T, b: T, c: T, d: T, e: T)
    requires Apart(a, b, c, d, e)
    ensures var s := [a, b, c, d, e, a, c, e];
            Count(s, a) == 2 && Count(s, b) == 1 && Count(s, c) == 2 && Count(s, d) == 1 && Count(s, e) == 2
  {
  }

  lemma LargeRounds<T(!new)>(a: T, b: T, c: T, d: T, e: T)
    requires Apart(a, b, c, d, e)
    ensures MaxCount([a, b, c, d, e, a, c, e]) == 2
  {
    var s := [a, b, c, d, e, a, c, e];
    LargeCounts(a, b, c, d, e);
    var i :| 0 <= i < |s| && Count(s, s[i]) == MaxCount(s);
    assert s[i] in [a, b, c, d, e];
  }

  lemma LargeShape<T(!new)>(a: T, b: T, c: T, d: T, e: T)
    requires Apart(a, b, c, d, e)
    ensures Partition([a, b, c, d, e], [a, b, c, d, e, a, c, e], 2) == [[a, b, c, d, e], [a, c, e]]
  {
    var s := [a, b, c, d, e, a, c, e];
    LargeCounts(a, b, c, d, e);
    ApartKeys(a, b, c, d, e);
    PartitionOfTwo([a, b, c, d, e], s);
    LayerAll(a, b, c, d, e, s, 0);
    LayerOddPlaces(a, b, c, d, e, s, 1);
  }

  // The thirteen-book cart: the eight-book cart, then the first three keys,
  // the first key again, and one key `u` outside the series.

  lemma MixedCountsRepeated<T(!new)>(a: T, b: T, c: T, d: T, e: T, u: T)
    requires Apart(a, b, c, d, e) && u != a && u != b && u != c && u != d && u != e
    ensures var s := [a, b, c, d, e, a, c, e, a, b, c, a, u];
            Count(s, a) == 4 && Count(s, b) == 2 && Count(s, c) == 3
  {
  }

  lemma MixedCountsRest<T(!new)>(a: T, b: T, c: T, d: T, e: T, u: T)
    requires Apart(a, b, c, d, e) && u != a && u != b && u != c && u != d && u != e
    ensures var s := [a, b, c, d, e, a, c, e, a, b, c, a, u];
            Count(s, d) == 1 && Count(s, e) == 2 && Count(s, u) == 1
  {
  }

  lemma MixedCounts<T(!new)>(a: T, b: T, c: T, d: T, e: T, u: T)
    requires Apart(a, b, c, d, e) && u != a && u != b && u != c && u != d && u != e
    ensures var s := [a, b, c, d, e, a, c, e, a, b, c, a, u];
            && Count(s, a) == 4 && Count(s, b) == 2 && Count(s, c) == 3 && Count(s, d) == 1
            && Count(s, e) == 2 && Count(s, u) == 1
  {
    MixedCountsRepeated(a, b, c, d, e, u);
    MixedCountsRest(a, b, c, d, e, u);
  }

  lemma MixedRounds<T(!new)>(a: T, b: T, c: T, d: T, e: T, u: T)
    requires Apart(a, b, c, d, e) && u != a && u != b && u != c && u != d && u != e
    ensures MaxCount([a, b, c, d, e, a, c, e, a, b, c, a, u]) == 4
  {
    var s := [a, b, c, d, e, a, c, e, a, b, c, a, u];
    MixedCounts(a, b, c, d, e, u);
    var i :| 0 <= i < |s| && Count(s, s[i]) == MaxCount(s);
    var x := s[i];
    assert x == a || x == b || x == c || x == d || x == e || x == u;
  }

  lemma MixedLayers<T(!new)>(a: T, b: T, c: T, d: T, e: T, u: T)
    requires Apart(a, b, c, d, e) && u != a && u != b && u != c && u != d && u != e
    ensures var s := [a, b, c, d, e, a, c, e, a, b, c, a, u];
            && Layer([a, b, c, d, e], s, 0) == [a, b, c, d, e]
            && Layer([a, b, c, d, e], s, 1) == [a, b, c, e]
            && Layer([a, b, c, d, e], s, 2) == [a, c]
            && Layer([a, b, c, d, e], s, 3) == [a]
  {
    var s := [a, b, c, d, e, a, c, e, a, b, c, a, u];
    MixedCounts(a, b, c, d, e, u);
    LayerAll(a, b, c, d, e, s, 0);
    LayerAllButFourth(a, b, c, d, e, s, 1);
    LayerFirstAndThird(a, b, c, d, e, s, 2);
    LayerFirstOnly(a, b, c, d, e, s, 3);
  }

  lemma MixedShape<T(!new)>(a: T, b: T, c: T, d: T, e: T, u: T)
    requires Apart(a, b, c, d, e) && u != a && u != b && u != c && u != d && u != e
    ensures Partition([a, b, c, d, e], [a, b, c, d, e, a, c, e, a, b, c, a, u], 4)
            == [[a, b, c, d, e], [a, b, c, e], [a, c], [a]]
  {
    ApartKeys(a, b, c, d, e);
    PartitionOfFour([a, b, c, d, e], [a, b, c, d, e, a, c, e, a, b, c, a, u]);
    MixedLayers(a, b, c, d, e, u);
  }
}
