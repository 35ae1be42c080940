/**
 Sequence utilities that stand for the Python list and collections.Counter
 operations the pricing code relies on: `list.count`, the first-occurrence
 order of a Counter, `Counter - Counter` followed by `elements()`, and the
 running maximum of per-item counts.
 */
module Lists {

  /** Python's `s.count(x)`. */
  function Count<T(==)>(s: seq<T>, x: T): (n: nat)
    ensures n > 0 <==> x in s
    ensures n <= |s|
  {
    multiset(s)[x]
  }

  /** The set of elements of a list, Python's `set(s)`. */
  function Elems<T>(s: seq<T>): set<T>
  {
    set x | x in s
  }

  /** No element occurs twice. */
  predicate NoDup<T(==)>(s: seq<T>)
  {
    forall i, j :: 0 <= i < j < |s| ==> s[i] != s[j]
  }

  /** Subtraction floored at zero, the count arithmetic of `Counter - Counter`. */
  function Monus(a: nat, b: nat): nat
  {
    if a > b then a - b else 0
  }

  lemma CountIn<T>(s: seq<T>, x: T)
    ensures Count(s, x) > 0 <==> x in s
  {
  }

  lemma {:induction false} NoDupCount<T>(s: seq<T>, x: T)
    requires NoDup(s)
    ensures Count(s, x) == if x in s then 1 else 0
  {
    if s != [] {
      assert s == [s[0]] + s[1..];
      assert NoDup(s[1..]) by {
        forall i, j | 0 <= i < j < |s[1..]| ensures s[1..][i] != s[1..][j] {
          assert s[1..][i] == s[i + 1] && s[1..][j] == s[j + 1];
        }
      }
      assert s[0] !in s[1..] by {
        forall k | 0 <= k < |s[1..]| ensures s[1..][k] != s[0] {
          assert s[1..][k] == s[k + 1];
        }
      }
      NoDupCount(s[1..], x);
    }
  }

  /**
   The distinct elements of `s` in order of first occurrence: the key order of
   `Counter(s)`, which remembers insertion order.
   */
  function Dedup<T(==,!new)>(s: seq<T>): (r: seq<T>)
    ensures NoDup(r)
    ensures forall x :: x in r <==> x in s
  {
    if |s| == 0 then []
    else
      var d := Dedup(s[..|s| - 1]);
      assert s == s[..|s| - 1] + [s[|s| - 1]];
      if s[|s| - 1] in d then d else d + [s[|s| - 1]]
  }

  /** `n` copies of `x`. */
  function Repeat<T>(x: T, n: nat): (r: seq<T>)
    ensures |r| == n
  {
    if n == 0 then [] else [x] + Repeat(x, n - 1)
  }

  lemma {:induction false} RepeatCount<T>(x: T, n: nat, y: T)
    ensures Count(Repeat(x, n), y) == if y == x then n else 0
  {
    if n > 0 {
      RepeatCount(x, n - 1, y);
      assert multiset(Repeat(x, n)) == multiset([x]) + multiset(Repeat(x, n - 1));
    }
  }

  /**
   `list((Counter(larger) - Counter(smaller)).elements())` restricted to the
   keys `keys`: each key in turn, repeated by its floored count difference.
   */
  function CounterElements<T(==)>(keys: seq<T>, larger: seq<T>, smaller: seq<T>): seq<T>
  {
    if keys == [] then []
    else
      Repeat(keys[0], Monus(Count(larger, keys[0]), Count(smaller, keys[0])))
      + CounterElements(keys[1..], larger, smaller)
  }

  lemma {:induction false} CounterElementsCount<T>(keys: seq<T>, larger: seq<T>, smaller: seq<T>, x: T)
    requires NoDup(keys)
    ensures Count(CounterElements(keys, larger, smaller), x)
            == if x in keys then Monus(Count(larger, x), Count(smaller, x)) else 0
  {
    if keys != [] {
      var k := keys[0];
      assert keys == [k] + keys[1..];
      assert NoDup(keys[1..]) by {
        forall i, j | 0 <= i < j < |keys[1..]| ensures keys[1..][i] != keys[1..][j] {
          assert keys[1..][i] == keys[i + 1] && keys[1..][j] == keys[j + 1];
        }
      }
      assert k !in keys[1..] by {
        forall i | 0 <= i < |keys[1..]| ensures keys[1..][i] != k {
          assert keys[1..][i] == keys[i + 1];
        }
      }
      RepeatCount(k, Monus(Count(larger, k), Count(smaller, k)), x);
      CounterElementsCount(keys[1..], larger, smaller, x);
    }
  }

  /**
   The helper `subtract_list`: multiset difference of two lists with counts
   floored at zero, listed in the first-occurrence order of `larger`.
   */
  function SubtractList<T(==,!new)>(larger: seq<T>, smaller: seq<T>): (r: seq<T>)
    ensures forall x :: Count(r, x) == Monus(Count(larger, x), Count(smaller, x))
    ensures multiset(r) <= multiset(larger)
  {
    var keys := Dedup(larger);
    var r := CounterElements(keys, larger, smaller);
    assert forall x :: Count(r, x) == Monus(Count(larger, x), Count(smaller, x)) by {
      forall x ensures Count(r, x) == Monus(Count(larger, x), Count(smaller, x)) {
        CounterElementsCount(keys, larger, smaller, x);
        CountIn(larger, x);
      }
    }
    forall x ensures multiset(r)[x] <= multiset(larger)[x] {
      assert Count(r, x) <= Count(larger, x);
    }
    r
  }

  /**
   The running maximum over `keys` of the counts in `s`, as the loop
   `if s.count(k) > m: m = s.count(k)` computes it from `m = 0`.
   */
  function MaxCountOver<T(==)>(keys: seq<T>, s: seq<T>): (m: nat)
    ensures forall i :: 0 <= i < |keys| ==> Count(s, keys[i]) <= m
    ensures m == 0 || exists i :: 0 <= i < |keys| && Count(s, keys[i]) == m
  {
    if |keys| == 0 then 0
    else
      var m := MaxCountOver(keys[..|keys| - 1], s);
      var c := Count(s, keys[|keys| - 1]);
      assert forall i :: 0 <= i < |keys| - 1 ==> keys[..|keys| - 1][i] == keys[i];
      if c > m then c else m
  }

  /** The largest number of copies of any single element of `s`. */
  function MaxCount<T(==,!new)>(s: seq<T>): (m: nat)
    ensures forall x :: Count(s, x) <= m
    ensures m == 0 <==> |s| == 0
    ensures |s| > 0 ==> exists i :: 0 <= i < |s| && Count(s, s[i]) == m
  {
    var m := MaxCountOver(s, s);
    assert forall x :: Count(s, x) <= m by {
      forall x ensures Count(s, x) <= m {
        CountIn(s, x);
        if x in s {
          var i :| 0 <= i < |s| && s[i] == x;
        }
      }
    }
    assert |s| > 0 ==> Count(s, s[0]) > 0 by {
      if |s| > 0 {
        CountIn(s, s[0]);
      }
    }
    m
  }

  /** The elements of `s` that lie in `keep`, in order. */
  function KeepIn<T(==,!new)>(s: seq<T>, keep: set<T>): (r: seq<T>)
    ensures forall x :: Count(r, x) == if x in keep then Count(s, x) else 0
  {
    if s == [] then []
    else
      assert s == [s[0]] + s[1..];
      (if s[0] in keep then [s[0]] else []) + KeepIn(s[1..], keep)
  }

  /** Concatenation of a list of lists. */
  function Flatten<T>(ss: seq<seq<T>>): seq<T>
  {
    if ss == [] then [] else ss[0] + Flatten(ss[1..])
  }

  /** Sum of the lengths of a list of lists. */
  function TotalLength<T>(ss: seq<seq<T>>): nat
  {
    if ss == [] then 0 else |ss[0]| + TotalLength(ss[1..])
  }

  /** Taking one element and then the rest out of a multiset takes them all out. */
  lemma SubtractInTurn<T>(m: multiset<T>, x: T, rest: multiset<T>)
    requires multiset{x} + rest <= m
    ensures rest <= m - multiset{x}
    ensures (m - multiset{x}) - rest == m - (multiset{x} + rest)
  {
  }

  /** With `x` in `m`, taking `x` and then `rest` out is possible exactly when taking both at once is. */
  lemma TakeOneThenRest<T>(m: multiset<T>, x: T, rest: multiset<T>)
    requires x in m
    ensures rest <= m - multiset{x} <==> multiset{x} + rest <= m
    ensures (m - multiset{x}) - rest == m - (multiset{x} + rest)
  {
  }

  /** A list without repeats is its own first-occurrence order. */
  lemma {:induction false} DedupOfDistinct<T(!new)>(s: seq<T>)
    requires NoDup(s)
    ensures Dedup(s) == s
  {
    if |s| > 0 {
      var init := s[..|s| - 1];
      assert NoDup(init);
      DedupOfDistinct(init);
      assert s[|s| - 1] !in init;
      assert s == init + [s[|s| - 1]];
    }
  }

  /** In a non-empty list without repeats every element occurs once, so the largest count is 1. */
  lemma MaxCountOfDistinct<T(!new)>(s: seq<T>)
    requires NoDup(s) && |s| > 0
    ensures MaxCount(s) == 1
  {
    var i :| 0 <= i < |s| && Count(s, s[i]) == MaxCount(s);
    NoDupCount(s, s[i]);
  }

  /** Values counted alike in two lists are bounded by both lists' largest counts. */
  lemma MaxCountBoundsBoth<T(!new)>(keys: seq<T>, a: seq<T>, b: seq<T>)
    requires forall x :: x in keys ==> Count(a, x) == Count(b, x)
    ensures forall x :: x in keys ==> Count(a, x) <= MaxCount(a) && Count(a, x) <= MaxCount(b)
  {
    forall x | x in keys ensures Count(a, x) <= MaxCount(a) && Count(a, x) <= MaxCount(b) {
      assert Count(b, x) <= MaxCount(b);
    }
  }

  /** Adding any value commutes with taking away an `x` that is already there. */
  lemma AddThenTakePresent<T>(a: T, m: multiset<T>, x: T)
    requires x in m
    ensures multiset{a} + (m - multiset{x}) == (multiset{a} + m) - multiset{x}
  {
  }

  /** Taking the last of three elements out of their multiset leaves the first two. */
  lemma TakeLastOfThree<T>(x: T, y: T, z: T)
    requires z != x && z != y
    ensures multiset([x, y, z]) - multiset{z} == multiset{x, y}
  {
    assert multiset([x, y, z]) == multiset{x, y} + multiset{z};
  }

  /** Adding a value other than `x` commutes with taking one `x` away. */
  lemma AddThenTake<T>(a: T, m: multiset<T>, x: T)
    requires a != x
    ensures multiset{a} + (m - multiset{x}) == (multiset{a} + m) - multiset{x}
  {
  }
}
