/** Item labels, itemsets and the enumeration helpers shared by the miner and the
    rule generator: Python's order on `str`, `sorted` applied to a set of labels,
    and `itertools.combinations` over a sorted sequence of labels. */
module Itemsets {

  type Item = string
  type Itemset = set<Item>

  predicate Distinct<T(==)>(xs: seq<T>)
  {
    forall i, j :: 0 <= i < j < |xs| ==> xs[i] != xs[j]
  }

  function Elems<T>(xs: seq<T>): set<T>
  {
    set x | x in xs
  }

  // ---------------------------------------------------------------------------
  // Python's order on strings: lexicographic by code point, a prefix first.

  predicate LexLeq(a: string, b: string)
  {
    a == [] || (b != [] && (a[0] < b[0] || (a[0] == b[0] && LexLeq(a[1..], b[1..]))))
  }

  predicate LexLess(a: string, b: string)
  {
    LexLeq(a, b) && a != b
  }

  lemma {:induction false} LexLeqReflexive(a: string)
    ensures LexLeq(a, a)
  {
    if a != [] {
      LexLeqReflexive(a[1..]);
    }
  }

  lemma {:induction false} LexLeqTotal(a: string, b: string)
    ensures LexLeq(a, b) || LexLeq(b, a)
  {
    if a != [] && b != [] && a[0] == b[0] {
      LexLeqTotal(a[1..], b[1..]);
    }
  }

  lemma {:induction false} LexLeqAntisymmetric(a: string, b: string)
    requires LexLeq(a, b) && LexLeq(b, a)
    ensures a == b
  {
    if a != [] && b != [] {
      LexLeqAntisymmetric(a[1..], b[1..]);
      assert a == [a[0]] + a[1..] && b == [b[0]] + b[1..];
    }
  }

  lemma {:induction false} LexLeqTransitive(a: string, b: string, c: string)
    requires LexLeq(a, b) && LexLeq(b, c)
    ensures LexLeq(a, c)
  {
    if a != [] && b != [] && c != [] && a[0] == b[0] == c[0] {
      LexLeqTransitive(a[1..], b[1..], c[1..]);
    }
  }

  /** `m` is the least label of `s` in Python's string order. */
  predicate IsLexMin(m: string, s: set<string>)
  {
    m in s && forall y :: y in s ==> LexLeq(m, y)
  }

  lemma LexMinExists(s: set<string>)
    requires s != {}
    ensures exists m :: IsLexMin(m, s)
  {
    var x :| x in s;
    if s == {x} {
      LexLeqReflexive(x);
      assert IsLexMin(x, s);
    } else {
      LexMinExists(s - {x});
      var m :| IsLexMin(m, s - {x});
      LexLeqTotal(m, x);
      if LexLeq(m, x) {
        assert IsLexMin(m, s);
      } else {
        forall y | y in s
          ensures LexLeq(x, y)
        {
          if y == x {
            LexLeqReflexive(x);
          } else {
            LexLeqTransitive(x, m, y);
          }
        }
        assert IsLexMin(x, s);
      }
    }
  }

  lemma LexMinUnique(s: set<string>)
    ensures forall m, m' :: IsLexMin(m, s) && IsLexMin(m', s) ==> m == m'
  {
    forall m, m' | IsLexMin(m, s) && IsLexMin(m', s)
      ensures m == m'
    {
      LexLeqAntisymmetric(m, m');
    }
  }

  predicate StrictlySorted(r: seq<string>)
  {
    forall i, j :: 0 <= i < j < |r| ==> LexLess(r[i], r[j])
  }

  /** `sorted(s)` for a set of labels. */
  function SortedItems(s: set<Item>): seq<Item>
    decreases s
  {
    if s == {} then []
    else
      LexMinExists(s);
      LexMinUnique(s);
      var m :| IsLexMin(m, s);
      [m] + SortedItems(s - {m})
  }

  /** `sorted(s)` lists every label of `s` once, in strictly increasing string
      order. */
  lemma {:induction false} SortedItemsSpec(s: set<Item>)
    ensures |SortedItems(s)| == |s|
    ensures Elems(SortedItems(s)) == s
    ensures StrictlySorted(SortedItems(s))
    ensures Distinct(SortedItems(s))
    decreases s
  {
    if s != {} {
      LexMinExists(s);
      LexMinUnique(s);
      var m :| IsLexMin(m, s);
      SortedItemsSpec(s - {m});
      PrependMin(m, s, SortedItems(s - {m}));
    }
  }

  lemma PrependMin(m: Item, s: set<Item>, rest: seq<Item>)
    requires IsLexMin(m, s)
    requires |rest| == |s - {m}| && Elems(rest) == s - {m} && StrictlySorted(rest)
    ensures |[m] + rest| == |s| && Elems([m] + rest) == s
    ensures StrictlySorted([m] + rest) && Distinct([m] + rest)
  {
    assert Elems([m] + rest) == {m} + Elems(rest);
    forall y | y in rest
      ensures LexLess(m, y)
    {
      assert y in Elems(rest);
    }
    ConsSorted(m, rest);
  }

  /** A label below every label of a sorted sequence can go in front of it. */
  lemma ConsSorted(m: string, rest: seq<string>)
    requires StrictlySorted(rest)
    requires forall y :: y in rest ==> LexLess(m, y)
    ensures StrictlySorted([m] + rest) && Distinct([m] + rest)
  {
    var r := [m] + rest;
    forall i, j | 0 <= i < j < |r|
      ensures LexLess(r[i], r[j])
    {
      assert r[j] == rest[j - 1];
      if i != 0 {
        assert r[i] == rest[i - 1];
      }
    }
  }

  // ---------------------------------------------------------------------------
  // itertools.combinations

  /** `itertools.combinations(xs, k)` with each tuple taken as a frozenset: the
      k-element choices from `xs` in the order of their index tuples, so those
      holding `xs[0]` come first. */
  function Combinations(xs: seq<Item>, k: nat): (r: seq<Itemset>)
    decreases |xs|
  {
    if k == 0 then [{}]
    else if xs == [] then []
    else AddToEach(xs[0], Combinations(xs[1..], k - 1)) + Combinations(xs[1..], k)
  }

  function AddToEach(x: Item, cs: seq<Itemset>): (r: seq<Itemset>)
    ensures |r| == |cs|
    ensures forall i :: 0 <= i < |cs| ==> r[i] == {x} + cs[i]
  {
    seq(|cs|, i requires 0 <= i < |cs| => {x} + cs[i])
  }

  lemma SplitFirst(xs: seq<Item>)
    requires xs != []
    ensures Elems(xs) == {xs[0]} + Elems(xs[1..])
    ensures Distinct(xs) ==> Distinct(xs[1..]) && xs[0] !in Elems(xs[1..])
  {
    assert xs == [xs[0]] + xs[1..];
    if Distinct(xs) {
      forall i, j | 0 <= i < j < |xs[1..]|
        ensures xs[1..][i] != xs[1..][j]
      {
        assert xs[1..][i] == xs[i + 1] && xs[1..][j] == xs[j + 1];
      }
    }
  }

  /** Two duplicate-free sequences with no element in common concatenate to a
      duplicate-free sequence. */
  lemma DistinctConcat<T>(a: seq<T>, b: seq<T>)
    requires Distinct(a) && Distinct(b)
    requires forall i, j :: 0 <= i < |a| && 0 <= j < |b| ==> a[i] != b[j]
    ensures Distinct(a + b)
  {
    var ab := a + b;
    forall i, j | 0 <= i < j < |ab|
      ensures ab[i] != ab[j]
    {
      if j >= |a| {
        assert ab[j] == b[j - |a|];
        if i >= |a| {
          assert ab[i] == b[i - |a|];
        }
      }
    }
  }

  lemma {:induction false} CombinationsSound(xs: seq<Item>, k: nat, c: Itemset)
    requires Distinct(xs)
    requires c in Combinations(xs, k)
    ensures c <= Elems(xs) && |c| == k
    decreases |xs|, 1
  {
    if k != 0 && xs != [] {
      var front := AddToEach(xs[0], Combinations(xs[1..], k - 1));
      assert Combinations(xs, k) == front + Combinations(xs[1..], k);
      if c in front {
        var i :| 0 <= i < |front| && front[i] == c;
        FrontSound(xs, k, Combinations(xs[1..], k - 1)[i]);
      } else {
        assert Distinct(xs[1..]) && Elems(xs[1..]) <= Elems(xs) by {
          SplitFirst(xs);
        }
        CombinationsSound(xs[1..], k, c);
      }
    }
  }

  /** The combinations that take the first label: one of the smaller
      combinations of the rest, plus that label. */
  lemma {:induction false} FrontSound(xs: seq<Item>, k: nat, rest: Itemset)
    requires Distinct(xs) && xs != [] && k != 0
    requires rest in Combinations(xs[1..], k - 1)
    ensures {xs[0]} + rest <= Elems(xs) && |{xs[0]} + rest| == k
    decreases |xs|, 0
  {
    var x, tail := xs[0], xs[1..];
    var pool := Elems(xs);
    assert Distinct(tail) && Elems(tail) <= pool && x in pool && x !in Elems(tail) by {
      SplitFirst(xs);
    }
    assert rest <= Elems(tail) && |rest| == k - 1 by {
      CombinationsSound(tail, k - 1, rest);
    }
    AddFresh(x, rest, Elems(tail), pool);
  }

  /** Adding a label from outside a pool to a subset of the pool grows the
      subset by one. */
  lemma AddFresh(x: Item, rest: Itemset, pool: set<Item>, whole: set<Item>)
    requires rest <= pool && x !in pool && pool <= whole && x in whole
    ensures {x} + rest <= whole && |{x} + rest| == |rest| + 1
  {
    assert x !in rest;
  }

  lemma {:induction false} CombinationsComplete(xs: seq<Item>, k: nat, c: Itemset)
    requires c <= Elems(xs) && |c| == k
    ensures c in Combinations(xs, k)
    decreases |xs|
  {
    if k == 0 {
      assert c == {};
    } else if xs == [] {
      assert false;
    } else {
      var x, tail := xs[0], xs[1..];
      SplitFirst(xs);
      if x in c {
        var rest := c - {x};
        CombinationsComplete(tail, k - 1, rest);
        var withFirst := Combinations(tail, k - 1);
        var i :| 0 <= i < |withFirst| && withFirst[i] == rest;
        assert AddToEach(x, withFirst)[i] == c;
      } else {
        CombinationsComplete(tail, k, c);
      }
    }
  }

  /** Over a duplicate-free sequence, the combinations of size k are exactly the
      k-element subsets of its labels. */
  lemma CombinationsMembers(xs: seq<Item>, k: nat, c: Itemset)
    requires Distinct(xs)
    ensures c in Combinations(xs, k) <==> c <= Elems(xs) && |c| == k
  {
    if c in Combinations(xs, k) {
      CombinationsSound(xs, k, c);
    }
    if c <= Elems(xs) && |c| == k {
      CombinationsComplete(xs, k, c);
    }
  }

  /** Over a duplicate-free sequence no combination is produced twice. */
  lemma {:induction false} CombinationsDistinct(xs: seq<Item>, k: nat)
    requires Distinct(xs)
    ensures Distinct(Combinations(xs, k))
    decreases |xs|
  {
    if k != 0 && xs != [] {
      var x, tail := xs[0], xs[1..];
      SplitFirst(xs);
      var withFirst := Combinations(tail, k - 1);
      var without := Combinations(tail, k);
      var front := AddToEach(x, withFirst);
      CombinationsDistinct(tail, k - 1);
      CombinationsDistinct(tail, k);
      forall i | 0 <= i < |withFirst|
        ensures x !in withFirst[i]
      {
        CombinationsMembers(tail, k - 1, withFirst[i]);
      }
      forall i | 0 <= i < |without|
        ensures x !in without[i]
      {
        CombinationsMembers(tail, k, without[i]);
      }
      forall i, j | 0 <= i < j < |front|
        ensures front[i] != front[j]
      {
        assert front[i] - {x} == withFirst[i];
        assert front[j] - {x} == withFirst[j];
      }
      var all := front + without;
      forall i, j | 0 <= i < j < |all|
        ensures all[i] != all[j]
      {
        if i < |front| && |front| <= j {
          assert x in all[i];
          assert x !in all[j];
        }
      }
    }
  }

  // ---------------------------------------------------------------------------
  // Counting

  /** The binomial coefficient, by Pascal's rule. */
  function Choose(n: nat, k: nat): nat
  {
    if k == 0 then 1
    else if n == 0 then 0
    else Choose(n - 1, k - 1) + Choose(n - 1, k)
  }

  function Pow2(n: nat): nat
  {
    if n == 0 then 1 else 2 * Pow2(n - 1)
  }

  /** Choose(n, 0) + ... + Choose(n, j - 1). */
  function SumChoose(n: nat, j: nat): nat
  {
    if j == 0 then 0 else SumChoose(n, j - 1) + Choose(n, j - 1)
  }

  lemma {:induction false} CombinationsCount(xs: seq<Item>, k: nat)
    ensures |Combinations(xs, k)| == Choose(|xs|, k)
    decreases |xs|
  {
    if k != 0 && xs != [] {
      CombinationsCount(xs[1..], k - 1);
      CombinationsCount(xs[1..], k);
    }
  }

  lemma {:induction false} ChooseBeyond(n: nat, k: nat)
    requires k > n
    ensures Choose(n, k) == 0
  {
    if n != 0 {
      ChooseBeyond(n - 1, k - 1);
      ChooseBeyond(n - 1, k);
    }
  }

  lemma {:induction false} ChooseAll(n: nat)
    ensures Choose(n, n) == 1
  {
    if n != 0 {
      ChooseAll(n - 1);
      ChooseBeyond(n - 1, n);
    }
  }

  lemma {:induction false} SumChoosePascal(n: nat, j: nat)
    ensures SumChoose(n + 1, j + 1) == SumChoose(n, j) + SumChoose(n, j + 1)
  {
    if j != 0 {
      SumChoosePascal(n, j - 1);
    }
  }

  /** The sizes of all subsets of an n-element set add up to 2^n. */
  lemma {:induction false} SumChooseAll(n: nat)
    ensures SumChoose(n, n + 1) == Pow2(n)
  {
    if n != 0 {
      SumChooseAll(n - 1);
      SumChoosePascal(n - 1, n);
      ChooseBeyond(n - 1, n);
    }
  }
}
