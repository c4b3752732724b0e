/** The Apriori engine of src/Arules.py: the inverted index built from the data
    frame, support by intersecting index entries, the level-wise search for
    frequent itemsets with its downward-closure prune, and the association rules
    derived from every left/right split of a frequent itemset. */
module Arules {
  import opened Wrappers
  import opened Itemsets
  import opened Utils

  /** `FrequentItemSet(items, support)`. */
  datatype FrequentItemSet = FrequentItemSet(items: Itemset, support: real)

  /** `AssociationRule(left, right, left_support, right_support, support,
      confidence, lift)`. */
  datatype AssociationRule = AssociationRule(
    left: Itemset, right: Itemset,
    leftSupport: real, rightSupport: real, support: real,
    confidence: real, lift: real)

  // ---------------------------------------------------------------------------
  // Support

  /** Every row number stored anywhere in the index. */
  function IndexedRows(index: Index): set<nat>
  {
    set x, r | x in index && r in index[x] :: r
  }

  /** The intersection of the index entries of `items`: the rows holding all of
      them. */
  function Covering(index: Index, items: Itemset): set<nat>
    requires items <= index.Keys
  {
    set r | r in IndexedRows(index) && forall x | x in items :: r in index[x]
  }

  /** Every row stored in the index is below the row count, as in an index
      built from `count` rows. */
  ghost predicate RowsBelow(index: Index, count: nat)
  {
    forall x, r :: x in index && r in index[x] ==> r < count
  }

  /** What `calculate_support` returns: 1 for no items (even with no rows), 0
      with no rows or when an item has no index entry, and otherwise the share
      of the rows that hold every item. */
  function Support(index: Index, count: nat, items: Itemset): (r: real)
    ensures items == {} ==> r == 1.0
    ensures items != {} && (count == 0 || !(items <= index.Keys)) ==> r == 0.0
    ensures 0.0 <= r
    ensures RowsBelow(index, count) ==> r <= 1.0
  {
    if items == {} then 1.0
    else if count == 0 then 0.0
    else if !(items <= index.Keys) then 0.0
    else
      var covered := Covering(index, items);
      CoveringBelow(index, count, items);
      (|covered| as real) / (count as real)
  }

  lemma CoveringBelow(index: Index, count: nat, items: Itemset)
    requires items <= index.Keys
    ensures RowsBelow(index, count) ==> |Covering(index, items)| <= count
  {
    if RowsBelow(index, count) {
      CardBelow(Covering(index, items), count);
    }
  }

  /** A set of row numbers below n has at most n elements. */
  lemma {:induction false} CardBelow(s: set<nat>, n: nat)
    requires forall r :: r in s ==> r < n
    ensures |s| <= n
  {
    if n != 0 {
      CardBelow(s - {n - 1}, n - 1);
    } else {
      assert s == {};
    }
  }

  lemma SubsetCard<T>(a: set<T>, b: set<T>)
    requires a <= b
    ensures |a| <= |b|
    ensures a != b ==> |a| < |b|
  {
    assert b == a + (b - a);
  }

  /** Anti-monotonicity: adding items never raises support. For an empty
      smaller set this needs the index to be one built from `count` rows. */
  lemma SupportAntiMonotone(index: Index, count: nat, a: Itemset, b: Itemset)
    requires a <= b
    requires a != {} || RowsBelow(index, count)
    ensures Support(index, count, b) <= Support(index, count, a)
  {
    if a != {} && count != 0 && b <= index.Keys {
      var ca, cb := Covering(index, a), Covering(index, b);
      assert cb <= ca;
      SubsetCard(cb, ca);
      ShareMonotone(|cb| as real, |ca| as real, count as real);
    }
  }

  lemma ShareMonotone(x: real, y: real, whole: real)
    requires x <= y && whole > 0.0
    ensures x / whole <= y / whole
  {
    assert x / whole * whole == x && y / whole * whole == y;
  }

  /** Over the index of a list of transactions, support is the share of the
      transactions that hold every item. */
  lemma SupportIsShareOfRows(rows: seq<seq<Item>>, items: Itemset)
    requires rows != [] && items != {}
    ensures Support(InvertedIndex(rows), |rows|, items)
         == (|set r: nat | r < |rows| && items <= Elems(rows[r])| as real) / (|rows| as real)
  {
    var index := InvertedIndex(rows);
    var holding := set r: nat | r < |rows| && items <= Elems(rows[r]);
    if items <= index.Keys {
      var x :| x in items;
      forall r
        ensures r in Covering(index, items) <==> r in holding
      {
        if r in holding {
          assert x in rows[r];
          assert r in Occurrences(rows, x);
          assert r in IndexedRows(index);
          forall y | y in items
            ensures r in index[y]
          {
            assert y in rows[r];
            assert r in Occurrences(rows, y);
          }
        }
        if r in Covering(index, items) {
          forall y | y in items
            ensures y in Elems(rows[r])
          {
            assert r in Occurrences(rows, y);
          }
        }
      }
      assert Covering(index, items) == holding;
    } else {
      var y :| y in items && y !in index;
      assert holding <= Occurrences(rows, y);
    }
  }

  // ---------------------------------------------------------------------------
  // Candidate generation

  /** `frozenset(chain.from_iterable(prev_large))`: every item of any itemset. */
  function UnionAll(sets: set<Itemset>): set<Item>
  {
    set s, x | s in sets && x in s :: x
  }

  /** Every j-element subset of `c` (as `combinations(c, j)` lists them) is in
      `prev`. */
  predicate SubsetsIn(c: Itemset, prev: set<Itemset>, j: nat)
  {
    var subsets := Combinations(SortedItems(c), j);
    forall i | 0 <= i < |subsets| :: subsets[i] in prev
  }

  /** The prune of `generate_next_candidates` for k >= 3: keep a candidate when
      all its (k-1)-subsets were frequent. */
  function KeepClosed(candidates: seq<Itemset>, prev: set<Itemset>, k: nat): (r: seq<Itemset>)
    requires k >= 1
    ensures |r| <= |candidates|
  {
    if candidates == [] then []
    else
      (if SubsetsIn(candidates[0], prev, k - 1) then [candidates[0]] else [])
        + KeepClosed(candidates[1..], prev, k)
  }

  /** `generate_next_candidates(prev_large, current_k)`. */
  function GenerateNextCandidates(prevLarge: set<Itemset>, currentK: nat): seq<Itemset>
  {
    var items := SortedItems(UnionAll(prevLarge));
    var maybeNextCandidates := Combinations(items, currentK);
    if currentK < 3 then maybeNextCandidates
    else KeepClosed(maybeNextCandidates, prevLarge, currentK)
  }

  /** Every `j`-element subset of `c` is in `prev`. */
  ghost predicate AllSubsetsIn(c: Itemset, prev: set<Itemset>, j: nat)
  {
    forall s :: s <= c && |s| == j ==> s in prev
  }

  lemma SubsetsInMeaning(c: Itemset, prev: set<Itemset>, j: nat)
    ensures SubsetsIn(c, prev, j) <==> AllSubsetsIn(c, prev, j)
  {
    var sorted := SortedItems(c);
    SortedItemsSpec(c);
    var subsets := Combinations(sorted, j);
    if SubsetsIn(c, prev, j) {
      forall s | s <= c && |s| == j
        ensures s in prev
      {
        CombinationsMembers(sorted, j, s);
      }
    }
    if AllSubsetsIn(c, prev, j) {
      forall i | 0 <= i < |subsets|
        ensures subsets[i] in prev
      {
        CombinationsMembers(sorted, j, subsets[i]);
      }
    }
  }

  lemma {:induction false} KeepClosedMembers(candidates: seq<Itemset>, prev: set<Itemset>, k: nat, c: Itemset)
    requires k >= 1
    ensures c in KeepClosed(candidates, prev, k) <==> c in candidates && SubsetsIn(c, prev, k - 1)
    decreases |candidates|
  {
    if candidates != [] {
      KeepClosedMembers(candidates[1..], prev, k, c);
      assert candidates == [candidates[0]] + candidates[1..];
    }
  }

  lemma {:induction false} KeepClosedDistinct(candidates: seq<Itemset>, prev: set<Itemset>, k: nat)
    requires k >= 1
    requires Distinct(candidates)
    ensures Distinct(KeepClosed(candidates, prev, k))
    decreases |candidates|
  {
    if candidates != [] {
      var tail := candidates[1..];
      assert Distinct(tail) by {
        forall i, j | 0 <= i < j < |tail|
          ensures tail[i] != tail[j]
        {
          assert tail[i] == candidates[i + 1] && tail[j] == candidates[j + 1];
        }
      }
      KeepClosedDistinct(tail, prev, k);
      var rest := KeepClosed(tail, prev, k);
      if SubsetsIn(candidates[0], prev, k - 1) {
        forall i | 0 <= i < |rest|
          ensures rest[i] != candidates[0]
        {
          KeepClosedMembers(tail, prev, k, rest[i]);
          var j :| 0 <= j < |tail| && tail[j] == rest[i];
          assert candidates[j + 1] == tail[j];
        }
        var all := [candidates[0]] + rest;
        forall i, j | 0 <= i < j < |all|
          ensures all[i] != all[j]
        {
          if i != 0 {
            assert all[i] == rest[i - 1] && all[j] == rest[j - 1];
          }
        }
      } else {
        assert KeepClosed(candidates, prev, k) == rest;
      }
    }
  }

  /** A candidate of `generate_next_candidates` has exactly `currentK` items, all
      drawn from the previous level; below size 3 every such combination is a
      candidate, and from size 3 on exactly those whose (currentK-1)-subsets
      were all in `prevLarge`. */
  lemma GenerateNextCandidatesMembers(prevLarge: set<Itemset>, currentK: nat, c: Itemset)
    ensures c in GenerateNextCandidates(prevLarge, currentK)
        <==> && c <= UnionAll(prevLarge) && |c| == currentK
             && (currentK >= 3 ==> AllSubsetsIn(c, prevLarge, currentK - 1))
  {
    var items := SortedItems(UnionAll(prevLarge));
    var combos := Combinations(items, currentK);
    assert c in combos <==> c <= UnionAll(prevLarge) && |c| == currentK by {
      SortedItemsSpec(UnionAll(prevLarge));
      CombinationsMembers(items, currentK, c);
    }
    if currentK >= 3 {
      assert c in KeepClosed(combos, prevLarge, currentK)
         <==> c in combos && AllSubsetsIn(c, prevLarge, currentK - 1) by {
        KeepClosedMembers(combos, prevLarge, currentK, c);
        SubsetsInMeaning(c, prevLarge, currentK - 1);
      }
    }
  }

  /** No candidate is generated twice. */
  lemma GenerateNextCandidatesDistinct(prevLarge: set<Itemset>, currentK: nat)
    ensures Distinct(GenerateNextCandidates(prevLarge, currentK))
  {
    var items := SortedItems(UnionAll(prevLarge));
    SortedItemsSpec(UnionAll(prevLarge));
    CombinationsDistinct(items, currentK);
    if currentK >= 3 {
      KeepClosedDistinct(Combinations(items, currentK), prevLarge, currentK);
    }
  }

  /** Candidate generation runs dry once the size asked for exceeds the number
      of items left: this is what ends the level-wise search. */
  lemma GenerateNextCandidatesRunsDry(prevLarge: set<Itemset>, currentK: nat)
    requires currentK > |UnionAll(prevLarge)|
    ensures GenerateNextCandidates(prevLarge, currentK) == []
  {
    var r := GenerateNextCandidates(prevLarge, currentK);
    if r != [] {
      GenerateNextCandidatesMembers(prevLarge, currentK, r[0]);
      SubsetCard(r[0], UnionAll(prevLarge));
    }
  }

  lemma SubsetOfSize(s: Itemset, k: nat) returns (t: Itemset)
    requires k <= |s|
    ensures t <= s && |t| == k
  {
    if k == |s| {
      t := s;
    } else {
      var x :| x in s;
      t := SubsetOfSize(s - {x}, k);
    }
  }

  /** The correctness of the prune: if the previous level holds every frequent
      k-itemset, the next candidates include every frequent (k+1)-itemset. */
  lemma AprioriComplete(index: Index, count: nat, items: set<Item>, larges: set<Itemset>,
                        k: nat, minSupport: real, s: Itemset)
    requires k >= 1
    requires forall t :: t <= items && |t| == k && Support(index, count, t) >= minSupport ==> t in larges
    requires s <= items && |s| == k + 1 && Support(index, count, s) >= minSupport
    ensures s in GenerateNextCandidates(larges, k + 1)
  {
    // every item of s lies in some frequent k-subset of s
    forall x | x in s
      ensures x in UnionAll(larges)
    {
      assert |s - {x}| == k;
      var y :| y in s - {x};
      var t := s - {y};
      assert x in t && |t| == k;
      SupportAntiMonotone(index, count, t, s);
      assert t in larges;
    }
    if k + 1 >= 3 {
      forall t | t <= s && |t| == k
        ensures t in larges
      {
        SupportAntiMonotone(index, count, t, s);
      }
    }
    GenerateNextCandidatesMembers(larges, k + 1, s);
  }

  // ---------------------------------------------------------------------------
  // Rule enumeration

  /** The left sides of `generate_rules_from_single_frequent_item_set`: for every
      cursor from `cursor` to n-1, every combination of that many sorted items. */
  function SplitLefts(sorted: seq<Item>, cursor: nat): seq<Itemset>
    decreases |sorted| - cursor
  {
    if cursor >= |sorted| then []
    else Combinations(sorted, cursor) + SplitLefts(sorted, cursor + 1)
  }

  lemma {:induction false} SplitLeftsMembers(sorted: seq<Item>, cursor: nat, left: Itemset)
    requires Distinct(sorted)
    ensures left in SplitLefts(sorted, cursor) <==>
            left <= Elems(sorted) && cursor <= |left| < |sorted|
    decreases |sorted| - cursor
  {
    if cursor < |sorted| {
      var now, later := Combinations(sorted, cursor), SplitLefts(sorted, cursor + 1);
      CombinationsMembers(sorted, cursor, left);
      SplitLeftsMembers(sorted, cursor + 1, left);
      assert left in now + later <==> left in now || left in later;
      assert SplitLefts(sorted, cursor) == now + later;
    } else {
      assert SplitLefts(sorted, cursor) == [];
    }
  }

  /** Every left side from `cursor` on has at least `cursor` items. */
  lemma {:induction false} SplitLeftsSizes(sorted: seq<Item>, cursor: nat)
    requires Distinct(sorted)
    ensures forall j :: 0 <= j < |SplitLefts(sorted, cursor)| ==> |SplitLefts(sorted, cursor)[j]| >= cursor
    decreases |sorted| - cursor
  {
    if cursor < |sorted| {
      var now, later := Combinations(sorted, cursor), SplitLefts(sorted, cursor + 1);
      SplitLeftsSizes(sorted, cursor + 1);
      forall j | 0 <= j < |now + later|
        ensures |(now + later)[j]| >= cursor
      {
        if j < |now| {
          CombinationsSound(sorted, cursor, now[j]);
        } else {
          assert (now + later)[j] == later[j - |now|];
        }
      }
    }
  }

  lemma {:induction false} SplitLeftsDistinct(sorted: seq<Item>, cursor: nat)
    requires Distinct(sorted)
    ensures Distinct(SplitLefts(sorted, cursor))
    decreases |sorted| - cursor
  {
    if cursor < |sorted| {
      var now, later := Combinations(sorted, cursor), SplitLefts(sorted, cursor + 1);
      CombinationsDistinct(sorted, cursor);
      SplitLeftsDistinct(sorted, cursor + 1);
      SplitLeftsSizes(sorted, cursor + 1);
      forall i, j | 0 <= i < |now| && 0 <= j < |later|
        ensures now[i] != later[j]
      {
        CombinationsSound(sorted, cursor, now[i]);
      }
      DistinctConcat(now, later);
    }
  }

  lemma {:induction false} SplitLeftsCount(sorted: seq<Item>, cursor: nat)
    requires cursor <= |sorted|
    ensures |SplitLefts(sorted, cursor)| + SumChoose(|sorted|, cursor) == SumChoose(|sorted|, |sorted|)
    decreases |sorted| - cursor
  {
    if cursor < |sorted| {
      CombinationsCount(sorted, cursor);
      SplitLeftsCount(sorted, cursor + 1);
    }
  }

  /** `left` is the left side of a split of `itemset`: a non-empty proper
      subset, leaving a non-empty right side. */
  predicate IsSplit(itemset: Itemset, left: Itemset)
  {
    left != {} && left <= itemset && left != itemset
  }

  /** The right side of a split is itself the left side of the mirrored split. */
  lemma SplitComplement(itemset: Itemset, left: Itemset)
    requires IsSplit(itemset, left)
    ensures IsSplit(itemset, itemset - left) && itemset - (itemset - left) == left
    ensures left !! itemset - left && left + (itemset - left) == itemset
  {
    var x :| x in left;
    assert x !in itemset - left;
    var y :| y in itemset && y !in left;
    assert y in itemset - left;
  }

  /** The left sides enumerated for an itemset are exactly its non-empty proper
      subsets. */
  lemma SplitLeftsOfItemset(items: Itemset, left: Itemset)
    ensures left in SplitLefts(SortedItems(items), 1) <==> IsSplit(items, left)
  {
    var sorted := SortedItems(items);
    SortedItemsSpec(items);
    SplitLeftsMembers(sorted, 1, left);
    if left <= items {
      SubsetCard(left, items);
    }
  }

  /** An n-item set (n >= 1) has exactly 2^n - 2 splits into a non-empty left
      side and a non-empty right side. */
  lemma SplitCount(items: Itemset)
    requires items != {}
    ensures |SplitLefts(SortedItems(items), 1)| == Pow2(|items|) - 2
  {
    var n := |items|;
    SortedItemsSpec(items);
    SplitLeftsCount(SortedItems(items), 1);
    SumChooseAll(n);
    ChooseAll(n);
  }

  /** The rules meeting both thresholds, in their order. */
  function KeepStrong(rules: seq<AssociationRule>, minConfidence: real, minLift: real): (r: seq<AssociationRule>)
    ensures |r| <= |rules|
  {
    if rules == [] then []
    else
      var rule := rules[0];
      (if rule.confidence >= minConfidence && rule.lift >= minLift then [rule] else [])
        + KeepStrong(rules[1..], minConfidence, minLift)
  }

  /** The filter keeps exactly the rules meeting both thresholds, in order. */
  lemma {:induction false} KeepStrongMembers(rules: seq<AssociationRule>, minConfidence: real, minLift: real,
                                             rule: AssociationRule)
    ensures rule in KeepStrong(rules, minConfidence, minLift)
        <==> rule in rules && rule.confidence >= minConfidence && rule.lift >= minLift
    decreases |rules|
  {
    if rules != [] {
      KeepStrongMembers(rules[1..], minConfidence, minLift, rule);
      assert rules == [rules[0]] + rules[1..];
    }
  }

  lemma {:induction false} KeepStrongAppend(a: seq<AssociationRule>, b: seq<AssociationRule>,
                                            minConfidence: real, minLift: real)
    ensures KeepStrong(a + b, minConfidence, minLift)
         == KeepStrong(a, minConfidence, minLift) + KeepStrong(b, minConfidence, minLift)
    decreases |a|
  {
    if a == [] {
      assert a + b == b;
    } else {
      assert (a + b)[0] == a[0] && (a + b)[1..] == a[1..] + b;
      KeepStrongAppend(a[1..], b, minConfidence, minLift);
    }
  }

  function Flatten<T>(groups: seq<seq<T>>): seq<T>
  {
    if groups == [] then [] else groups[0] + Flatten(groups[1..])
  }

  lemma {:induction false} FlattenMembers<T>(groups: seq<seq<T>>, x: T)
    ensures x in Flatten(groups) <==> exists i :: 0 <= i < |groups| && x in groups[i]
    decreases |groups|
  {
    if groups != [] {
      FlattenMembers(groups[1..], x);
      if exists i :: 0 <= i < |groups| && x in groups[i] {
        var i :| 0 <= i < |groups| && x in groups[i];
        if i > 0 {
          assert groups[1..][i - 1] == groups[i];
        }
      }
      if exists i :: 0 <= i < |groups[1..]| && x in groups[1..][i] {
        var i :| 0 <= i < |groups[1..]| && x in groups[1..][i];
        assert groups[i + 1] == groups[1..][i];
      }
    }
  }

  lemma ShareAtMostOne(part: real, whole: real)
    requires 0.0 < part <= whole
    ensures 0.0 < part / whole <= 1.0
  {
    assert part / whole * whole == part;
  }

  lemma LiftForms(support: real, leftSupport: real, rightSupport: real)
    requires leftSupport > 0.0 && rightSupport > 0.0
    ensures (support / leftSupport) / rightSupport == support / (leftSupport * rightSupport)
    ensures (support / rightSupport) / leftSupport == support / (leftSupport * rightSupport)
  {
    var p := leftSupport * rightSupport;
    assert (support / leftSupport) / rightSupport * p == support;
    assert (support / rightSupport) / leftSupport * p == support;
  }

  // ---------------------------------------------------------------------------
  // The emitted sequence of frequent itemsets

  /** The itemsets of a sequence of frequent itemsets. */
  function ItemsetsOf(fs: seq<FrequentItemSet>): set<Itemset>
  {
    set i | 0 <= i < |fs| :: fs[i].items
  }

  /** Smaller itemsets come first. */
  predicate SizeOrdered(fs: seq<FrequentItemSet>)
  {
    forall i, j :: 0 <= i < j < |fs| ==> |fs[i].items| <= |fs[j].items|
  }

  /** No itemset is emitted twice. */
  predicate DistinctItemsets(fs: seq<FrequentItemSet>)
  {
    forall i, j :: 0 <= i < j < |fs| ==> fs[i].items != fs[j].items
  }

  /** Emitting a new itemset at least as large as every earlier one keeps the
      sequence ordered by size and free of repeats. */
  lemma EmitStep(fs: seq<FrequentItemSet>, f: FrequentItemSet)
    requires SizeOrdered(fs) && DistinctItemsets(fs)
    requires forall i :: 0 <= i < |fs| ==> |fs[i].items| <= |f.items|
    requires f.items !in ItemsetsOf(fs)
    ensures SizeOrdered(fs + [f]) && DistinctItemsets(fs + [f])
    ensures ItemsetsOf(fs + [f]) == ItemsetsOf(fs) + {f.items}
  {
    var fs' := fs + [f];
    forall i, j | 0 <= i < j < |fs'|
      ensures |fs'[i].items| <= |fs'[j].items| && fs'[i].items != fs'[j].items
    {
      if j == |fs| {
        assert fs'[i] == fs[i] && fs[i].items in ItemsetsOf(fs);
      }
    }
    assert fs'[|fs|] == f;
    forall c | c in ItemsetsOf(fs')
      ensures c in ItemsetsOf(fs) + {f.items}
    {
      var i :| 0 <= i < |fs'| && fs'[i].items == c;
      if i < |fs| {
        assert fs[i] == fs'[i];
      }
    }
    forall c | c in ItemsetsOf(fs)
      ensures c in ItemsetsOf(fs')
    {
      var i :| 0 <= i < |fs| && fs[i].items == c;
      assert fs'[i] == fs[i];
    }
  }

  lemma PrefixStep<T>(xs: seq<T>, i: nat)
    requires i < |xs|
    ensures xs[..i + 1] == xs[..i] + [xs[i]]
  {
  }

  /** In a duplicate-free sequence no element occurs before its own position. */
  lemma NotInPrefix<T>(xs: seq<T>, i: nat)
    requires Distinct(xs) && i < |xs|
    ensures xs[i] !in xs[..i]
  {
    forall t | 0 <= t < i
      ensures xs[..i][t] != xs[i]
    {
      assert xs[..i][t] == xs[t];
    }
  }

  /** Emitting a whole level of itemsets of size `k` after smaller ones keeps
      the sequence ordered by size and free of repeats. */
  lemma AppendLevel(fs: seq<FrequentItemSet>, level: seq<FrequentItemSet>, k: nat)
    requires SizeOrdered(fs) && DistinctItemsets(fs) && DistinctItemsets(level)
    requires forall i :: 0 <= i < |fs| ==> |fs[i].items| < k
    requires forall j :: 0 <= j < |level| ==> |level[j].items| == k
    ensures SizeOrdered(fs + level) && DistinctItemsets(fs + level)
    ensures ItemsetsOf(fs + level) == ItemsetsOf(fs) + ItemsetsOf(level)
  {
    var all := fs + level;
    forall i, j | 0 <= i < j < |all|
      ensures |all[i].items| <= |all[j].items| && all[i].items != all[j].items
    {
      if j >= |fs| {
        assert all[j] == level[j - |fs|];
        if i >= |fs| {
          assert all[i] == level[i - |fs|];
        }
      }
    }
    forall c | c in ItemsetsOf(all)
      ensures c in ItemsetsOf(fs) + ItemsetsOf(level)
    {
      var i :| 0 <= i < |all| && all[i].items == c;
      if i < |fs| {
        assert fs[i] == all[i];
      } else {
        assert level[i - |fs|] == all[i];
      }
    }
    forall c | c in ItemsetsOf(fs) + ItemsetsOf(level)
      ensures c in ItemsetsOf(all)
    {
      if c in ItemsetsOf(fs) {
        var i :| 0 <= i < |fs| && fs[i].items == c;
        assert all[i] == fs[i];
      } else {
        var j :| 0 <= j < |level| && level[j].items == c;
        assert all[|fs| + j] == level[j];
      }
    }
  }

  // ---------------------------------------------------------------------------
  // The engine object

  /** An `Arules` object: the inverted index, the item universe and the row
      count, fixed when it is built and only read afterwards. */
  class Arules {
    const transactionsMap: Index
    const items: set<Item>
    const transactionCount: nat

    /** The object built by `__init__`: the items are the keys of the index and
        every indexed row is one of the `transactionCount` rows. */
    ghost predicate Valid()
    {
      items == transactionsMap.Keys && RowsBelow(transactionsMap, transactionCount)
    }

    /** On a built engine every support lies between 0 and 1. */
    lemma SupportInUnitInterval(s: Itemset)
      requires Valid()
      ensures 0.0 <= Support(transactionsMap, transactionCount, s) <= 1.0
    {
    }

    constructor (dataset: Grid, norm: string -> string)
      ensures transactionsMap == InvertedIndex(Transactions(dataset, norm))
      ensures items == transactionsMap.Keys
      ensures transactionCount == |dataset|
      ensures Valid()
    {
      var m, its, n := ConvertData(dataset, norm);
      transactionsMap, items, transactionCount := m, its, n;
    }

    /** `convert_data`: one pass over the cells of the data frame, registering
        the row of every present cell under its normalised key. The row
        count includes rows without any item. */
    static method ConvertData(dataset: Grid, norm: string -> string)
      returns (mMap: Index, items: set<Item>, nRow: nat)
      ensures mMap == InvertedIndex(Transactions(dataset, norm))
      ensures items == mMap.Keys
      ensures nRow == |dataset|
    {
      nRow := |dataset|;
      mMap := map[];
      items := {};
      ghost var rows := Transactions(dataset, norm);
      EmptyIndex(rows[..0]);
      var row: nat := 0;
      while row < nRow
        invariant 0 <= row <= nRow
        invariant IsIndexOf(mMap, rows[..row])
        invariant items == mMap.Keys
      {
        mMap, items := RegisterRow(mMap, items, dataset[row], row, norm, rows[..row]);
        assert rows[..row] + [rows[row]] == rows[..row + 1];
        row := row + 1;
      }
      assert rows[..nRow] == rows;
      IndexUnique(mMap, InvertedIndex(rows), rows);
    }

    /** The column loop of `convert_data` for row number `row`: every present
        cell registers `row` under its normalised key, creating the key's entry
        (and adding the key to the item set) on first sight. */
    static method RegisterRow(mMap: Index, items: set<Item>, cells: seq<Cell>, row: nat,
                              norm: string -> string, ghost rows: seq<seq<Item>>)
      returns (mMap': Index, items': set<Item>)
      requires row == |rows| && IsIndexOf(mMap, rows) && items == mMap.Keys
      ensures IsIndexOf(mMap', rows + [RowItems(cells, norm)])
      ensures items' == mMap'.Keys
    {
      mMap', items' := mMap, items;
      IndexAppendEmpty(mMap, rows);
      assert cells[..0] == [];
      var col := 0;
      ghost var done: seq<Item> := [];
      while col < |cells|
        invariant 0 <= col <= |cells|
        invariant done == RowItems(cells[..col], norm)
        invariant IsIndexOf(mMap', rows + [done])
        invariant items' == mMap'.Keys
      {
        var item := cells[col];
        RowItemsStep(cells, col, norm);
        if item.Present? {
          var key := norm(item.text);
          ghost var expected := mMap'[key := (if key in mMap' then mMap'[key] else {}) + {row}];
          IndexAddItem(mMap', rows, done, key);
          if key !in mMap' {
            mMap' := mMap'[key := {}];
            items' := items' + {key};
          }
          mMap' := mMap'[key := mMap'[key] + {row}];
          assert mMap' == expected;
          done := done + [key];
        }
        col := col + 1;
      }
      assert cells[..|cells|] == cells;
    }

    /** `calculate_support`: intersect the index entries of the items one at a
        time, giving up with 0 at the first item without an entry. */
    method CalculateSupport(items: Itemset) returns (support: real)
      ensures support == Support(transactionsMap, transactionCount, items)
    {
      if items == {} {
        return 1.0;
      }
      if transactionCount == 0 {
        return 0.0;
      }
      var allIndexes: Option<set<nat>> := None;
      var rest := items;
      ghost var done: set<Item> := {};
      while rest != {}
        invariant rest + done == items && rest !! done
        invariant done <= transactionsMap.Keys
        invariant allIndexes.None? <==> done == {}
        invariant allIndexes.Some? ==> allIndexes.value == Covering(transactionsMap, done)
        decreases rest
      {
        var item :| item in rest;
        if item !in transactionsMap {
          return 0.0;
        }
        var indexes := transactionsMap[item];
        if allIndexes.None? {
          allIndexes := Some(indexes);
        } else {
          allIndexes := Some(allIndexes.value * indexes);
        }
        rest := rest - {item};
        done := done + {item};
      }
      return (|allIndexes.value| as real) / (transactionCount as real);
    }

    /** `f` may be emitted by `get_frequent_item_sets(minSupport)`: a non-empty
        set of known items with its true support, at least `minSupport`. */
    ghost predicate Emittable(f: FrequentItemSet, minSupport: real)
    {
      && f.items != {} && f.items <= items
      && f.support == Support(transactionsMap, transactionCount, f.items)
      && f.support >= minSupport
    }

    /** What holds before the search of level `k`: `candidates` are distinct
        k-item sets of known items and include every frequent one, and
        `result` holds exactly the frequent itemsets below size k, each once,
        smaller ones first. */
    ghost predicate LevelInvariant(k: nat, candidates: seq<Itemset>, result: seq<FrequentItemSet>, minSupport: real)
    {
      && k >= 1
      && (forall c :: c in candidates ==> |c| == k && c <= items)
      && Distinct(candidates)
      && (forall s :: s <= items && |s| == k && Support(transactionsMap, transactionCount, s) >= minSupport
            ==> s in candidates)
      && (forall i :: 0 <= i < |result| ==> Emittable(result[i], minSupport) && |result[i].items| < k)
      && (forall s :: s <= items && s != {} && |s| < k && Support(transactionsMap, transactionCount, s) >= minSupport
            ==> s in ItemsetsOf(result))
      && SizeOrdered(result) && DistinctItemsets(result)
    }

    /** `get_frequent_item_sets`: level by level, the candidates meeting
        `minSupport` are emitted and become the previous level of the next
        candidate generation, until no candidate is left. The result is exactly
        the frequent itemsets, each once, smaller ones first. */
    method GetFrequentItemSets(minSupport: real) returns (result: seq<FrequentItemSet>)
      ensures forall i :: 0 <= i < |result| ==> Emittable(result[i], minSupport)
      ensures forall s :: s <= items && s != {} && Support(transactionsMap, transactionCount, s) >= minSupport
                ==> s in ItemsetsOf(result)
      ensures SizeOrdered(result) && DistinctItemsets(result)
    {
      result := [];
      var nextK := 1;
      var candidates := Singletons(SortedItems(items));
      FirstLevel(minSupport);
      while candidates != []
        invariant LevelInvariant(nextK, candidates, result, minSupport)
        decreases if candidates == [] then 0 else |items| + 1 - nextK
      {
        LevelBelowItems(nextK, candidates, result, minSupport);
        var larges, level := ScanLevel(candidates, nextK, minSupport);
        NextLevel(nextK, candidates, result, minSupport, larges, level);
        result := result + level;
        nextK := nextK + 1;
        candidates := GenerateNextCandidates(larges, nextK);
      }
      LastLevel(nextK, result, minSupport);
    }

    lemma FirstLevel(minSupport: real)
      ensures LevelInvariant(1, Singletons(SortedItems(items)), [], minSupport)
    {
      SingletonsOfItems(items);
      assert SizeOrdered([]) && DistinctItemsets([]);
    }

    /** A level with candidates has at most as many items as there are items. */
    lemma LevelBelowItems(k: nat, candidates: seq<Itemset>, result: seq<FrequentItemSet>, minSupport: real)
      requires LevelInvariant(k, candidates, result, minSupport) && candidates != []
      ensures k <= |items|
    {
      SubsetCard(candidates[0], items);
    }

    /** Once no candidate is left, no frequent itemset has `k` or more items:
        each would have a frequent k-item subset among the candidates. */
    lemma LastLevel(k: nat, result: seq<FrequentItemSet>, minSupport: real)
      requires LevelInvariant(k, [], result, minSupport)
      ensures forall i :: 0 <= i < |result| ==> Emittable(result[i], minSupport)
      ensures forall s :: s <= items && s != {} && Support(transactionsMap, transactionCount, s) >= minSupport
                ==> s in ItemsetsOf(result)
      ensures SizeOrdered(result) && DistinctItemsets(result)
    {
      forall s | s <= items && s != {} && Support(transactionsMap, transactionCount, s) >= minSupport
        ensures s in ItemsetsOf(result)
      {
        if |s| >= k {
          var t := SubsetOfSize(s, k);
          SupportAntiMonotone(transactionsMap, transactionCount, t, s);
          assert false;
        }
      }
    }

    /** One level of `get_frequent_item_sets`: the candidates meeting
        `minSupport`, in candidate order with their supports, and as the set
        `larges` that seeds the next level. */
    method ScanLevel(candidates: seq<Itemset>, k: nat, minSupport: real)
      returns (larges: set<Itemset>, level: seq<FrequentItemSet>)
      requires forall c :: c in candidates ==> |c| == k && c <= items
      requires k >= 1 && Distinct(candidates)
      ensures forall c :: c in larges <==> c in candidates && Support(transactionsMap, transactionCount, c) >= minSupport
      ensures ItemsetsOf(level) == larges
      ensures forall j :: 0 <= j < |level| ==> Emittable(level[j], minSupport) && |level[j].items| == k
      ensures DistinctItemsets(level)
    {
      larges, level := {}, [];
      var i := 0;
      while i < |candidates|
        invariant 0 <= i <= |candidates|
        invariant forall c :: c in larges <==> c in candidates[..i] && Support(transactionsMap, transactionCount, c) >= minSupport
        invariant ItemsetsOf(level) == larges
        invariant forall j :: 0 <= j < |level| ==> Emittable(level[j], minSupport) && |level[j].items| == k
        invariant SizeOrdered(level) && DistinctItemsets(level)
      {
        var candidate := candidates[i];
        var support := CalculateSupport(candidate);
        PrefixStep(candidates, i);
        if support >= minSupport {
          NotInPrefix(candidates, i);
          var f := FrequentItemSet(candidate, support);
          EmitStep(level, f);
          larges := larges + {candidate};
          level := level + [f];
        }
        i := i + 1;
      }
      assert candidates[..|candidates|] == candidates;
    }

    /** One pass of the outer loop: emitting the frequent candidates of level
        `k` and generating the candidates of level k + 1 from them. */
    lemma NextLevel(k: nat, candidates: seq<Itemset>, result: seq<FrequentItemSet>, minSupport: real,
                    larges: set<Itemset>, level: seq<FrequentItemSet>)
      requires LevelInvariant(k, candidates, result, minSupport)
      requires forall c :: c in larges <==> c in candidates && Support(transactionsMap, transactionCount, c) >= minSupport
      requires ItemsetsOf(level) == larges
      requires forall j :: 0 <= j < |level| ==> Emittable(level[j], minSupport) && |level[j].items| == k
      requires DistinctItemsets(level)
      ensures LevelInvariant(k + 1, GenerateNextCandidates(larges, k + 1), result + level, minSupport)
    {
      var next := GenerateNextCandidates(larges, k + 1);
      assert Distinct(next) by {
        GenerateNextCandidatesDistinct(larges, k + 1);
      }
      forall c | c in next
        ensures |c| == k + 1 && c <= items
      {
        GenerateNextCandidatesMembers(larges, k + 1, c);
      }
      forall s | s <= items && |s| == k + 1 && Support(transactionsMap, transactionCount, s) >= minSupport
        ensures s in next
      {
        AprioriComplete(transactionsMap, transactionCount, items, larges, k, minSupport, s);
      }
      AppendLevel(result, level, k);
      var all := result + level;
      forall i | 0 <= i < |all|
        ensures Emittable(all[i], minSupport) && |all[i].items| < k + 1
      {
        if i >= |result| {
          assert all[i] == level[i - |result|];
        }
      }
    }

    // -------------------------------------------------------------------------
    // Rules

    /** Every non-empty proper subset of `itemset` has positive support, so no
        split divides by zero. */
    ghost predicate SplitsHaveSupport(itemset: Itemset)
    {
      forall left :: IsSplit(itemset, left) ==> Support(transactionsMap, transactionCount, left) > 0.0
    }

    /** The rule for one split, with confidence = support / left_support and
        lift = confidence / right_support. */
    function MakeRule(f: FrequentItemSet, left: Itemset): AssociationRule
      requires SplitsHaveSupport(f.items) && IsSplit(f.items, left)
    {
      SplitComplement(f.items, left);
      var right := f.items - left;
      var leftSupport := Support(transactionsMap, transactionCount, left);
      var rightSupport := Support(transactionsMap, transactionCount, right);
      var confidence := f.support / leftSupport;
      var lift := confidence / rightSupport;
      AssociationRule(left, right, leftSupport, rightSupport, f.support, confidence, lift)
    }

    /** `generate_rules_from_single_frequent_item_set`: one rule per split, the
        two sides partitioning the itemset, scored from the supports of both
        sides. */
    function GenerateRulesFromSingleFrequentItemSet(f: FrequentItemSet): (rules: seq<AssociationRule>)
      requires SplitsHaveSupport(f.items)
      ensures |rules| == |SplitLefts(SortedItems(f.items), 1)|
      ensures forall i :: 0 <= i < |rules| ==>
                && rules[i].left != {} && rules[i].right != {}
                && rules[i].left !! rules[i].right && rules[i].left + rules[i].right == f.items
                && rules[i].leftSupport == Support(transactionsMap, transactionCount, rules[i].left)
                && rules[i].rightSupport == Support(transactionsMap, transactionCount, rules[i].right)
                && rules[i].support == f.support
                && rules[i].confidence == f.support / rules[i].leftSupport
                && rules[i].lift == rules[i].confidence / rules[i].rightSupport
    {
      var lefts := SplitLefts(SortedItems(f.items), 1);
      forall i | 0 <= i < |lefts|
        ensures IsSplit(f.items, lefts[i]) && IsSplit(f.items, f.items - lefts[i])
        ensures lefts[i] !! f.items - lefts[i] && lefts[i] + (f.items - lefts[i]) == f.items
      {
        SplitLeftsOfItemset(f.items, lefts[i]);
        SplitComplement(f.items, lefts[i]);
      }
      seq(|lefts|, i requires 0 <= i < |lefts| => MakeRule(f, lefts[i]))
    }

    /** `generate_and_filter_rules`: for every itemset of at least two items,
        its rules meeting both thresholds, as one group; itemsets whose group
        would be empty contribute nothing. */
    function GenerateAndFilterRules(frequentItemSets: seq<FrequentItemSet>, minConfidence: real, minLift: real)
      : (groups: seq<seq<AssociationRule>>)
      requires forall i :: 0 <= i < |frequentItemSets| ==> SplitsHaveSupport(frequentItemSets[i].items)
      ensures forall g :: g in groups ==> g != []
    {
      if frequentItemSets == [] then []
      else
        var f := frequentItemSets[0];
        var rest := GenerateAndFilterRules(frequentItemSets[1..], minConfidence, minLift);
        if |f.items| < 2 then rest
        else
          var rules := KeepStrong(GenerateRulesFromSingleFrequentItemSet(f), minConfidence, minLift);
          if rules == [] then rest else [rules] + rest
    }

    /** The rules of `get_arules` before ranking: the groups flattened. */
    function GetArules(frequentItemSets: seq<FrequentItemSet>, minConfidence: real, minLift: real)
      : seq<AssociationRule>
      requires forall i :: 0 <= i < |frequentItemSets| ==> SplitsHaveSupport(frequentItemSets[i].items)
    {
      Flatten(GenerateAndFilterRules(frequentItemSets, minConfidence, minLift))
    }

    /** An itemset found with a positive threshold can be split without
        dividing by zero: each side has at least the itemset's support. */
    lemma EmittedHaveSplits(f: FrequentItemSet, minSupport: real)
      requires Emittable(f, minSupport) && minSupport > 0.0
      ensures SplitsHaveSupport(f.items)
    {
      forall left | IsSplit(f.items, left)
        ensures Support(transactionsMap, transactionCount, left) > 0.0
      {
        SupportAntiMonotone(transactionsMap, transactionCount, left, f.items);
      }
    }

    /** The rules of an itemset are exactly one rule per split. */
    lemma RulesOfItemset(f: FrequentItemSet, rule: AssociationRule)
      requires SplitsHaveSupport(f.items)
      ensures rule in GenerateRulesFromSingleFrequentItemSet(f)
          <==> exists left :: IsSplit(f.items, left) && rule == MakeRule(f, left)
    {
      var lefts := SplitLefts(SortedItems(f.items), 1);
      var rules := GenerateRulesFromSingleFrequentItemSet(f);
      if rule in rules {
        var i :| 0 <= i < |rules| && rules[i] == rule;
        SplitLeftsOfItemset(f.items, lefts[i]);
        assert rule == MakeRule(f, lefts[i]);
      }
      if exists left :: IsSplit(f.items, left) && rule == MakeRule(f, left) {
        var left :| IsSplit(f.items, left) && rule == MakeRule(f, left);
        SplitLeftsOfItemset(f.items, left);
        var i :| 0 <= i < |lefts| && lefts[i] == left;
        assert rules[i] == rule;
      }
    }

    /** No split is enumerated twice, so no rule of an itemset repeats. */
    lemma RulesOfItemsetDistinct(f: FrequentItemSet)
      requires SplitsHaveSupport(f.items)
      ensures Distinct(GenerateRulesFromSingleFrequentItemSet(f))
    {
      var sorted := SortedItems(f.items);
      var lefts := SplitLefts(sorted, 1);
      var rules := GenerateRulesFromSingleFrequentItemSet(f);
      assert Distinct(lefts) by {
        SortedItemsSpec(f.items);
        SplitLeftsDistinct(sorted, 1);
      }
      forall i, j | 0 <= i < j < |rules|
        ensures rules[i] != rules[j]
      {
        assert rules[i].left == lefts[i] && rules[j].left == lefts[j];
      }
    }

    /** An itemset of n >= 1 items has 2^n - 2 rules; in particular an itemset
        of fewer than two items has none. */
    lemma RuleCount(f: FrequentItemSet)
      requires SplitsHaveSupport(f.items)
      ensures f.items != {} ==> |GenerateRulesFromSingleFrequentItemSet(f)| == Pow2(|f.items|) - 2
      ensures |f.items| < 2 ==> GenerateRulesFromSingleFrequentItemSet(f) == []
    {
      if f.items == {} {
        SortedItemsSpec(f.items);
      } else {
        SplitCount(f.items);
        assert Pow2(1) == 2;
      }
    }

    /** The scores of a rule of a frequent itemset: confidence is a share in
        (0, 1], and lift is the itemset's support over the product of the two
        sides' supports, so the mirrored rule has the same lift. */
    lemma RuleScores(f: FrequentItemSet, minSupport: real, left: Itemset)
      requires Emittable(f, minSupport) && minSupport > 0.0 && IsSplit(f.items, left)
      ensures SplitsHaveSupport(f.items) && IsSplit(f.items, f.items - left)
      ensures 0.0 < MakeRule(f, left).confidence <= 1.0
      ensures MakeRule(f, left).lift
           == f.support / (MakeRule(f, left).leftSupport * MakeRule(f, left).rightSupport)
      ensures MakeRule(f, left).lift == MakeRule(f, f.items - left).lift
    {
      EmittedHaveSplits(f, minSupport);
      SplitComplement(f.items, left);
      var right := f.items - left;
      var ls := Support(transactionsMap, transactionCount, left);
      var rs := Support(transactionsMap, transactionCount, right);
      assert 0.0 < f.support <= ls && 0.0 < rs by {
        SupportAntiMonotone(transactionsMap, transactionCount, left, f.items);
      }
      ShareAtMostOne(f.support, ls);
      LiftForms(f.support, ls, rs);
      assert MakeRule(f, right).leftSupport == rs && MakeRule(f, right).rightSupport == ls;
    }

    /** `get_arules` before ranking: a rule is reported exactly when it is a
        rule of some itemset of at least two items and meets both thresholds. */
    lemma {:induction false} GetArulesMembers(frequentItemSets: seq<FrequentItemSet>, minConfidence: real,
                                              minLift: real, rule: AssociationRule)
      requires forall i :: 0 <= i < |frequentItemSets| ==> SplitsHaveSupport(frequentItemSets[i].items)
      ensures rule in GetArules(frequentItemSets, minConfidence, minLift)
          <==> exists i :: && 0 <= i < |frequentItemSets| && |frequentItemSets[i].items| >= 2
                           && rule in GenerateRulesFromSingleFrequentItemSet(frequentItemSets[i])
                           && rule.confidence >= minConfidence && rule.lift >= minLift
      decreases |frequentItemSets|
    {
      var fs := frequentItemSets;
      if fs != [] {
        var f, tail := fs[0], fs[1..];
        GetArulesMembers(tail, minConfidence, minLift, rule);
        GetArulesCons(fs, minConfidence, minLift);
        if |f.items| >= 2 {
          KeepStrongMembers(GenerateRulesFromSingleFrequentItemSet(f), minConfidence, minLift, rule);
        }
        if rule in GetArules(tail, minConfidence, minLift) {
          var i :| && 0 <= i < |tail| && |tail[i].items| >= 2
                   && rule in GenerateRulesFromSingleFrequentItemSet(tail[i])
                   && rule.confidence >= minConfidence && rule.lift >= minLift;
          assert fs[i + 1] == tail[i];
        }
        if exists i :: && 0 <= i < |fs| && |fs[i].items| >= 2
                       && rule in GenerateRulesFromSingleFrequentItemSet(fs[i])
                       && rule.confidence >= minConfidence && rule.lift >= minLift {
          var i :| && 0 <= i < |fs| && |fs[i].items| >= 2
                   && rule in GenerateRulesFromSingleFrequentItemSet(fs[i])
                   && rule.confidence >= minConfidence && rule.lift >= minLift;
          if i > 0 {
            assert tail[i - 1] == fs[i];
          }
        }
      }
    }

    /** The rules reported for a list of itemsets: those of the first itemset
        (none below two items), then those of the rest. */
    lemma GetArulesCons(frequentItemSets: seq<FrequentItemSet>, minConfidence: real, minLift: real)
      requires frequentItemSets != []
      requires forall i :: 0 <= i < |frequentItemSets| ==> SplitsHaveSupport(frequentItemSets[i].items)
      ensures GetArules(frequentItemSets, minConfidence, minLift)
           == (if |frequentItemSets[0].items| < 2 then []
               else KeepStrong(GenerateRulesFromSingleFrequentItemSet(frequentItemSets[0]), minConfidence, minLift))
              + GetArules(frequentItemSets[1..], minConfidence, minLift)
    {
      var f := frequentItemSets[0];
      var rest := GenerateAndFilterRules(frequentItemSets[1..], minConfidence, minLift);
      if |f.items| >= 2 {
        var front := KeepStrong(GenerateRulesFromSingleFrequentItemSet(f), minConfidence, minLift);
        if front != [] {
          assert ([front] + rest)[1..] == rest;
        }
      }
    }
  }

  /** The first level of the search: one candidate per item, each once. */
  lemma SingletonsOfItems(items: set<Item>)
    ensures forall c :: c in Singletons(SortedItems(items)) <==> |c| == 1 && c <= items
    ensures Distinct(Singletons(SortedItems(items)))
  {
    var sorted := SortedItems(items);
    var cs := Singletons(sorted);
    assert Elems(sorted) == items by {
      SortedItemsSpec(items);
    }
    forall c
      ensures c in cs <==> |c| == 1 && c <= items
    {
      if |c| == 1 && c <= items {
        var x :| x in c;
        OnlyElement(c, x);
        assert x in Elems(sorted);
        var i :| 0 <= i < |sorted| && sorted[i] == x;
        assert cs[i] == c;
      }
    }
    forall i, j | 0 <= i < j < |cs|
      ensures cs[i] != cs[j]
    {
      assert Distinct(sorted) by {
        SortedItemsSpec(items);
      }
      assert sorted[i] in cs[i] && sorted[i] !in cs[j];
    }
  }

  /** A one-element set is the singleton of any of its elements. */
  lemma OnlyElement(c: Itemset, x: Item)
    requires |c| == 1 && x in c
    ensures c == {x}
  {
    assert |c - {x}| == 0;
  }

  /** `[frozenset([item]) for item in items]`. */
  function Singletons(xs: seq<Item>): (r: seq<Itemset>)
    ensures |r| == |xs|
    ensures forall i :: 0 <= i < |xs| ==> r[i] == {xs[i]}
  {
    seq(|xs|, i requires 0 <= i < |xs| => {xs[i]})
  }
}
