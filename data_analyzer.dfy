/** The transaction statistics of src/DataAnalyzerUtil.py: the mean number of
    items per transaction, the transactions shorter or longer than an
    indicator, and the split of all transactions into a small and a big bag.
    The charts drawn from these are not modelled. */
module DataAnalyzer {
  import opened Wrappers
  import opened Itemsets
  import opened Utils

  type Transaction = seq<Item>

  // ---------------------------------------------------------------------------
  // Lengths

  /** The number of items of all transactions together. */
  function TotalLength(ts: seq<Transaction>): nat
  {
    if ts == [] then 0 else TotalLength(ts[..|ts| - 1]) + |ts[|ts| - 1]|
  }

  /** `statistics.mean` of the transaction lengths; `None` where `mean` raises
      on an empty list. */
  function AverageLength(ts: seq<Transaction>): (r: Option<real>)
    ensures r.None? <==> ts == []
    ensures r.Some? ==> r.value * (|ts| as real) == TotalLength(ts) as real
  {
    if ts == [] then None else Some((TotalLength(ts) as real) / (|ts| as real))
  }

  /** When every transaction has between `lo` and `hi` items, so has their
      total between `lo` and `hi` times their number. */
  lemma {:induction false} TotalLengthBounds(ts: seq<Transaction>, lo: nat, hi: nat)
    requires forall i :: 0 <= i < |ts| ==> lo <= |ts[i]| <= hi
    ensures lo * |ts| <= TotalLength(ts) <= hi * |ts|
    decreases |ts|
  {
    if ts != [] {
      var front := ts[..|ts| - 1];
      forall i | 0 <= i < |front|
        ensures lo <= |front[i]| <= hi
      {
        assert front[i] == ts[i];
      }
      TotalLengthBounds(front, lo, hi);
    }
  }

  /** The mean lies between the shortest and the longest transaction. */
  lemma AverageLengthBounds(ts: seq<Transaction>, lo: nat, hi: nat)
    requires ts != []
    requires forall i :: 0 <= i < |ts| ==> lo <= |ts[i]| <= hi
    ensures lo as real <= AverageLength(ts).value <= hi as real
  {
    TotalLengthBounds(ts, lo, hi);
    MeanBetween(TotalLength(ts) as real, |ts| as real, lo as real, hi as real);
  }

  lemma MeanBetween(total: real, n: real, lo: real, hi: real)
    requires n > 0.0 && lo * n <= total <= hi * n
    ensures lo <= total / n <= hi
  {
    var mean := total / n;
    assert mean * n == total;
    assert (mean - lo) * n == total - lo * n;
    assert (hi - mean) * n == hi * n - total;
  }

  // ---------------------------------------------------------------------------
  // Filtering by length

  /** Which transactions a length filter keeps: fewer items than the indicator
      (small bags), at most as many (the small bag of the division), or more
      (big bags). */
  datatype Bound = Below | AtMost | Above

  predicate Keeps(bound: Bound, indicator: real, t: Transaction)
  {
    match bound
    case Below => (|t| as real) < indicator
    case AtMost => (|t| as real) <= indicator
    case Above => (|t| as real) > indicator
  }

  /** The transactions of `ts` that `bound` keeps, in their order in `ts`. */
  function ByLength(ts: seq<Transaction>, bound: Bound, indicator: real): (r: seq<Transaction>)
    ensures |r| <= |ts|
  {
    if ts == [] then []
    else
      var last := ts[|ts| - 1];
      ByLength(ts[..|ts| - 1], bound, indicator) + (if Keeps(bound, indicator, last) then [last] else [])
  }

  /** A transaction is kept exactly when it is one of `ts` and passes the bound. */
  lemma {:induction false} ByLengthMembers(ts: seq<Transaction>, bound: Bound, indicator: real, t: Transaction)
    ensures t in ByLength(ts, bound, indicator) <==> t in ts && Keeps(bound, indicator, t)
    decreases |ts|
  {
    if ts != [] {
      var front := ts[..|ts| - 1];
      ByLengthMembers(front, bound, indicator, t);
      assert ts == front + [ts[|ts| - 1]];
    }
  }

  /** Filtering a concatenation filters each part and keeps them in order: the
      kept transactions are a subsequence of `ts`. */
  lemma {:induction false} ByLengthAppend(a: seq<Transaction>, b: seq<Transaction>, bound: Bound, indicator: real)
    ensures ByLength(a + b, bound, indicator) == ByLength(a, bound, indicator) + ByLength(b, bound, indicator)
    decreases |b|
  {
    if b == [] {
      assert a + b == a;
    } else {
      var b' := b[..|b| - 1];
      assert (a + b)[..|a + b| - 1] == a + b';
      assert (a + b)[|a + b| - 1] == b[|b| - 1];
      ByLengthAppend(a, b', bound, indicator);
    }
  }

  /** The small and the big bag of the division together hold every
      transaction exactly once. */
  lemma {:induction false} DivisionPartitions(ts: seq<Transaction>, indicator: real)
    ensures multiset(ByLength(ts, AtMost, indicator)) + multiset(ByLength(ts, Above, indicator)) == multiset(ts)
    ensures |ByLength(ts, AtMost, indicator)| + |ByLength(ts, Above, indicator)| == |ts|
    decreases |ts|
  {
    if ts != [] {
      var front, last := ts[..|ts| - 1], ts[|ts| - 1];
      DivisionPartitions(front, indicator);
      assert ts == front + [last];
      var small, big := ByLength(front, AtMost, indicator), ByLength(front, Above, indicator);
      if Keeps(Above, indicator, last) {
        assert ByLength(ts, Above, indicator) == big + [last];
        assert ByLength(ts, AtMost, indicator) == small + [];
      } else {
        assert ByLength(ts, AtMost, indicator) == small + [last];
        assert ByLength(ts, Above, indicator) == big + [];
      }
    }
  }

  /** A transaction with exactly `indicator` items is neither a small nor a
      big bag. */
  lemma NeitherSmallNorBig(ts: seq<Transaction>, indicator: real, t: Transaction)
    requires |t| as real == indicator
    ensures t !in ByLength(ts, Below, indicator) && t !in ByLength(ts, Above, indicator)
  {
    ByLengthMembers(ts, Below, indicator, t);
    ByLengthMembers(ts, Above, indicator, t);
  }

  // ---------------------------------------------------------------------------
  // The analyser object

  /** A `DataAnalyzerUtil`: the transactions of a data frame, fixed when it is
      built. */
  class DataAnalyzerUtil {
    const transactionsList: seq<Transaction>

    constructor (dataset: Grid, norm: string -> string)
      ensures transactionsList == Transactions(dataset, norm)
    {
      var ts := Csv2List(dataset, norm);
      transactionsList := ts;
    }

    /** `get_average_of_item_count_in_each_transaction`. */
    function GetAverageOfItemCountInEachTransaction(): (r: Option<real>)
      ensures r.None? <==> transactionsList == []
      ensures r.Some? ==> r.value * (|transactionsList| as real) == TotalLength(transactionsList) as real
    {
      AverageLength(transactionsList)
    }

    /** `get_small_bags_items`: the transactions with fewer items than
        `indicator`, in order. */
    function GetSmallBagsItems(indicator: real): (r: seq<Transaction>)
      ensures forall t :: t in r <==> t in transactionsList && (|t| as real) < indicator
    {
      var r := ByLength(transactionsList, Below, indicator);
      assert forall t :: t in r <==> t in transactionsList && (|t| as real) < indicator by {
        forall t
          ensures t in r <==> t in transactionsList && (|t| as real) < indicator
        {
          ByLengthMembers(transactionsList, Below, indicator, t);
        }
      }
      r
    }

    /** `get_big_bags_items`: the transactions with more items than
        `indicator`, in order. */
    function GetBigBagsItems(indicator: real): (r: seq<Transaction>)
      ensures forall t :: t in r <==> t in transactionsList && (|t| as real) > indicator
    {
      var r := ByLength(transactionsList, Above, indicator);
      assert forall t :: t in r <==> t in transactionsList && (|t| as real) > indicator by {
        forall t
          ensures t in r <==> t in transactionsList && (|t| as real) > indicator
        {
          ByLengthMembers(transactionsList, Above, indicator, t);
        }
      }
      r
    }

    /** `divide_transaction_by_item_count`: one pass appending each transaction
        to the big bag when it has more items than `indicator`, and to the small
        bag otherwise. */
    method DivideTransactionByItemCount(indicator: real) returns (smallBag: seq<Transaction>, bigBag: seq<Transaction>)
      ensures smallBag == ByLength(transactionsList, AtMost, indicator)
      ensures bigBag == ByLength(transactionsList, Above, indicator)
      ensures multiset(smallBag) + multiset(bigBag) == multiset(transactionsList)
    {
      smallBag, bigBag := [], [];
      var i := 0;
      while i < |transactionsList|
        invariant 0 <= i <= |transactionsList|
        invariant smallBag == ByLength(transactionsList[..i], AtMost, indicator)
        invariant bigBag == ByLength(transactionsList[..i], Above, indicator)
      {
        var transaction := transactionsList[i];
        assert transactionsList[..i + 1][..i] == transactionsList[..i];
        if |transaction| as real > indicator {
          bigBag := bigBag + [transaction];
        } else {
          smallBag := smallBag + [transaction];
        }
        i := i + 1;
      }
      assert transactionsList[..i] == transactionsList;
      DivisionPartitions(transactionsList, indicator);
    }
  }
}
