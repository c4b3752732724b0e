/** The transaction helpers of src/Utils.py: a data frame of optional cells
    turned into one list of items per row (`csv2list`), and the inverted index
    from items to the rows that hold them (`list2map`). Reading the CSV file is
    not modelled: the data frame arrives as a grid of cells. */
module Utils {
  import opened Itemsets

  /** One cell of the data frame: missing (`pd.isna`) or the text of its value. */
  datatype Cell = Missing | Present(text: string)

  type Grid = seq<seq<Cell>>

  /** Item label to the set of row numbers whose transaction holds it. */
  type Index = map<Item, set<nat>>

  // ---------------------------------------------------------------------------
  // csv2list

  /** The transaction of one row: its present cells in column order, each
      normalised by `norm` (`str(value).lower()` in the source). */
  function RowItems(row: seq<Cell>, norm: string -> string): (r: seq<Item>)
    ensures |r| <= |row|
  {
    if row == [] then []
    else
      var front := RowItems(row[..|row| - 1], norm);
      match row[|row| - 1]
      case Missing => front
      case Present(v) => front + [norm(v)]
  }

  /** The transactions of a whole grid, one per row. */
  function Transactions(grid: Grid, norm: string -> string): (r: seq<seq<Item>>)
    ensures |r| == |grid|
    ensures forall i :: 0 <= i < |grid| ==> r[i] == RowItems(grid[i], norm)
  {
    seq(|grid|, i requires 0 <= i < |grid| => RowItems(grid[i], norm))
  }

  /** Splitting a row splits its transaction: the present cells keep their
      column order. */
  lemma {:induction false} RowItemsAppend(a: seq<Cell>, b: seq<Cell>, norm: string -> string)
    ensures RowItems(a + b, norm) == RowItems(a, norm) + RowItems(b, norm)
    decreases |b|
  {
    if b != [] {
      var b' := b[..|b| - 1];
      assert (a + b)[..|a + b| - 1] == a + b';
      assert (a + b)[|a + b| - 1] == b[|b| - 1];
      RowItemsAppend(a, b', norm);
    } else {
      assert a + b == a;
    }
  }

  /** A missing cell contributes nothing; a present one its normalised text. */
  lemma RowItemsCell(c: Cell, norm: string -> string)
    ensures RowItems([c], norm) == if c.Missing? then [] else [norm(c.text)]
  {
    assert [c][..0] == [];
  }

  /** The transaction of the first `col + 1` cells extends that of the first
      `col` cells by the next cell's item, if it has one. */
  lemma RowItemsStep(row: seq<Cell>, col: nat, norm: string -> string)
    requires col < |row|
    ensures row[col].Missing? ==> RowItems(row[..col + 1], norm) == RowItems(row[..col], norm)
    ensures row[col].Present? ==> RowItems(row[..col + 1], norm) == RowItems(row[..col], norm) + [norm(row[col].text)]
  {
    assert row[..col + 1] == row[..col] + [row[col]];
    RowItemsAppend(row[..col], [row[col]], norm);
    RowItemsCell(row[col], norm);
  }

  /** An item is in a row's transaction exactly when some present cell of the
      row normalises to it. */
  lemma {:induction false} RowItemsMembers(row: seq<Cell>, norm: string -> string, x: Item)
    ensures x in RowItems(row, norm) <==>
            exists j :: 0 <= j < |row| && row[j].Present? && norm(row[j].text) == x
    decreases |row|
  {
    if row != [] {
      var front := row[..|row| - 1];
      RowItemsMembers(front, norm, x);
      if x in RowItems(front, norm) {
        var j :| 0 <= j < |front| && front[j].Present? && norm(front[j].text) == x;
        assert row[j] == front[j];
      }
      if exists j :: 0 <= j < |row| && row[j].Present? && norm(row[j].text) == x {
        var j :| 0 <= j < |row| && row[j].Present? && norm(row[j].text) == x;
        if j < |front| {
          assert front[j] == row[j];
        }
      }
    }
  }

  /** `csv2list`: one transaction per row, empty rows included. */
  method Csv2List(dataset: Grid, norm: string -> string) returns (transactions: seq<seq<Item>>)
    ensures transactions == Transactions(dataset, norm)
  {
    transactions := [];
    var i := 0;
    while i < |dataset|
      invariant 0 <= i <= |dataset|
      invariant transactions == Transactions(dataset, norm)[..i]
    {
      var row := dataset[i];
      var items := [];
      var j := 0;
      while j < |row|
        invariant 0 <= j <= |row|
        invariant items == RowItems(row[..j], norm)
      {
        var item := row[j];
        assert row[..j + 1][..j] == row[..j];
        if item.Present? {
          items := items + [norm(item.text)];
        }
        j := j + 1;
      }
      assert row[..|row|] == row;
      transactions := transactions + [items];
      i := i + 1;
    }
  }

  // ---------------------------------------------------------------------------
  // The inverted index

  /** The row numbers of `rows` whose transaction holds `x`. */
  function Occurrences(rows: seq<seq<Item>>, x: Item): set<nat>
  {
    set i: nat | i < |rows| && x in rows[i]
  }

  /** `m` is the inverted index of `rows`: an item is a key exactly when it
      occurs in some transaction, and it maps to exactly the rows holding it. */
  ghost predicate IsIndexOf(m: Index, rows: seq<seq<Item>>)
  {
    && (forall x :: x in m <==> Occurrences(rows, x) != {})
    && (forall x :: x in m ==> m[x] == Occurrences(rows, x))
  }

  /** Every item of any transaction of `rows`. */
  function AllItems(rows: seq<seq<Item>>): set<Item>
  {
    set i, x | 0 <= i < |rows| && x in rows[i] :: x
  }

  /** The inverted index of a list of transactions. */
  function InvertedIndex(rows: seq<seq<Item>>): (m: Index)
    ensures IsIndexOf(m, rows)
    ensures forall x, i :: x in m && i in m[x] ==> i < |rows| && x in rows[i]
  {
    var m := map x | x in AllItems(rows) :: Occurrences(rows, x);
    assert forall x :: x in m <==> Occurrences(rows, x) != {} by {
      forall x
        ensures x in m <==> Occurrences(rows, x) != {}
      {
        if Occurrences(rows, x) != {} {
          var i :| i in Occurrences(rows, x);
          assert x in rows[i];
        }
        if x in AllItems(rows) {
          var i :| 0 <= i < |rows| && x in rows[i];
          assert i in Occurrences(rows, x);
        }
      }
    }
    m
  }

  lemma EmptyIndex(rows: seq<seq<Item>>)
    requires rows == []
    ensures IsIndexOf(map[], rows)
  {
    forall x
      ensures Occurrences(rows, x) == {}
    {
    }
  }

  /** The inverted index is determined by the transactions. */
  lemma IndexUnique(m: Index, m': Index, rows: seq<seq<Item>>)
    requires IsIndexOf(m, rows) && IsIndexOf(m', rows)
    ensures m == m'
  {
    assert m.Keys == m'.Keys;
  }

  /** Appending an empty transaction leaves an index valid. */
  lemma IndexAppendEmpty(m: Index, rows: seq<seq<Item>>)
    requires IsIndexOf(m, rows)
    ensures IsIndexOf(m, rows + [[]])
  {
    forall x
      ensures Occurrences(rows + [[]], x) == Occurrences(rows, x)
    {
      var rows' := rows + [[]];
      assert forall i :: 0 <= i < |rows| ==> rows'[i] == rows[i];
    }
  }

  lemma OccurrencesAddItem(rows: seq<seq<Item>>, row: seq<Item>, x: Item, y: Item)
    ensures Occurrences(rows + [row + [x]], y)
         == Occurrences(rows + [row], y) + (if y == x then {|rows|} else {})
  {
    var a, b := rows + [row], rows + [row + [x]];
    assert forall i :: 0 <= i < |rows| ==> a[i] == b[i];
    assert b[|rows|] == row + [x];
  }

  /** Registering the next item of the last transaction, as the body of the
      inner loop of `list2map` does, keeps the index valid. */
  lemma IndexAddItem(m: Index, rows: seq<seq<Item>>, row: seq<Item>, x: Item)
    requires IsIndexOf(m, rows + [row])
    ensures IsIndexOf(m[x := (if x in m then m[x] else {}) + {|rows|}], rows + [row + [x]])
  {
    var m' := m[x := (if x in m then m[x] else {}) + {|rows|}];
    forall y
      ensures y in m' <==> Occurrences(rows + [row + [x]], y) != {}
      ensures y in m' ==> m'[y] == Occurrences(rows + [row + [x]], y)
    {
      OccurrencesAddItem(rows, row, x, y);
    }
  }

  /** `list2map`: the inverted index of an in-memory list of transactions. */
  method List2Map(mList: seq<seq<Item>>) returns (mMap: Index)
    ensures mMap == InvertedIndex(mList)
  {
    mMap := map[];
    EmptyIndex(mList[..0]);
    var index := 0;
    while index < |mList|
      invariant 0 <= index <= |mList|
      invariant IsIndexOf(mMap, mList[..index])
    {
      mMap := IndexRow(mMap, mList[index], index, mList[..index]);
      assert mList[..index] + [mList[index]] == mList[..index + 1];
      index := index + 1;
    }
    assert mList[..|mList|] == mList;
    IndexUnique(mMap, InvertedIndex(mList), mList);
  }

  /** The inner loop of `list2map` for transaction number `index`: each of its
      items gets `index` added to its entry, the entry being created on first
      sight. */
  method IndexRow(mMap: Index, row: seq<Item>, index: nat, ghost rows: seq<seq<Item>>) returns (mMap': Index)
    requires index == |rows| && IsIndexOf(mMap, rows)
    ensures IsIndexOf(mMap', rows + [row])
  {
    mMap' := mMap;
    IndexAppendEmpty(mMap, rows);
    assert row[..0] == [];
    var j := 0;
    while j < |row|
      invariant 0 <= j <= |row|
      invariant IsIndexOf(mMap', rows + [row[..j]])
    {
      var item := row[j];
      ghost var expected := mMap'[item := (if item in mMap' then mMap'[item] else {}) + {index}];
      IndexAddItem(mMap', rows, row[..j], item);
      assert row[..j + 1] == row[..j] + [item];
      if item !in mMap' {
        mMap' := mMap'[item := {}];
      }
      mMap' := mMap'[item := mMap'[item] + {index}];
      assert mMap' == expected;
      j := j + 1;
    }
    assert row[..|row|] == row;
  }

  /** The index of no transactions is empty. */
  lemma InvertedIndexOfNothing()
    ensures InvertedIndex([]) == map[]
  {
    var m := InvertedIndex([]);
    assert m.Keys == {};
  }

  /** A transaction without items changes no entry of the index. */
  lemma InvertedIndexAppendEmpty(rows: seq<seq<Item>>)
    ensures InvertedIndex(rows + [[]]) == InvertedIndex(rows)
  {
    IndexAppendEmpty(InvertedIndex(rows), rows);
    IndexUnique(InvertedIndex(rows + [[]]), InvertedIndex(rows), rows + [[]]);
  }

  /** Only which items a transaction holds matters, not how often or in what
      order: a repeated item registers its row once. */
  lemma InvertedIndexIgnoresRepeats(rows: seq<seq<Item>>, rows': seq<seq<Item>>)
    requires |rows| == |rows'|
    requires forall i :: 0 <= i < |rows| ==> Elems(rows[i]) == Elems(rows'[i])
    ensures InvertedIndex(rows) == InvertedIndex(rows')
  {
    forall x
      ensures Occurrences(rows, x) == Occurrences(rows', x)
    {
      forall i: nat | i < |rows|
        ensures x in rows[i] <==> x in rows'[i]
      {
        assert x in rows[i] <==> x in Elems(rows[i]);
        assert x in rows'[i] <==> x in Elems(rows'[i]);
      }
    }
    IndexUnique(InvertedIndex(rows), InvertedIndex(rows'), rows);
  }
}
