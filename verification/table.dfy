/**
 * The overview-table view: it walks the levels of the category tree to
 * build the header rows, then assembles the three value rows.
 *
 * Nothing here touches the database: the levels, the column count of each
 * category, the number of children of each parent and the aggregated values
 * arrive as arguments.
 */
module Table {
  import opened Categories
  import opened HeaderLayout

  /** A value row `[period, values]`. */
  datatype ValueRow = ValueRow(period: string, values: seq<int>)

  /** Number of value cells in each of the placeholder rows. */
  const PlaceholderWidth: nat := 13

  /**
   * The body of the inner loop of the view: one `(category, has_children)`
   * pair. It appends the pair's cells to the header row and its parent, if
   * any, to `parentsConsidered`; `.count(parent)` on that list is
   * `Occurrences`.
   */
  method VisitEntry(headerRow: seq<Cell>, parentsConsidered: seq<CategoryId>, entry: Entry, levelsLeft: nat, store: Store)
    returns (rowAfter: seq<Cell>, parentsAfter: seq<CategoryId>)
    ensures rowAfter == headerRow + EntryCells(entry, levelsLeft, parentsConsidered, store)
    ensures parentsAfter == parentsConsidered + ParentOf(entry)
  {
    ghost var total: seq<Cell>, other: seq<Cell> := [], [];
    rowAfter, parentsAfter := headerRow, parentsConsidered;
    var category, hasChildren := entry.category, entry.hasChildren;
    var parent := category.parent;
    if parent.Some? && parent.value !in parentsAfter {
      rowAfter := rowAfter + [Cell("Total", 1, levelsLeft)];
      total := [Cell("Total", 1, levelsLeft)];
    }
    var columnsUnderCategory := store.columnCount(category);
    var own := Cell(category.name, columnsUnderCategory, if hasChildren then 1 else levelsLeft);
    rowAfter := rowAfter + [own];
    if parent.Some? {
      parentsAfter := parentsAfter + [parent.value];
      if store.childCount(parent.value) == Occurrences(parentsAfter, parent.value) {
        rowAfter := rowAfter + [Cell("Other", 1, levelsLeft)];
        other := [Cell("Other", 1, levelsLeft)];
      }
    }
    assert ((headerRow + total) + [own]) + other == headerRow + ((total + [own]) + other);
  }

  /**
   * The inner loop of the view: the header row of one level, starting from
   * the running list of parents `parentsConsidered` the earlier levels left.
   */
  method BuildHeaderRow(level: Level, levelsLeft: nat, store: Store, parentsConsidered: seq<CategoryId>)
    returns (headerRow: seq<Cell>, parentsAfter: seq<CategoryId>)
    ensures headerRow == Row(level, levelsLeft, parentsConsidered, store)
    ensures parentsAfter == parentsConsidered + ParentIds(level)
  {
    headerRow, parentsAfter := [], parentsConsidered;
    var k := 0;
    while k < |level|
      invariant 0 <= k <= |level|
      invariant headerRow == Row(level[..k], levelsLeft, parentsConsidered, store)
      invariant parentsAfter == parentsConsidered + ParentIds(level[..k])
    {
      ghost var rowBefore, parentsBefore := headerRow, parentsAfter;
      headerRow, parentsAfter := VisitEntry(headerRow, parentsAfter, level[k], levelsLeft, store);
      RowExtend(level, levelsLeft, parentsConsidered, store, k, rowBefore, parentsBefore,
                EntryCells(level[k], levelsLeft, parentsBefore, store), parentsAfter);
      k := k + 1;
    }
    assert level[..k] == level;
  }

  /**
   * The header-row loop of the view: one row per level, the running list of
   * parents starting empty and never reset between levels.
   */
  method BuildHeaderRows(levels: seq<Level>, store: Store) returns (headerRows: seq<seq<Cell>>)
    ensures headerRows == HeaderRows(levels, store)
  {
    var parentsConsidered: seq<CategoryId> := [];
    headerRows := [];
    var a := 0;
    while a < |levels|
      invariant 0 <= a <= |levels|
      invariant headerRows == RowsUpTo(levels, a, store)
      invariant parentsConsidered == ParentIds(Walk(levels[..a]))
    {
      var levelsLeft := |levels| - a;
      var headerRow;
      headerRow, parentsConsidered := BuildHeaderRow(levels[a], levelsLeft, store, parentsConsidered);
      WalkStep(levels, a);
      headerRows := headerRows + [headerRow];
      a := a + 1;
    }
  }

  /** The first components of the aggregated values, in order. */
  function Amounts<T>(builtValues: seq<(int, T)>): (amounts: seq<int>)
    ensures |amounts| == |builtValues|
    ensures forall k :: 0 <= k < |builtValues| ==> amounts[k] == builtValues[k].0
  {
    seq(|builtValues|, k requires 0 <= k < |builtValues| => builtValues[k].0)
  }

  /**
   * The value rows of the view: the aggregated values of the whole tree
   * under `Apr22`, then two fixed placeholder rows.
   */
  method BuildValueRows<T>(builtValues: seq<(int, T)>) returns (valueRows: seq<ValueRow>)
    ensures |valueRows| == 3
    ensures valueRows[0].period == "Apr22" && valueRows[1].period == "May22" && valueRows[2].period == "Jun22"
    ensures |valueRows[0].values| == |builtValues|
    ensures forall k :: 0 <= k < |builtValues| ==> valueRows[0].values[k] == builtValues[k].0
    ensures |valueRows[1].values| == PlaceholderWidth && forall v :: v in valueRows[1].values ==> v == 0
    ensures |valueRows[2].values| == PlaceholderWidth && forall v :: v in valueRows[2].values ==> v == 1
  {
    valueRows := [];
    valueRows := valueRows + [ValueRow("Apr22", Amounts(builtValues))];
    valueRows := valueRows + [ValueRow("May22", seq(PlaceholderWidth, _ => 0))];
    valueRows := valueRows + [ValueRow("Jun22", seq(PlaceholderWidth, _ => 1))];
  }
}
