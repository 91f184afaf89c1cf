/**
 * The header layout of the overview table, as a specification: which cells
 * each level's header row holds, given the levels of the category tree.
 *
 * The walk visits every level left to right and keeps the list of parents it
 * has met so far across all levels. A "Total" cell opens the first visited
 * child of a parent; an "Other" cell closes the child whose visit makes the
 * parent's occurrence count equal to its number of children.
 */
module HeaderLayout {
  import opened Categories

  /** A header cell `[name, column_span, row_span]`. */
  datatype Cell = Cell(name: string, colSpan: nat, rowSpan: nat)

  /**
   * What the view asks the database about a category, and which this model
   * takes as given: the column count of its subtree (second result of its
   * `build_levels`) and the number of children a parent key has.
   */
  datatype Store = Store(columnCount: Category -> nat, childCount: CategoryId -> nat)

  function TotalCell(levelsLeft: nat): Cell
  {
    Cell("Total", 1, levelsLeft)
  }

  function OtherCell(levelsLeft: nat): Cell
  {
    Cell("Other", 1, levelsLeft)
  }

  /** A category's own cell: one row if it has children, down to the last row if it is a leaf. */
  function OwnCell(e: Entry, levelsLeft: nat, store: Store): Cell
  {
    Cell(e.category.name, store.columnCount(e.category), if e.hasChildren then 1 else levelsLeft)
  }

  /** `e` has a parent that is not yet in the running list `seen`. */
  predicate OpensTotal(e: Entry, seen: seq<CategoryId>)
  {
    e.category.parent.Some? && e.category.parent.value !in seen
  }

  /** Once `e`'s parent is appended to `seen`, it occurs as often as it has children. */
  predicate ClosesOther(e: Entry, seen: seq<CategoryId>, store: Store)
  {
    e.category.parent.Some? &&
    var p := e.category.parent.value;
    store.childCount(p) == Occurrences(seen + [p], p)
  }

  /** The cells one pair contributes, given the running list before it is visited. */
  function EntryCells(e: Entry, levelsLeft: nat, seen: seq<CategoryId>, store: Store): seq<Cell>
  {
    (if OpensTotal(e, seen) then [TotalCell(levelsLeft)] else [])
    + [OwnCell(e, levelsLeft, store)]
    + (if ClosesOther(e, seen, store) then [OtherCell(levelsLeft)] else [])
  }

  /** The header row of one level, when the running list was `seen` before it. */
  function Row(level: Level, levelsLeft: nat, seen: seq<CategoryId>, store: Store): seq<Cell>
    decreases |level|
  {
    if |level| == 0 then []
    else
      var k := |level| - 1;
      Row(level[..k], levelsLeft, seen, store)
      + EntryCells(level[k], levelsLeft, seen + ParentIds(level[..k]), store)
  }

  /** All pairs of `levels` in the order the view visits them. */
  function Walk(levels: seq<Level>): seq<Entry>
    decreases |levels|
  {
    if |levels| == 0 then [] else Walk(levels[..|levels| - 1]) + levels[|levels| - 1]
  }

  /**
   * The first `n` header rows: row `a` lays out level `a` with
   * `|levels| - a` levels left, starting from the parents met on all
   * earlier levels.
   */
  function RowsUpTo(levels: seq<Level>, n: nat, store: Store): (rows: seq<seq<Cell>>)
    requires n <= |levels|
    ensures |rows| == n
  {
    if n == 0 then []
    else RowsUpTo(levels, n - 1, store) + [Row(levels[n - 1], |levels| - (n - 1), ParentIds(Walk(levels[..n - 1])), store)]
  }

  /** The header rows the view hands to the template: one per level. */
  function HeaderRows(levels: seq<Level>, store: Store): seq<seq<Cell>>
  {
    RowsUpTo(levels, |levels|, store)
  }

  /** Visiting pair `k` appends its cells to the row and its parent to the running list. */
  lemma RowStep(level: Level, levelsLeft: nat, seen: seq<CategoryId>, store: Store, k: nat)
    requires k < |level|
    ensures Row(level[..k + 1], levelsLeft, seen, store)
      == Row(level[..k], levelsLeft, seen, store) + EntryCells(level[k], levelsLeft, seen + ParentIds(level[..k]), store)
    ensures ParentIds(level[..k + 1]) == ParentIds(level[..k]) + ParentOf(level[k])
  {
    assert level[..k + 1][..k] == level[..k];
  }

  /** The row and running list after pair `k`, from those before it and the pair's cells. */
  lemma RowExtend(level: Level, levelsLeft: nat, seen: seq<CategoryId>, store: Store, k: nat,
                  row: seq<Cell>, parents: seq<CategoryId>, cells: seq<Cell>, parentsAfter: seq<CategoryId>)
    requires k < |level|
    requires row == Row(level[..k], levelsLeft, seen, store)
    requires parents == seen + ParentIds(level[..k])
    requires cells == EntryCells(level[k], levelsLeft, parents, store)
    requires parentsAfter == parents + ParentOf(level[k])
    ensures row + cells == Row(level[..k + 1], levelsLeft, seen, store)
    ensures parentsAfter == seen + ParentIds(level[..k + 1])
  {
    RowStep(level, levelsLeft, seen, store, k);
    assert (seen + ParentIds(level[..k])) + ParentOf(level[k]) == seen + (ParentIds(level[..k]) + ParentOf(level[k]));
  }

  /** Finishing level `a` adds its parents to those of the earlier levels. */
  lemma WalkStep(levels: seq<Level>, a: nat)
    requires a < |levels|
    ensures ParentIds(Walk(levels[..a + 1])) == ParentIds(Walk(levels[..a])) + ParentIds(levels[a])
  {
    assert levels[..a + 1][..a] == levels[..a];
    ParentIdsAppend(Walk(levels[..a]), levels[a]);
  }

  /** Number of Total cells a level emits. */
  function TotalCount(level: Level, seen: seq<CategoryId>): nat
    decreases |level|
  {
    if |level| == 0 then 0
    else
      var k := |level| - 1;
      TotalCount(level[..k], seen) + (if OpensTotal(level[k], seen + ParentIds(level[..k])) then 1 else 0)
  }

  /** Number of Other cells a level emits. */
  function OtherCount(level: Level, seen: seq<CategoryId>, store: Store): nat
    decreases |level|
  {
    if |level| == 0 then 0
    else
      var k := |level| - 1;
      OtherCount(level[..k], seen, store) + (if ClosesOther(level[k], seen + ParentIds(level[..k]), store) then 1 else 0)
  }

  // ---------------------------------------------------------------------------
  // Shape of the header rows

  /** A row holds every pair once, plus the Totals and Others it emits. */
  lemma {:induction false} RowLength(level: Level, levelsLeft: nat, seen: seq<CategoryId>, store: Store)
    ensures |Row(level, levelsLeft, seen, store)| == |level| + TotalCount(level, seen) + OtherCount(level, seen, store)
    decreases |level|
  {
    if |level| > 0 {
      RowLength(level[..|level| - 1], levelsLeft, seen, store);
    }
  }

  /** Row `a` of the first `n` header rows is the row of level `a`, laid out after the parents of all earlier levels. */
  lemma {:induction false} RowsUpToAt(levels: seq<Level>, store: Store, a: nat, n: nat)
    requires a < n <= |levels|
    ensures RowsUpTo(levels, n, store)[a] == Row(levels[a], |levels| - a, ParentIds(Walk(levels[..a])), store)
    decreases n
  {
    if a < n - 1 {
      RowsUpToAt(levels, store, a, n - 1);
    }
  }

  /** One header row per level, in level order. */
  lemma HeaderRowAt(levels: seq<Level>, store: Store, a: nat)
    requires a < |levels|
    ensures |HeaderRows(levels, store)| == |levels|
    ensures HeaderRows(levels, store)[a] == Row(levels[a], |levels| - a, ParentIds(Walk(levels[..a])), store)
  {
    RowsUpToAt(levels, store, a, |levels|);
  }

  /** Every cell of a row spans either one row or all the levels left. */
  lemma {:induction false} RowSpans(level: Level, levelsLeft: nat, seen: seq<CategoryId>, store: Store)
    ensures forall c :: c in Row(level, levelsLeft, seen, store) ==> c.rowSpan == 1 || c.rowSpan == levelsLeft
    decreases |level|
  {
    if |level| > 0 {
      RowSpans(level[..|level| - 1], levelsLeft, seen, store);
    }
  }

  /** No header cell reaches below the last header row, and none is empty. */
  lemma HeaderRowSpans(levels: seq<Level>, store: Store, a: nat)
    requires a < |levels|
    ensures 1 <= |levels| - a
    ensures forall c :: c in HeaderRows(levels, store)[a] ==> 1 <= c.rowSpan <= |levels| - a
  {
    RowSpans(levels[a], |levels| - a, ParentIds(Walk(levels[..a])), store);
    HeaderRowAt(levels, store, a);
  }

  /** The row of a prefix of a level is a prefix of the level's row. */
  lemma {:induction false} RowPrefix(level: Level, levelsLeft: nat, seen: seq<CategoryId>, store: Store, j: nat)
    requires j <= |level|
    ensures Row(level[..j], levelsLeft, seen, store) <= Row(level, levelsLeft, seen, store)
    decreases |level| - j
  {
    if j < |level| {
      var k := |level| - 1;
      RowPrefix(level[..k], levelsLeft, seen, store, j);
      assert level[..k][..j] == level[..j];
      assert level[..|level|] == level;
    } else {
      assert level[..j] == level;
    }
  }

  /**
   * Pair `k` of a level owns the stretch of the row between the rows of
   * `level[..k]` and `level[..k + 1]`: its optional Total, its own cell and
   * its optional Other, decided by the parents met before it.
   */
  lemma EntryStretch(level: Level, levelsLeft: nat, seen: seq<CategoryId>, store: Store, k: nat)
    requires k < |level|
    ensures var lo := |Row(level[..k], levelsLeft, seen, store)|;
            var hi := |Row(level[..k + 1], levelsLeft, seen, store)|;
            lo <= hi <= |Row(level, levelsLeft, seen, store)| &&
            Row(level, levelsLeft, seen, store)[lo..hi]
              == EntryCells(level[k], levelsLeft, seen + ParentIds(level[..k]), store)
  {
    var pre := level[..k + 1];
    assert pre[..k] == level[..k] && pre[k] == level[k];
    var r0 := Row(level[..k], levelsLeft, seen, store);
    var cells := EntryCells(level[k], levelsLeft, seen + ParentIds(level[..k]), store);
    var r1 := Row(pre, levelsLeft, seen, store);
    assert r1 == r0 + cells;
    RowPrefix(level, levelsLeft, seen, store, k + 1);
    var r := Row(level, levelsLeft, seen, store);
    assert r[|r0|..|r1|] == r1[|r0|..] == cells;
  }

  // ---------------------------------------------------------------------------
  // The walk across levels

  /** `Walk` of two stretches of levels is their walks one after the other. */
  lemma {:induction false} WalkAppend(xs: seq<Level>, ys: seq<Level>)
    ensures Walk(xs + ys) == Walk(xs) + Walk(ys)
    decreases |ys|
  {
    if ys == [] {
      assert xs + ys == xs;
    } else {
      var k := |ys| - 1;
      WalkAppend(xs, ys[..k]);
      assert (xs + ys)[..|xs + ys| - 1] == xs + ys[..k];
      assert (xs + ys)[|xs + ys| - 1] == ys[k];
    }
  }

  /**
   * Pair `k` of level `a` is visited at position `j` of the whole walk, after
   * every pair of the earlier levels and the earlier pairs of its own level.
   */
  lemma WalkPosition(levels: seq<Level>, a: nat, k: nat)
    requires a < |levels| && k < |levels[a]|
    ensures var j := |Walk(levels[..a])| + k;
            j < |Walk(levels)| &&
            Walk(levels)[j] == levels[a][k] &&
            Walk(levels)[..j] == Walk(levels[..a]) + levels[a][..k]
  {
    assert levels == levels[..a + 1] + levels[a + 1..];
    WalkAppend(levels[..a + 1], levels[a + 1..]);
    assert levels[..a + 1][..a] == levels[..a];
    assert Walk(levels[..a + 1]) == Walk(levels[..a]) + levels[a];
  }

  /**
   * The cells header row `a` holds for pair `k` of level `a`: they are
   * decided by the parents of every pair visited before it, on the earlier
   * levels and earlier in this level.
   */
  lemma HeaderCellsOfEntry(levels: seq<Level>, store: Store, a: nat, k: nat)
    requires a < |levels| && k < |levels[a]|
    ensures var seen := ParentIds(Walk(levels[..a]));
            var row := HeaderRows(levels, store)[a];
            var lo := |Row(levels[a][..k], |levels| - a, seen, store)|;
            var hi := |Row(levels[a][..k + 1], |levels| - a, seen, store)|;
            lo <= hi <= |row| &&
            row[lo..hi] == EntryCells(levels[a][k], |levels| - a, ParentIds(Walk(levels[..a]) + levels[a][..k]), store)
  {
    EntryStretch(levels[a], |levels| - a, ParentIds(Walk(levels[..a])), store, k);
    ParentIdsAppend(Walk(levels[..a]), levels[a][..k]);
    HeaderRowAt(levels, store, a);
  }

  // ---------------------------------------------------------------------------
  // Where Totals and Others go, over the whole walk

  /** A pair opens a Total exactly when it is the first visited child of its parent. */
  lemma TotalAtFirstChild(walk: seq<Entry>, j: nat)
    requires j < |walk|
    ensures OpensTotal(walk[j], ParentIds(walk[..j])) <==>
      walk[j].category.parent.Some? &&
      forall i :: 0 <= i < j ==> walk[i].category.parent != walk[j].category.parent
  {
    if walk[j].category.parent.Some? {
      var p := walk[j].category.parent.value;
      ParentIdsMembership(walk[..j], p);
      if exists i :: 0 <= i < j && walk[i].category.parent == Some(p) {
        var i :| 0 <= i < j && walk[i].category.parent == Some(p);
        assert walk[..j][i] == walk[i];
      }
    }
  }

  /** A parent gets at most one Total over the whole walk; a root never opens one. */
  lemma TotalOncePerParent(walk: seq<Entry>, i: nat, j: nat)
    requires i < j < |walk|
    requires walk[i].category.parent == walk[j].category.parent
    ensures !(OpensTotal(walk[i], ParentIds(walk[..i])) && OpensTotal(walk[j], ParentIds(walk[..j])))
  {
    TotalAtFirstChild(walk, j);
  }

  /** The running list after visiting pair `j` is the one before it plus its parent. */
  lemma ParentIdsStep(walk: seq<Entry>, j: nat)
    requires j < |walk|
    ensures ParentIds(walk[..j + 1]) == ParentIds(walk[..j]) + ParentOf(walk[j])
  {
    assert walk[..j + 1][..j] == walk[..j];
  }

  /** Whether pair `j` closes its parent, stated on the running list just after it. */
  lemma ClosesOtherCount(walk: seq<Entry>, store: Store, j: nat)
    requires j < |walk| && walk[j].category.parent.Some?
    ensures ClosesOther(walk[j], ParentIds(walk[..j]), store) <==>
      store.childCount(walk[j].category.parent.value) ==
      Occurrences(ParentIds(walk[..j + 1]), walk[j].category.parent.value)
  {
    ParentIdsStep(walk, j);
  }

  /**
   * A parent gets at most one Other over the whole walk, even if one of its
   * children is visited twice: its occurrence count only grows.
   */
  lemma OtherOncePerParent(walk: seq<Entry>, store: Store, i: nat, j: nat)
    requires i < j < |walk|
    requires walk[i].category.parent == walk[j].category.parent
    ensures !(ClosesOther(walk[i], ParentIds(walk[..i]), store) && ClosesOther(walk[j], ParentIds(walk[..j]), store))
  {
    if walk[i].category.parent.Some? {
      ClosesOtherCount(walk, store, i);
      ClosesOtherCount(walk, store, j);
      ParentIdsCountGrows(walk, walk[i].category.parent.value, i + 1, j, j + 1);
    }
  }

  /** A later child of the same parent keeps pair `j` from closing it. */
  lemma LaterChildKeepsOpen(walk: seq<Entry>, store: Store, j: nat, i: nat)
    requires j < i < |walk| && walk[j].category.parent.Some?
    requires walk[i].category.parent == walk[j].category.parent
    requires store.childCount(walk[j].category.parent.value) ==
             Occurrences(ParentIds(walk), walk[j].category.parent.value)
    ensures !ClosesOther(walk[j], ParentIds(walk[..j]), store)
  {
    ClosesOtherCount(walk, store, j);
    assert walk[..|walk|] == walk;
    ParentIdsCountGrows(walk, walk[j].category.parent.value, j + 1, i, |walk|);
  }

  /** With no later child of the same parent, pair `j` closes it. */
  lemma LastChildCloses(walk: seq<Entry>, store: Store, j: nat)
    requires j < |walk| && walk[j].category.parent.Some?
    requires store.childCount(walk[j].category.parent.value) ==
             Occurrences(ParentIds(walk), walk[j].category.parent.value)
    requires forall i :: j < i < |walk| ==> walk[i].category.parent != walk[j].category.parent
    ensures ClosesOther(walk[j], ParentIds(walk[..j]), store)
  {
    ClosesOtherCount(walk, store, j);
    NoLaterChild(walk, walk[j].category.parent.value, j);
  }

  /**
   * When a parent's child count equals the number of its children the walk
   * visits, its Other follows exactly the last of them.
   */
  lemma OtherAfterLastChild(walk: seq<Entry>, store: Store, j: nat)
    requires j < |walk| && walk[j].category.parent.Some?
    requires var p := walk[j].category.parent.value;
             store.childCount(p) == Occurrences(ParentIds(walk), p)
    ensures ClosesOther(walk[j], ParentIds(walk[..j]), store) <==>
      forall i :: j < i < |walk| ==> walk[i].category.parent != walk[j].category.parent
  {
    if exists i :: j < i < |walk| && walk[i].category.parent == walk[j].category.parent {
      var i :| j < i < |walk| && walk[i].category.parent == walk[j].category.parent;
      LaterChildKeepsOpen(walk, store, j, i);
    } else {
      LastChildCloses(walk, store, j);
    }
  }

  /** With no child of `p` after position `j`, the running list holds `p` as often as after `j`. */
  lemma NoLaterChild(walk: seq<Entry>, p: CategoryId, j: nat)
    requires j < |walk|
    requires forall i :: j < i < |walk| ==> walk[i].category.parent != Some(p)
    ensures Occurrences(ParentIds(walk), p) == Occurrences(ParentIds(walk[..j + 1]), p)
  {
    var rest := walk[j + 1..];
    assert walk == walk[..j + 1] + rest;
    ParentIdsAppend(walk[..j + 1], rest);
    ParentIdsMembership(rest, p);
    OccurrencesAppend(ParentIds(walk[..j + 1]), ParentIds(rest), p);
    OccurrencesAbsent(ParentIds(rest), p);
  }

  /**
   * The two-level tree Income, Mandatory -> (Rent, Food) with Mandatory
   * spanning four columns: the second row opens with Mandatory's Total
   * before Rent and closes with its Other after Food.
   */
  lemma TwoLevelExample()
    ensures var income := Category(1, "Income", None);
            var mandatory := Category(2, "Mandatory", None);
            var rent := Category(3, "Rent", Some(2));
            var food := Category(4, "Food", Some(2));
            var store := Store((c: Category) => if c.id == 2 then 4 else 1, (p: CategoryId) => if p == 2 then 2 else 0);
            HeaderRows([[Entry(income, false), Entry(mandatory, true)],
                        [Entry(rent, false), Entry(food, false)]], store)
            == [[Cell("Income", 1, 2), Cell("Mandatory", 4, 1)],
                [Cell("Total", 1, 1), Cell("Rent", 1, 1), Cell("Food", 1, 1), Cell("Other", 1, 1)]]
  {
    var income := Category(1, "Income", None);
    var mandatory := Category(2, "Mandatory", None);
    var rent := Category(3, "Rent", Some(2));
    var food := Category(4, "Food", Some(2));
    var store := Store((c: Category) => if c.id == 2 then 4 else 1, (p: CategoryId) => if p == 2 then 2 else 0);
    var top: Level := [Entry(income, false), Entry(mandatory, true)];
    var bottom: Level := [Entry(rent, false), Entry(food, false)];
    var levels: seq<Level> := [top, bottom];
    assert levels[..1] == [top];
    assert |levels[..0]| == 0;
    assert Walk(levels[..1]) == top by {
      assert |levels[..1][..0]| == 0;
    }
    assert |ParentIds(top)| == 0 by {
      assert |top[..1][..0]| == 0;
      assert |ParentIds(top[..1][..0])| == 0;
      assert |ParentIds(top[..1])| == 0;
    }
    assert bottom[..1] == [Entry(rent, false)];
    assert |bottom[..1][..0]| == 0;
    assert [2] + [2] == [2, 2];
    assert [2, 2][..1] == [2];
    assert Row(top, 2, [], store) == [Cell("Income", 1, 2), Cell("Mandatory", 4, 1)] by {
      assert |top[..1][..0]| == 0;
      assert |ParentIds(top[..1][..0])| == 0;
      assert |ParentIds(top[..1])| == 0;
      assert Row(top[..1], 2, [], store) == [Cell("Income", 1, 2)];
    }
    assert ParentIds(bottom[..1]) == [2] by {
      assert |ParentIds(bottom[..1][..0])| == 0;
    }
    assert Occurrences([2], 2) == 1 by {
      assert |[2][..0]| == 0;
    }
    assert Occurrences([2, 2], 2) == 2;
    assert Row(bottom[..1], 1, [], store) == [Cell("Total", 1, 1), Cell("Rent", 1, 1)] by {
      assert |ParentIds(bottom[..1][..0])| == 0;
      assert [] + [2] == [2];
    }
    assert Row(bottom, 1, [], store) ==
      [Cell("Total", 1, 1), Cell("Rent", 1, 1), Cell("Food", 1, 1), Cell("Other", 1, 1)];
    HeaderRowAt(levels, store, 0);
    HeaderRowAt(levels, store, 1);
  }
}
