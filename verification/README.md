# Expense overview table: header layout and value rows

The expenses app shows a pivot table of spending per category. The categories
form a tree. A category may have a parent and is compared with other categories
by primary key. The `table` view (`backend/expenses/views.py`) gets the tree
level by level. Each level is a list of `(category, has_children)` pairs, left to
right. From these levels the view builds one header row per level. Each header
cell is `[name, column_span, row_span]`. The view also builds three value rows
below the header.

The header loop visits every pair of every level in order. Across all levels it
keeps one running list of the parents it has met, `parents_considered`. It
starts empty and is never reset between levels. For each pair the loop does
three things:

- If the category has a parent that is not yet in the list, it emits a
  `["Total", 1, levels_left]` cell.
- It emits the category's own cell. The column span is the category's column
  count. The row span is 1 for a category with children and `levels_left` for a
  leaf.
- If the category has a parent, it appends the parent to the list. If the
  parent now occurs in the list as often as it has children, it emits an
  `["Other", 1, levels_left]` cell.

Here `levels_left` is `len(levels) - a` on level `a`.

The model is in three modules:

- `Categories` (`categories.dfy`) holds the category record, the
  `(category, has_children)` pair and the running list of parents.
  `ParentIds` is the list the walk builds. `Occurrences` is the list's
  `.count`.
- `HeaderLayout` (`header_layout.dfy`) is the specification of the header
  rows, written as functions:
  - `EntryCells` gives the cells of one pair;
  - `Row` gives the row of one level;
  - `Walk` is all pairs in visiting order;
  - `HeaderRows` gives all rows.

  Its lemmas state the layout's properties: one row per level, the row spans,
  the row lengths, the stretch each pair owns in its row, Total at the first
  visited child of a parent, Other after the last one, and at most one of each
  per parent.
- `Table` (`table.dfy`) holds the view's loops as methods proved against that
  specification:
  - `VisitEntry` is the body of the inner loop;
  - `BuildHeaderRow` is the inner loop;
  - `BuildHeaderRows` is the outer loop;
  - `BuildValueRows` is the value-row assembly.

Two consequences of the code are worth stating:

- A parent's Total goes before its first visited child. For Income, and
  Mandatory with children Rent and Food, the second row is therefore
  `[Total, Rent, Food, Other]` (`HeaderLayout.TwoLevelExample`).
- `views.py:38` unpacks each aggregated item as a pair `value, _`, so
  `Table.Amounts` and `Table.BuildValueRows` take pairs whose first component
  is the amount.

## Model

| member | source | states |
|---|---|---|
| Table.VisitEntry | backend/expenses/views.py:24-33 | visiting one pair appends exactly that pair's cells (optional Total, own cell, optional Other, as `EntryCells` decides from the running list) to the row, and appends the pair's parent, if any, to the running list |
| Table.BuildHeaderRow | backend/expenses/views.py:23-34 | the inner loop produces exactly the specified row of the level, and leaves the running list extended by the parents of the level's pairs, in order |
| Table.BuildHeaderRows | backend/expenses/views.py:18-34 | the outer loop, with the running list starting empty and carried across levels, produces exactly `HeaderRows(levels)` |
| Table.Amounts | backend/expenses/views.py:38 | the amounts are the first components of the aggregated pairs: same length, same order |
| Table.BuildValueRows | backend/expenses/views.py:36-40 | exactly three rows. `Apr22` holds the first components of the aggregated pairs in order. `May22` holds 13 zeros. `Jun22` holds 13 ones. |
| HeaderLayout.RowsUpTo | backend/expenses/views.py:20-34 | after `n` levels the view has appended exactly `n` header rows |
| HeaderLayout.HeaderRowAt | backend/expenses/views.py:19-34 | there is one header row per level. Row `a` is the row of level `a` with `len(levels) - a` levels left, laid out from the parents met on all earlier levels. |
| HeaderLayout.RowsUpToAt | backend/expenses/views.py:20-34 | rows already appended are never changed by later levels: row `a` of the first `n` rows is level `a`'s row |
| HeaderLayout.HeaderRowSpans | backend/expenses/views.py:21-33 | `levels_left` is at least 1 on every level. Every cell of row `a` spans between 1 and `len(levels) - a` rows, so no cell reaches below the last header row. |
| HeaderLayout.RowSpans | backend/expenses/views.py:27-33 | every cell of a level's row spans either one row or all levels left |
| HeaderLayout.RowLength | backend/expenses/views.py:23-34 | a row's length is the number of pairs, plus the Totals emitted in it, plus the Others emitted in it |
| HeaderLayout.WalkStep | backend/expenses/views.py:19-31 | after level `a` the running list is that of the earlier levels followed by the parents of level `a`. It is not reset between levels. |
| HeaderLayout.RowPrefix | backend/expenses/views.py:23-34 | the row built after a prefix of a level is a prefix of the finished row: cells are only appended |
| HeaderLayout.EntryStretch | backend/expenses/views.py:24-33 | pair `k` owns the stretch of its level's row between the rows of the first `k` and `k + 1` pairs. That stretch is its optional Total, its own cell, then its optional Other. |
| HeaderLayout.WalkPosition | backend/expenses/views.py:19-24 | pair `k` of level `a` is visited after every pair of the earlier levels and the earlier pairs of its own level, in that order |
| HeaderLayout.HeaderCellsOfEntry | backend/expenses/views.py:24-33 | in header row `a`, pair `k` of level `a` gets exactly its own cell, with a Total before it and an Other after it as decided by the parents of every pair visited earlier, on any level |
| HeaderLayout.TotalAtFirstChild | backend/expenses/views.py:25-27 | a pair opens a Total if and only if it has a parent and no pair visited earlier has the same parent. A root never opens one. |
| HeaderLayout.TotalOncePerParent | backend/expenses/views.py:19-27 | no two pairs with the same parent both open a Total, across the whole walk |
| HeaderLayout.ClosesOtherCount | backend/expenses/views.py:30-33 | a pair closes its parent with an Other if and only if, once the parent is appended, the parent's child count equals its count in the running list |
| HeaderLayout.OtherOncePerParent | backend/expenses/views.py:19-33 | no two pairs with the same parent both close it with an Other, across the whole walk, even when a child is visited twice, because the parent's count only grows |
| HeaderLayout.LaterChildKeepsOpen | backend/expenses/views.py:31-33 | if the child count equals the number of visited children, a pair followed later by another child of its parent emits no Other |
| HeaderLayout.LastChildCloses | backend/expenses/views.py:31-33 | if the child count equals the number of visited children, the last visited child of a parent emits the Other |
| HeaderLayout.OtherAfterLastChild | backend/expenses/views.py:30-33 | if the child count equals the number of visited children, a pair emits an Other if and only if no later pair has the same parent |
| HeaderLayout.NoLaterChild | backend/expenses/views.py:31-32 | with no child of `p` after position `j`, the count of `p` in the final running list equals its count just after `j` |
| HeaderLayout.WalkAppend | backend/expenses/views.py:21-24 | walking two stretches of levels visits the first stretch's pairs, then the second's |
| HeaderLayout.TwoLevelExample | backend/expenses/views.py:18-34 | for Income (leaf) and Mandatory with children Rent and Food, the rows are `[Income(1,2), Mandatory(4,1)]` and `[Total(1,1), Rent(1,1), Food(1,1), Other(1,1)]` |
| Categories.ParentIdsAppend | backend/expenses/views.py:19-31 | visiting two stretches of pairs records their parents one list after the other |
| Categories.ParentIdsMembership | backend/expenses/views.py:26-31 | a key is in the running list if and only if some visited pair has it as its parent |
| Categories.ParentIdsCountGrows | backend/expenses/views.py:31-32 | each further visited child of `p` strictly raises `p`'s count in the running list |
| Categories.OccurrencesAppend | backend/expenses/views.py:32 | `.count` over two lists, one after the other, is the sum of the counts |
| Categories.OccurrencesAbsent | backend/expenses/views.py:32 | `.count` of a key not in the list is 0 |
| Categories.OccurrencesPositive | backend/expenses/views.py:32 | `.count` of a key in the list is positive |

## Left out

- `Category.build_levels` and `Category.build_values` are called (`views.py:18,28,38`) but not defined in `backend/expenses/models.py`. Their results are inputs:
  - the levels are a parameter;
  - the column count of a category (`category.build_levels()[1]`) is `Store.columnCount`;
  - the aggregated values are a parameter.
- `parent.children` (`views.py:32`) is not declared in `backend/expenses/models.py`. The `parent` foreign key at `models.py:12` has no `related_name`, so the shown models give no `children` accessor, just as they give no `build_levels`. Either way the child count is an input: `Store.childCount`, indexed by the parent's key.
- `Store.childCount` and `Store.columnCount` are fixed for the whole walk. The view re-queries them on every visit (`views.py:28,32`), so the model does not capture categories changing during the walk.
- Database access is not modelled: the ordered `category_list` query (`views.py:16`) and `on_delete` behaviour.
- Category keys are UUIDs in the database and natural numbers here. The view compares parents by model equality, which is by primary key, so the model compares keys.
- The category fields `order`, `color`, `created_at` and `updated_at` play no part in the layout and are not modelled.
- Amounts are floats in the database (`models.py:22`). The first components of the aggregated pairs are modelled as integers. Rounding and display formatting are not modelled.
- The second assignment of an empty `parents_considered` (`views.py:36`) is never read afterwards. It is not modelled.
- Rendering is not modelled: the template context, `render` and the HTTP response (`views.py:42-43`).
- The `index` redirect view (`views.py:11-12`) is not modelled.
- These parts of the app are not modelled: URL routing, the form, admin registration, the user model, the base model's random ids and clock, the lint command and the migrations.
- `HeaderLayout.OtherAfterLastChild`, `HeaderLayout.LaterChildKeepsOpen` and `HeaderLayout.LastChildCloses` place the Other only when a parent's child count equals the number of its children the walk visits. If the database count differs, the view emits the Other at another visit or not at all. `HeaderLayout.OtherOncePerParent` still holds in that case.
