/**
 * The category records the pivot-table view walks, and the running list of
 * parents it has already met.
 *
 * A category is compared by its primary key, as the ORM compares model
 * instances, so a parent is represented by the key of the parent row.
 */
module Categories {

  /** Primary key of a category row (a UUID in the database). */
  type CategoryId = nat

  datatype Option<+T> = None | Some(value: T)

  /** A category row: primary key, display name and the optional parent key. */
  datatype Category = Category(id: CategoryId, name: string, parent: Option<CategoryId>)

  /** One `(category, has_children)` pair of a level. */
  datatype Entry = Entry(category: Category, hasChildren: bool)

  /** A level of the category tree: its pairs, left to right. */
  type Level = seq<Entry>

  /** The parent key an entry contributes to the running list: none for a root. */
  function ParentOf(e: Entry): seq<CategoryId>
  {
    if e.category.parent.Some? then [e.category.parent.value] else []
  }

  /**
   * The list of parents built up by visiting `entries` in order: one parent
   * key per visited child, repeated once per child.
   */
  function ParentIds(entries: seq<Entry>): seq<CategoryId>
    decreases |entries|
  {
    if |entries| == 0 then []
    else ParentIds(entries[..|entries| - 1]) + ParentOf(entries[|entries| - 1])
  }

  /** How often `p` occurs in `s`: the list's `.count(p)`. */
  function Occurrences(s: seq<CategoryId>, p: CategoryId): nat
    decreases |s|
  {
    if |s| == 0 then 0
    else Occurrences(s[..|s| - 1], p) + (if s[|s| - 1] == p then 1 else 0)
  }

  /** Counting over two lists one after the other adds the counts. */
  lemma {:induction false} OccurrencesAppend(s: seq<CategoryId>, t: seq<CategoryId>, p: CategoryId)
    ensures Occurrences(s + t, p) == Occurrences(s, p) + Occurrences(t, p)
    decreases |t|
  {
    if t == [] {
      assert s + t == s;
    } else {
      var k := |t| - 1;
      OccurrencesAppend(s, t[..k], p);
      assert (s + t)[..|s + t| - 1] == s + t[..k];
    }
  }

  /** A key not in the list is counted zero times. */
  lemma {:induction false} OccurrencesAbsent(s: seq<CategoryId>, p: CategoryId)
    requires p !in s
    ensures Occurrences(s, p) == 0
    decreases |s|
  {
    if |s| > 0 {
      var k := |s| - 1;
      assert p !in s[..k];
      OccurrencesAbsent(s[..k], p);
    }
  }

  /** A key in the list is counted at least once. */
  lemma {:induction false} OccurrencesPositive(s: seq<CategoryId>, p: CategoryId)
    requires p in s
    ensures Occurrences(s, p) > 0
    decreases |s|
  {
    var k := |s| - 1;
    if s[k] != p {
      assert p in s[..k] by {
        var i :| 0 <= i < |s| && s[i] == p;
        assert s[..k][i] == p;
      }
      OccurrencesPositive(s[..k], p);
    }
  }

  /** Visiting two stretches one after the other records both lists in order. */
  lemma {:induction false} ParentIdsAppend(s: seq<Entry>, t: seq<Entry>)
    ensures ParentIds(s + t) == ParentIds(s) + ParentIds(t)
    decreases |t|
  {
    if t == [] {
      assert s + t == s;
    } else {
      var k := |t| - 1;
      ParentIdsAppend(s, t[..k]);
      assert (s + t)[..|s + t| - 1] == s + t[..k];
      assert (s + t)[|s + t| - 1] == t[k];
    }
  }

  /** A key is in the running list exactly when some visited entry has it as parent. */
  lemma {:induction false} ParentIdsMembership(s: seq<Entry>, p: CategoryId)
    ensures p in ParentIds(s) <==> exists i :: 0 <= i < |s| && s[i].category.parent == Some(p)
    decreases |s|
  {
    if |s| > 0 {
      var k := |s| - 1;
      ParentIdsMembership(s[..k], p);
      if p in ParentIds(s[..k]) {
        var i :| 0 <= i < k && s[..k][i].category.parent == Some(p);
        assert s[i].category.parent == Some(p);
      }
      if exists i :: 0 <= i < |s| && s[i].category.parent == Some(p) {
        var i :| 0 <= i < |s| && s[i].category.parent == Some(p);
        if i < k {
          assert s[..k][i].category.parent == Some(p);
        }
      }
    }
  }

  /**
   * Each further child of `p` visited after position `i` and before `j`
   * raises the number of times `p` is in the running list.
   */
  lemma {:induction false} ParentIdsCountGrows(s: seq<Entry>, p: CategoryId, i: nat, m: nat, j: nat)
    requires i <= m < j <= |s|
    requires s[m].category.parent == Some(p)
    ensures Occurrences(ParentIds(s[..i]), p) < Occurrences(ParentIds(s[..j]), p)
  {
    assert s[..j] == s[..i] + s[i..j];
    ParentIdsAppend(s[..i], s[i..j]);
    assert s[i..j][m - i] == s[m];
    ParentIdsMembership(s[i..j], p);
    OccurrencesPositive(ParentIds(s[i..j]), p);
    OccurrencesAppend(ParentIds(s[..i]), ParentIds(s[i..j]), p);
  }
}
