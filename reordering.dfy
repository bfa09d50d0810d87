/** The list arithmetic behind the colour table's drag-and-drop row reorder:
    removal and insertion with the semantics of java.util.List.remove(int) and
    java.util.List.add(int, E), the adjustment of the drop position for the
    removed row, and the reorder that combines them. */
module Reordering {

  /** The list without its element at `i`, as List.remove(int) leaves it:
      the elements after `i` move down by one. */
  function Remove<T>(s: seq<T>, i: int): (r: seq<T>)
    requires 0 <= i < |s|
    ensures |r| == |s| - 1
    ensures multiset(r) + multiset{s[i]} == multiset(s)
  {
    assert s == s[..i] + [s[i]] + s[i + 1..];
    s[..i] + s[i + 1..]
  }

  /** Removal keeps the values before `i` and shifts those after it down. */
  lemma RemoveAt<T>(s: seq<T>, i: int, k: int)
    requires 0 <= i < |s| && 0 <= k < |s| - 1
    ensures Remove(s, i)[k] == if k < i then s[k] else s[k + 1]
  {
  }

  /** The list with `x` inserted at `i`, as List.add(int, E) leaves it:
      the elements from `i` on move up by one. */
  function Insert<T>(s: seq<T>, i: int, x: T): (r: seq<T>)
    requires 0 <= i <= |s|
    ensures |r| == |s| + 1
    ensures r[i] == x
    ensures multiset(r) == multiset(s) + multiset{x}
  {
    assert s == s[..i] + s[i..];
    s[..i] + [x] + s[i..]
  }

  /** Insertion keeps the values before `i` and shifts those from `i` on up. */
  lemma InsertAt<T>(s: seq<T>, i: int, x: T, k: int)
    requires 0 <= i <= |s| && 0 <= k <= |s| && k != i
    ensures Insert(s, i, x)[k] == if k < i then s[k] else s[k - 1]
  {
  }

  /** Where the dragged row is re-inserted. A drop position below the dragged
      row counts rows of the list before removal, so once the row is removed it
      names the slot one further down. */
  function InsertionIndex(from: int, to: int): (p: int)
    ensures to - 1 <= p <= to
    ensures p == to <==> to <= from
    ensures p < from <==> to < from
    ensures p == from <==> from <= to <= from + 1
  {
    if to > from then to - 1 else to
  }

  /** The value list after the row at `from` is dragged to the insertion point
      `to` (a gap between rows, `|s|` being the gap after the last row). */
  function Reordered<T>(s: seq<T>, from: int, to: int): (r: seq<T>)
    requires 0 <= from < |s| && 0 <= to <= |s|
    ensures |r| == |s|
    ensures multiset(r) == multiset(s)
    ensures 0 <= InsertionIndex(from, to) < |s| && r[InsertionIndex(from, to)] == s[from]
  {
    Insert(Remove(s, from), InsertionIndex(from, to), s[from])
  }

  /** What a reorder leaves at position `k`, stated without Remove and Insert,
      for the dragged value going from `from` to `p`: it sits at `p`, the
      values strictly between its old and new place move one step toward the
      slot it vacated, and every other value stays where it was. */
  function MovedAt<T>(s: seq<T>, from: int, p: int, k: int): (v: T)
    requires 0 <= from < |s| && 0 <= p < |s| && 0 <= k < |s|
  {
    if k == p then s[from]
    else if from <= k < p then s[k + 1]
    else if p < k <= from then s[k - 1]
    else s[k]
  }

  /** Position by position, a reorder agrees with MovedAt. */
  lemma ReorderedAt<T>(s: seq<T>, from: int, to: int, k: int)
    requires 0 <= from < |s| && 0 <= to <= |s| && 0 <= k < |s|
    ensures Reordered(s, from, to)[k] == MovedAt(s, from, InsertionIndex(from, to), k)
  {
    var p := InsertionIndex(from, to);
    var removed := Remove(s, from);
    var r := Insert(removed, p, s[from]);
    assert r == Reordered(s, from, to);
    if k < p {
      InsertAt(removed, p, s[from], k);
      RemoveAt(s, from, k);
    } else if k > p {
      InsertAt(removed, p, s[from], k);
      RemoveAt(s, from, k - 1);
    }
  }

  /** Dropping a row onto the gap just above or just below itself leaves the
      list as it was. */
  lemma ReorderOntoItself<T>(s: seq<T>, from: int)
    requires 0 <= from < |s|
    ensures Reordered(s, from, from) == s
    ensures Reordered(s, from, from + 1) == s
  {
    forall k | 0 <= k < |s|
      ensures Reordered(s, from, from)[k] == s[k] && Reordered(s, from, from + 1)[k] == s[k]
    {
      ReorderedAt(s, from, from, k);
      ReorderedAt(s, from, from + 1, k);
    }
  }

  /** The reorder law for drop targets: unless the row is dropped onto the gap
      above itself, it lands immediately before the row that was at the drop
      position. */
  lemma DroppedBeforeTarget<T>(s: seq<T>, from: int, to: int)
    requires 0 <= from < |s| && 0 <= to < |s| && to != from
    ensures InsertionIndex(from, to) + 1 < |s|
    ensures Reordered(s, from, to)[InsertionIndex(from, to) + 1] == s[to]
  {
    ReorderedAt(s, from, to, InsertionIndex(from, to) + 1);
  }

  /** The drop position that brings a row moved from `from` by a drop at `to`
      back to `from`: the gap above its old place, which lies one further down
      when the row moved up. */
  function UndoDropRow(from: int, to: int): (back: int)
  {
    if to < from then from + 1 else from
  }

  /** A reorder is undone by dragging the moved row from its new index back
      to UndoDropRow. */
  lemma ReorderUndone<T>(s: seq<T>, from: int, to: int)
    requires 0 <= from < |s| && 0 <= to <= |s|
    ensures Reordered(Reordered(s, from, to), InsertionIndex(from, to), UndoDropRow(from, to)) == s
  {
    var p := InsertionIndex(from, to);
    var back := UndoDropRow(from, to);
    var moved := Reordered(s, from, to);
    assert InsertionIndex(p, back) == from;
    var restored := Reordered(moved, p, back);
    ReorderedAt(s, from, to, p);
    forall k | 0 <= k < |s| ensures restored[k] == s[k] {
      ReorderedAt(moved, p, back, k);
      ReorderedAt(s, from, to, k);
      if k + 1 < |s| { ReorderedAt(s, from, to, k + 1); }
      if 0 < k { ReorderedAt(s, from, to, k - 1); }
    }
  }

  /** Worked example: dragging the first of four rows to the gap after the
      third puts it third. */
  lemma ReorderDownExample()
    ensures Reordered("ABCD", 0, 3) == "BCAD"
  {
    var r := Reordered("ABCD", 0, 3);
    ReorderedAt("ABCD", 0, 3, 0);
    ReorderedAt("ABCD", 0, 3, 1);
    ReorderedAt("ABCD", 0, 3, 3);
    assert r[0] == 'B' && r[1] == 'C' && r[2] == 'A' && r[3] == 'D';
  }

  /** Worked example: dragging the last of four rows to the gap before the
      first puts it first. */
  lemma ReorderUpExample()
    ensures Reordered("ABCD", 3, 0) == "DABC"
  {
    var r := Reordered("ABCD", 3, 0);
    ReorderedAt("ABCD", 3, 0, 1);
    ReorderedAt("ABCD", 3, 0, 2);
    ReorderedAt("ABCD", 3, 0, 3);
    assert r[0] == 'D' && r[1] == 'A' && r[2] == 'B' && r[3] == 'C';
  }
}
