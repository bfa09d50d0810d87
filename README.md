# Colour table row reorder (FigTree discrete colour scale dialog)

FigTree's discrete colour scale dialog shows a table with one row per value of a
discrete attribute. Column 0 holds the value and column 1 the colour the HSB
discrete colour decorator gives it. Colours are assigned by position in the
decorator's value list, so the user changes the assignment by dragging rows to
new places. This project models that table in Dafny and proves the contract of
the drag-and-drop reorder. The table is modelled by the table model
(`ColourTableModel`) and the transfer handler (`TableRowTransferHandler`) of
`src/figtree/treeviewer/DiscreteColourScaleDialog.java`.

- `reordering.dfy` (module `Reordering`) holds the list arithmetic as pure
  functions:
  - removal and insertion with the semantics of `java.util.List.remove(int)`
    and `java.util.List.add(int, E)`;
  - the adjustment of the drop position by one when the row moves down;
  - the reorder itself, plus lemmas on where every value ends up, the no-op
    drops, the drop-target law and undoing a reorder.
- `colour_table.dfy` (module `ColourTable`) holds the three objects the source
  updates in place, as classes:
  - `ColourTableModel` holds the decorator flag, the shared value list and a log
    of side effects. The log replaces two counters: each reorder appends exactly
    one `ColoursSetUp` event (`decorator.setupColours()`), which carries the
    order it saw, and then one `TableDataChanged` event (`fireTableDataChanged()`).
  - `Table` holds the model and the selected rows.
  - `TableRowTransferHandler` handles a drop. `importData` takes the drop row
    and the dragged row as parameters; in the source they come from the
    drag-and-drop framework.

Two properties of the code that shape the model:

- `reorder` is not all-or-nothing: it removes the value (line 216) before it
  re-inserts it (line 220), so an out-of-range `toIndex` would throw after the
  value had already left the list. `Reorder` therefore requires valid indices,
  as the code demands of its callers. `ImportData` is its only caller. It
  clamps the drop row, and verifying it shows that it always meets those
  requirements.
- The drop guard refuses a drop onto the gap just above the dragged row. A drop
  onto the gap just below it still counts as an import: the code reorders (a
  no-op by `ReorderOntoItself`), recomputes the colours, fires the notification
  and returns true.

## Model

| member | source | states |
|---|---|---|
| Reordering.Remove | src/figtree/treeviewer/DiscreteColourScaleDialog.java:216 | removing index `i` shortens the list by one and takes exactly one copy of the removed value out of the multiset |
| Reordering.RemoveAt | src/figtree/treeviewer/DiscreteColourScaleDialog.java:216 | after removing index `i`, the values before `i` keep their index and those after it move down by one |
| Reordering.Insert | src/figtree/treeviewer/DiscreteColourScaleDialog.java:220 | inserting at `i` lengthens the list by one, puts the value at `i` and adds exactly one copy of it to the multiset |
| Reordering.InsertAt | src/figtree/treeviewer/DiscreteColourScaleDialog.java:220 | after inserting at `i`, the values before `i` keep their index and those from `i` on move up by one |
| Reordering.InsertionIndex | src/figtree/treeviewer/DiscreteColourScaleDialog.java:217-219 | the adjustment shared by `reorder` and `importData` (lines 309-310): the drop index is kept exactly when the drop is at or above the dragged row and is one less otherwise; the row moves up exactly when dropped above itself, and stays exactly when dropped on the gap just above or just below itself |
| Reordering.Reordered | src/figtree/treeviewer/DiscreteColourScaleDialog.java:215-220 | for `0 <= from < n` and `0 <= to <= n`, the reorder stays in bounds, keeps the length, is a permutation (same multiset), and puts the dragged value at `to - 1` when `to > from` and at `to` otherwise, always inside `[0, n)` |
| Reordering.ReorderedAt | src/figtree/treeviewer/DiscreteColourScaleDialog.java:216-220 | every position after a reorder agrees with the reference `MovedAt`: the dragged value at the insertion index, the values strictly between its old and new place shifted one step toward the vacated slot, all other values unmoved |
| Reordering.ReorderOntoItself | src/figtree/treeviewer/DiscreteColourScaleDialog.java:216-220 | `reorder(f, f)` and `reorder(f, f + 1)` leave the list unchanged |
| Reordering.DroppedBeforeTarget | src/figtree/treeviewer/DiscreteColourScaleDialog.java:216-220 | for a drop row `t < n` other than `f`, the dragged value lands immediately before the value that was at row `t` |
| Reordering.ReorderUndone | src/figtree/treeviewer/DiscreteColourScaleDialog.java:216-220 | reorder has an inverse: dragging the moved value from its new index back to the gap above its old place (`UndoDropRow`, one row further down when it moved up) restores the original list |
| Reordering.ReorderDownExample | src/figtree/treeviewer/DiscreteColourScaleDialog.java:214-223 | `reorder(0, 3)` on `ABCD` gives `BCAD` |
| Reordering.ReorderUpExample | src/figtree/treeviewer/DiscreteColourScaleDialog.java:214-223 | `reorder(3, 0)` on `ABCD` gives `DABC` |
| ColourTable.ClampDropRow | src/figtree/treeviewer/DiscreteColourScaleDialog.java:300-303 | the index passed on is always in `[0, rowCount]`: a drop row in that range is kept, one below 0 or above `rowCount` becomes `rowCount` |
| ColourTable.ColourTableModel.constructor | src/figtree/treeviewer/DiscreteColourScaleDialog.java:33 | a new table model has no decorator, no values and has triggered no events |
| ColourTable.ColourTableModel.SetDecorator | src/figtree/treeviewer/DiscreteColourScaleDialog.java:132-133 | after the assignment at line 133 the table shows the decorator's value list; the assignment itself triggers no colour or change event |
| ColourTable.ColourTableModel.RowCount | src/figtree/treeviewer/DiscreteColourScaleDialog.java:170-173 | the row count is 0 without a decorator and the length of the value list with one |
| ColourTable.ColourTableModel.ColumnClass | src/figtree/treeviewer/DiscreteColourScaleDialog.java:202-207 | the column class is Color exactly for column 1, String for every other column |
| ColourTable.ColourTableModel.ValueAt | src/figtree/treeviewer/DiscreteColourScaleDialog.java:191-199 | column 0 gives the value at `row` and column 1 the colour of that value, both needing a decorator and a row in range; any other column gives null and needs neither |
| ColourTable.ColourTableModel.Reorder | src/figtree/treeviewer/DiscreteColourScaleDialog.java:214-223 | the value list becomes `Reordered(old list, from, to)` and nothing else changes. Exactly one colour recompute follows, and it sees the updated order. Then exactly one table-changed notification follows |
| ColourTable.Table.constructor | src/figtree/treeviewer/DiscreteColourScaleDialog.java:57 | a new table shows the given model with no row selected |
| ColourTable.TableRowTransferHandler.constructor | src/figtree/treeviewer/DiscreteColourScaleDialog.java:274-276 | the handler is bound to the given table |
| ColourTable.TableRowTransferHandler.ImportData | src/figtree/treeviewer/DiscreteColourScaleDialog.java:297-318 | the drop row is clamped to `[0, rowCount]`. If the dragged row is -1 or equals that index, the result is false and the list, the events and the selection are unchanged. Otherwise the result is true, the list is reordered with one recompute and one notification, and the adjusted index is added to the selection. That index is in `[0, n)`, and column 0 there shows the dragged value |

## Left out

- The HSB colour assignment (`HSBDiscreteColorDecorator.setupColours` and
  `getColor`): its source is not part of this model. A recompute is a logged
  event, and a colour cell names only the value whose colour it shows.
- Dialog construction and layout, `showDialog`, the option pane and its result
  code (lines 47-130): widget plumbing.
- The conversion between sliders and decorator settings in `setDecorator` and
  `setupDecorator` (lines 135-160): float arithmetic with truncating casts into
  a range slider widget that is not part of this model. Only the assignment of
  the decorator (line 133) is modelled.
- ColourTable.ColourTableModel.SetDecorator: models only the assignment at
  line 133. The widget updates at lines 135-145 (for instance
  `setSelectedItem` on the axis combo box) can fire the listeners that
  `showDialog` installs at lines 91-108, which call `setupDecorator` and
  notify the table; those notifications are not logged in the model.
- `getColumnCount`, `getColumnName`, `isCellEditable` and `setValueAt`
  (lines 175-188, 210-211): constant answers and a no-op with no logic.
- `ColorRenderer` (lines 226-264): rendering, borders and tooltip text.
- Transfer plumbing: `createTransferable`, `canImport`, `getSourceActions`,
  `exportDone`, cursor changes and extracting the row from the transferable
  (lines 279-295, 304, 306, 320-325). The model takes the dropped and the
  dragged row as parameters, with the same table as source and target, as
  `canImport` ensures.
- The catch-all exception handler of `importData` (lines 314-316).
  `ImportData` requires the dragged row to be -1 or a row of the table, so
  nothing in it can throw.
- ColourTable.TableRowTransferHandler.ImportData: the model adds the new index
  to the selection. It does not model how the Swing table itself reacts to the
  table-changed notification, which may clear the earlier selection. That
  reaction belongs to the widget toolkit, not to this file.
- ColourTable.ColourTableModel.Reorder: the model assumes that
  `decorator.getValues()` returns the decorator's own list rather than a copy,
  as the in-place mutation in the source relies on.
- Java `int` overflow: row indices are bounded by the list length, so none of
  the index arithmetic can wrap.
