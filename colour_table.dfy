/** The table of the discrete colour scale dialog: its model, which shows the
    decorator's ordered values and their colours and reorders them, and the
    transfer handler that turns a drag-and-drop of a row into a reorder. */
module ColourTable {
  import opened Reordering

  /** The side effects of a reorder, in the order they happen. */
  datatype Event<T> =
    | ColoursSetUp(order: seq<T>)  // the decorator recomputes its colours over this value order
    | TableDataChanged             // the model tells its listeners that every row may have changed

  /** The class a column reports for its cells, which picks the cell renderer. */
  datatype CellClass = StringClass | ColourClass

  /** A cell of the table. The colour column holds the colour the decorator
      gives a value; the colour mapping itself is not part of this model, so a
      colour cell records only the value whose colour it shows. */
  datatype Cell<T> = ValueCell(value: T) | ColourCell(colourOf: T) | NoCell

  /** The insertion point a drop resolves to: a row outside the table's gaps
      `0..rowCount` stands for the gap after the last row. */
  function ClampDropRow(row: int, rowCount: nat): (index: int)
    ensures 0 <= index <= rowCount
    ensures 0 <= row <= rowCount ==> index == row
    ensures row < 0 || row > rowCount ==> index == rowCount
  {
    if row < 0 || row > rowCount then rowCount else row
  }

  /** The table model. `hasDecorator` says whether a decorator has been set,
      `values` is that decorator's value list (shared with it, so a reorder
      changes the decorator's own order) and `events` records the colour
      recomputations and change notifications the model has triggered. */
  class ColourTableModel<T> {
    var hasDecorator: bool
    var values: seq<T>
    var events: seq<Event<T>>

    constructor ()
      ensures !hasDecorator && values == [] && events == []
    {
      hasDecorator := false;
      values := [];
      events := [];
    }

    /** A decorator with the value list `decoratorValues` becomes the one the
        table shows. */
    method SetDecorator(decoratorValues: seq<T>)
      modifies this
      ensures hasDecorator && values == decoratorValues && events == old(events)
    {
      hasDecorator := true;
      values := decoratorValues;
    }

    /** One row per value, and no rows before a decorator is set. */
    function RowCount(): (n: nat)
      reads this
      ensures hasDecorator ==> n == |values|
      ensures !hasDecorator ==> n == 0
    {
      if hasDecorator then |values| else 0
    }

    /** Column 1 holds colours, every other column text. */
    function ColumnClass(column: int): (c: CellClass)
      ensures c == ColourClass <==> column == 1
    {
      if column == 1 then ColourClass else StringClass
    }

    /** The cell at (`row`, `column`): the value in column 0, its colour in
        column 1, nothing elsewhere. Only columns 0 and 1 look the row up in
        the decorator's list, so only they need a decorator and a valid row. */
    function ValueAt(row: int, column: int): (c: Cell<T>)
      reads this
      requires column == 0 || column == 1 ==> hasDecorator && 0 <= row < |values|
      ensures column == 0 ==> c == ValueCell(values[row])
      ensures column == 1 ==> c == ColourCell(values[row])
      ensures column != 0 && column != 1 ==> c == NoCell
    {
      if column == 0 then ValueCell(values[row])
      else if column == 1 then ColourCell(values[row])
      else NoCell
    }

    /** Moves the value at `fromIndex` to the insertion point `toIndex`, then
        has the decorator recompute its colours over the new order and
        notifies the table once. */
    method Reorder(fromIndex: int, toIndex: int)
      requires hasDecorator
      requires 0 <= fromIndex < |values| && 0 <= toIndex <= |values|
      modifies this
      ensures hasDecorator
      ensures values == Reordered(old(values), fromIndex, toIndex)
      ensures events == old(events) + [ColoursSetUp(values), TableDataChanged]
    {
      var list := values;
      var value := list[fromIndex];
      list := Remove(list, fromIndex);
      var to := toIndex;
      if to > fromIndex {
        to := to - 1;
      }
      list := Insert(list, to, value);
      assert to == InsertionIndex(fromIndex, toIndex);
      values := list;
      events := events + [ColoursSetUp(values)];
      events := events + [TableDataChanged];
    }
  }

  /** The table widget as far as a drop concerns it: its model and the set of
      selected rows. */
  class Table<T> {
    const model: ColourTableModel<T>
    var selection: set<int>

    constructor (model: ColourTableModel<T>)
      ensures this.model == model && selection == {}
    {
      this.model := model;
      selection := {};
    }
  }

  /** Turns a row dragged within the table and dropped between rows into a
      reorder of the model. */
  class TableRowTransferHandler<T> {
    const table: Table<T>

    constructor (table: Table<T>)
      ensures this.table == table
    {
      this.table := table;
    }

    /** Handles a drop at `dropRow` of the row `rowFrom` (-1 when no row was
        selected as the drag began). The drop is refused when no row was
        dragged or it is dropped onto the gap just above itself; otherwise the
        row is moved and its new index, which holds the dragged value, is added
        to the selection. */
    method ImportData(dropRow: int, rowFrom: int) returns (imported: bool)
      requires -1 <= rowFrom < table.model.RowCount()
      modifies table, table.model
      ensures var index := ClampDropRow(dropRow, old(table.model.RowCount()));
        imported == (rowFrom != -1 && rowFrom != index)
      ensures !imported ==> unchanged(table, table.model)
      ensures imported ==>
        var index := ClampDropRow(dropRow, old(table.model.RowCount()));
        var selected := InsertionIndex(rowFrom, index);
        && table.model.hasDecorator
        && table.model.values == Reordered(old(table.model.values), rowFrom, index)
        && table.model.events == old(table.model.events) + [ColoursSetUp(table.model.values), TableDataChanged]
        && table.selection == old(table.selection) + {selected}
        && 0 <= selected < table.model.RowCount()
        && table.model.ValueAt(selected, 0) == ValueCell(old(table.model.values)[rowFrom])
    {
      var index := dropRow;
      var max := table.model.RowCount();
      if index < 0 || index > max {
        index := max;
      }
      if rowFrom != -1 && rowFrom != index {
        table.model.Reorder(rowFrom, index);
        if index > rowFrom {
          index := index - 1;
        }
        table.selection := table.selection + {index};
        return true;
      }
      return false;
    }
  }
}
