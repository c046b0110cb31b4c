/**
  Grid layouts: the cursor that both GTK backends move from child to child, and the
  closed form that the Qt backend computes from the position among the siblings.
 */
module GridLayout {
  import opened Basics
  import opened CText

  datatype Cell = Cell(x: int, y: int)

  /** The fields that the GTK grids keep between two children. */
  datatype Cursor = Cursor(sortByRow: bool, allocatedRows: int, allocatedColumns: int, currentRow: int, currentColumn: int)

  function NewCursor(rows: int, columns: int): Cursor {
    if rows > 0 then Cursor(true, rows, 1, 0, 0) else Cursor(false, 1, columns, 0, 0)
  }

  /** Where the next child goes, and the cursor behind it. */
  function Place(c: Cursor): (Cell, Cursor) {
    if c.sortByRow then
      var full := c.currentRow >= c.allocatedRows;
      var y := if full then 0 else c.currentRow;
      var x := if full then c.currentColumn + 1 else c.currentColumn;
      (Cell(x, y), c.(currentRow := y + 1, currentColumn := x,
                      allocatedColumns := if x >= c.allocatedColumns then x + 1 else c.allocatedColumns))
    else
      var full := c.currentColumn >= c.allocatedColumns;
      var x := if full then 0 else c.currentColumn;
      var y := if full then c.currentRow + 1 else c.currentRow;
      (Cell(x, y), c.(currentColumn := x + 1, currentRow := y,
                      allocatedRows := if y >= c.allocatedRows then y + 1 else c.allocatedRows))
  }

  /** The cursor after k children. */
  function CursorAfter(rows: int, columns: int, k: nat): Cursor {
    if k == 0 then NewCursor(rows, columns) else Place(CursorAfter(rows, columns, k - 1)).1
  }

  /** The cell of the k-th child, counted from 0. */
  function CellOf(rows: int, columns: int, k: nat): Cell {
    Place(CursorAfter(rows, columns, k)).0
  }

  /** The closed form of the GTK cursor. Without a positive extent every child opens a row of its own, from the second on. */
  function GtkCell(rows: int, columns: int, k: nat): Cell {
    if rows > 0 then Cell(k / rows, k % rows)
    else if columns > 0 then Cell(k % columns, k / columns)
    else Cell(0, k + 1)
  }

  /** Division and remainder of C, which truncate towards zero. */
  function DivT(k: nat, c: int): int
    requires c != 0
  {
    if c > 0 then k / c else -(k / -c)
  }

  function ModT(k: nat, c: int): nat
    requires c != 0
  {
    if c > 0 then k % c else k % -c
  }

  /** The child's cell in Qt, from its index among its siblings; the columns rule unless they are 0. */
  function QtCell(rows: int, columns: int, k: nat): Cell {
    if columns != 0 then Cell(ModT(k, columns), DivT(k, columns))
    else if rows != 0 then Cell(DivT(k, rows), ModT(k, rows))
    else Cell(0, 0)
  }

  /** Quotient and remainder are exact, with a remainder of the dividend's sign, and that determines them. */
  lemma TruncatedDivision(k: nat, c: int, q: int, m: int)
    requires c != 0
    ensures q == DivT(k, c) && m == ModT(k, c) <==> k == q * c + m && 0 <= m && m < c + (if c < 0 then -2 * c else 0)
  {
    var a := if c > 0 then c else -c;
    var s := if c > 0 then q else -q;
    assert s * a == q * c;
    Euclid(k, a);
    if c < 0 { assert -(k / a) * c == k / a * a; }
    if k == q * c + m && 0 <= m < a {
      DivModIs(k, a, s, m);
    }
  }

  predicate OnePositive(rows: int, columns: int) {
    (rows > 0 && columns <= 0) || (rows <= 0 && columns > 0)
  }

  // ---------- division ----------

  lemma QuotientIsUnique(q: int, r: int, q': int, r': int, c: int)
    requires c > 0 && 0 <= r < c && 0 <= r' < c && q * c + r == q' * c + r'
    ensures q == q'
  {
    MulNext(q, c);
    MulNext(q', c);
    if q < q' {
      MulLe(q + 1, q', c);
    } else if q' < q {
      MulLe(q' + 1, q, c);
    }
  }

  lemma DivModIs(k: int, c: int, q: int, r: int)
    requires c > 0 && k == q * c + r && 0 <= r < c
    ensures k / c == q && k % c == r
  {
    Euclid(k, c);
    QuotientIsUnique(q, r, k / c, k % c, c);
  }

  /** Counting one further: within the line, or on to the next line. */
  lemma DivModNext(k: nat, c: int)
    requires c > 0
    ensures k % c + 1 < c ==> (k + 1) / c == k / c && (k + 1) % c == k % c + 1
    ensures k % c + 1 == c ==> (k + 1) / c == k / c + 1 && (k + 1) % c == 0
  {
    var q, r := k / c, k % c;
    Euclid(k, c);
    if r + 1 < c {
      DivModIs(k + 1, c, q, r + 1);
    } else {
      MulNext(q, c);
      DivModIs(k + 1, c, q + 1, 0);
    }
  }

  // ---------- closed form ----------

  /** The cursor after k children: it stands behind the last one and wraps only when the next one comes. */
  ghost predicate Reached(c: Cursor, rows: int, columns: int, k: nat) {
    if rows > 0 then
      && c.sortByRow && c.allocatedRows == rows && c.allocatedColumns == c.currentColumn + 1
      && if k == 0 then c.currentRow == 0 && c.currentColumn == 0
         else c.currentRow == (k - 1) % rows + 1 && c.currentColumn == (k - 1) / rows
    else if columns > 0 then
      && !c.sortByRow && c.allocatedColumns == columns && c.allocatedRows == c.currentRow + 1
      && if k == 0 then c.currentRow == 0 && c.currentColumn == 0
         else c.currentColumn == (k - 1) % columns + 1 && c.currentRow == (k - 1) / columns
    else
      && !c.sortByRow && c.allocatedColumns == columns && c.allocatedRows == k + 1
      && c.currentRow == k && 0 <= c.currentColumn
  }

  lemma PlaceReaches(c: Cursor, rows: int, columns: int, k: nat)
    requires Reached(c, rows, columns, k)
    ensures Reached(Place(c).1, rows, columns, k + 1)
    ensures Place(c).0 == GtkCell(rows, columns, k)
  {
    if rows > 0 || columns > 0 {
      var n := if rows > 0 then rows else columns;
      if k > 0 {
        DivModNext(k - 1, n);
      } else {
        DivModIs(0, n, 0, 0);
      }
    }
  }

  lemma {:induction false} CursorReaches(rows: int, columns: int, k: nat)
    ensures Reached(CursorAfter(rows, columns, k), rows, columns, k)
  {
    if k > 0 {
      CursorReaches(rows, columns, k - 1);
      PlaceReaches(CursorAfter(rows, columns, k - 1), rows, columns, k - 1);
    }
  }

  /** The cursor puts the k-th child where the closed form says, for every pair of extents. */
  lemma CursorIsClosedForm(rows: int, columns: int, k: nat)
    ensures CellOf(rows, columns, k) == GtkCell(rows, columns, k)
    ensures rows > 0 ==> CellOf(rows, columns, k) == Cell(k / rows, k % rows)
    ensures rows <= 0 && columns > 0 ==> CellOf(rows, columns, k) == Cell(k % columns, k / columns)
    ensures rows <= 0 && columns <= 0 ==> CellOf(rows, columns, k) == Cell(0, k + 1)
  {
    CursorReaches(rows, columns, k);
    PlaceReaches(CursorAfter(rows, columns, k), rows, columns, k);
  }

  // ---------- GTK against Qt ----------

  /**
    When GTK's cell for the r-th child is Qt's cell for the k-th one. With both extents positive
    Qt fills by rows what GTK fills by columns, which is multiplication by the columns modulo the
    number of cells less one.
   */
  predicate Alike(rows: int, columns: int, r: nat, k: nat) {
    if rows > 0 && columns > 0 then
      var last := rows * columns - 1;
      r <= last && k <= last && (r == 0 <==> k == 0) && (last == 0 || (r * columns - k) % last == 0)
    else if rows > 0 && columns < 0 then r == rows * k && k < -columns
    else if rows > 0 || columns > 0 then r == k
    else columns == 0 && k == r + 1 && k < -rows
  }

  lemma SmallDivMod(k: nat, c: int)
    requires c > 0
    ensures k / c == 0 <==> k < c
    ensures k < c ==> k % c == k
  {
    if k < c {
      DivModIs(k, c, 0, k);
    } else {
      Euclid(k, c);
    }
  }

  lemma MultipleNear(x: int, n: int, d: int)
    requires n > 0 && -n <= d <= n
    ensures (x * n + d) % n == 0 <==> d == -n || d == 0 || d == n
  {
    MulNext(x, n);
    MulNext(x - 1, n);
    if d < 0 {
      DivModIs(x * n + d, n, x - 1, d + n);
    } else if d < n {
      DivModIs(x * n + d, n, x, d);
    } else {
      DivModIs(x * n + d, n, x + 1, 0);
    }
  }

  lemma LineIndex(lines: int, size: int, i: nat, j: nat)
    requires i < lines && j < size
    ensures 0 <= i * size + j <= lines * size - 1
    ensures i * size + j == 0 <==> i == 0 && j == 0
  {
    MulNext(lines - 1, size);
    MulLe(i, lines - 1, size);
    MulLe(if i == 0 then 0 else 1, i, size);
  }

  lemma MulIndex(rows: int, columns: int, x: int, y: int)
    ensures (x * rows + y) * columns == x * (rows * columns - 1) + (y * columns + x)
  {
    calc {
      (x * rows + y) * columns;
      x * rows * columns + y * columns;
      x * (rows * columns) + y * columns;
      x * (rows * columns - 1) + x + y * columns;
    }
  }

  /** The row-major index of a cell within the extents, from its column-major one. */
  lemma TransposedIndex(rows: int, columns: int, x: nat, y: nat)
    requires x < columns && y < rows
    ensures var last, index := rows * columns - 1, y * columns + x;
      0 <= index <= last && x * rows + y <= last && (x * rows + y) * columns == x * last + index
    ensures y * columns + x == 0 <==> x * rows + y == 0
  {
    LineIndex(columns, rows, x, y);
    LineIndex(rows, columns, y, x);
    MulIndex(rows, columns, x, y);
  }

  lemma TransposedCell(rows: int, columns: int, r: nat, k: nat)
    requires rows > 0 && columns > 0
    ensures GtkCell(rows, columns, r) == QtCell(rows, columns, k) <==>
      r / rows < columns && r % rows * columns + r / rows == k
  {
    Euclid(k, columns);
    var x, y := r / rows, r % rows;
    if x < columns && y * columns + x == k {
      DivModIs(k, columns, y, x);
    }
  }

  lemma Transposed(rows: int, columns: int, r: nat, k: nat)
    requires rows > 0 && columns > 0
    ensures GtkCell(rows, columns, r) == QtCell(rows, columns, k) <==> Alike(rows, columns, r, k)
  {
    var x, y, last := r / rows, r % rows, rows * columns - 1;
    TransposedCell(rows, columns, r, k);
    hide GtkCell, QtCell;
    Euclid(r, rows);
    if x >= columns {
      MulLe(columns, x, rows);
    } else {
      TransposedIndex(rows, columns, x, y);
      if last > 0 && k <= last {
        MultipleNear(x, last, y * columns + x - k);
      }
    }
  }

  lemma NegativeColumns(rows: int, columns: int, r: nat, k: nat)
    requires rows > 0 && columns < 0
    ensures GtkCell(rows, columns, r) == QtCell(rows, columns, k) <==> Alike(rows, columns, r, k)
  {
    SmallDivMod(k, -columns);
    Euclid(r, rows);
    if r == rows * k {
      DivModIs(r, rows, k, 0);
    }
  }

  /** For all extents: the cells of the two backends are the same iff the indices are alike. */
  lemma CellsAlike(rows: int, columns: int, r: nat, k: nat)
    ensures GtkCell(rows, columns, r) == QtCell(rows, columns, k) <==> Alike(rows, columns, r, k)
  {
    if rows > 0 && columns > 0 {
      Transposed(rows, columns, r, k);
    } else if rows > 0 && columns < 0 {
      NegativeColumns(rows, columns, r, k);
    } else if rows > 0 || columns > 0 {
      if GtkCell(rows, columns, r) == QtCell(rows, columns, k) {
        CellsDistinct(rows, columns, r, k);
      }
    } else if columns < 0 {
      Euclid(k, -columns);
    } else if rows < 0 {
      SmallDivMod(k, -rows);
    }
  }

  /** The cursor and Qt's arithmetic put the k-th child into the same cell, with one extent positive, but for negative columns. */
  lemma CursorIsQt(rows: int, columns: int, k: nat)
    requires OnePositive(rows, columns)
    ensures CellOf(rows, columns, k) == QtCell(rows, columns, k) <==>
      columns >= 0 || k == 0 || (rows == 1 && k < -columns)
  {
    CursorIsClosedForm(rows, columns, k);
    CellsAlike(rows, columns, k, k);
    NoFewer(rows, columns, k, k);
  }

  /** With one extent positive, a rank alike to an index is that index. */
  lemma NoFewer(rows: int, columns: int, r: nat, k: nat)
    requires OnePositive(rows, columns) && r <= k
    ensures Alike(rows, columns, r, k) <==> r == k && (columns >= 0 || k == 0 || (rows == 1 && k < -columns))
  {
    if rows > 1 && columns < 0 {
      MulLe(2, rows, k);
    }
  }

  /** No two children share a cell. */
  lemma CellsDistinct(rows: int, columns: int, j: nat, k: nat)
    requires GtkCell(rows, columns, j) == GtkCell(rows, columns, k)
    ensures j == k
  {
    if rows > 0 {
      Euclid(j, rows);
      Euclid(k, rows);
    } else if columns > 0 {
      Euclid(j, columns);
      Euclid(k, columns);
    }
  }

  /** The growing extent after k children is the number of lines begun, and at least one. */
  lemma GrowingExtent(rows: int, columns: int, k: nat)
    requires rows > 0 || columns > 0
    ensures var c := CursorAfter(rows, columns, k);
      && (rows > 0 ==> c.allocatedRows == rows && c.allocatedColumns == if k == 0 then 1 else (k + rows - 1) / rows)
      && (rows <= 0 ==> c.allocatedColumns == columns && c.allocatedRows == if k == 0 then 1 else (k + columns - 1) / columns)
  {
    CursorReaches(rows, columns, k);
    if k > 0 {
      LinesBegun(k, if rows > 0 then rows else columns);
    }
  }

  lemma LinesBegun(k: nat, n: int)
    requires k > 0 && n > 0
    ensures (k + n - 1) / n == (k - 1) / n + 1
  {
    var q, r := (k - 1) / n, (k - 1) % n;
    Euclid(k - 1, n);
    MulNext(q, n);
    DivModIs(k + n - 1, n, q + 1, r);
  }

  /** The next child: its cell has the closed form, and it fits the extents behind the move iff one of them is positive. */
  lemma GridStep(rows: int, columns: int, k: nat)
    ensures Place(CursorAfter(rows, columns, k)) == (GtkCell(rows, columns, k), CursorAfter(rows, columns, k + 1))
    ensures Fits(GtkCell(rows, columns, k), CursorAfter(rows, columns, k + 1)) <==> rows > 0 || columns > 0
  {
    hide Reached, Place, GtkCell, Fits;
    CursorIsClosedForm(rows, columns, k);
    CursorReaches(rows, columns, k + 1);
    CellFits(CursorAfter(rows, columns, k + 1), rows, columns, k);
  }

  ghost predicate Fits(cell: Cell, c: Cursor) {
    0 <= cell.x < c.allocatedColumns && 0 <= cell.y < c.allocatedRows
  }

  lemma CellFits(c: Cursor, rows: int, columns: int, k: nat)
    requires Reached(c, rows, columns, k + 1)
    ensures Fits(GtkCell(rows, columns, k), c) <==> rows > 0 || columns > 0
  {
    if rows > 0 {
      Euclid(k, rows);
    } else if columns > 0 {
      Euclid(k, columns);
    }
  }

  // ---------- the GTK2 table ----------

  /** The GTK2 grid widget, with the size of its table and the cells its children were attached to. */
  class Gtk2Grid {
    const rows: int
    const columns: int
    var sortByRow: bool
    var allocatedRows: int
    var allocatedColumns: int
    var currentRow: int
    var currentColumn: int
    var tableRows: int
    var tableColumns: int
    var attached: seq<Cell>

    ghost function State(): Cursor
      reads this
    {
      Cursor(sortByRow, allocatedRows, allocatedColumns, currentRow, currentColumn)
    }

    ghost predicate Valid()
      reads this
    {
      && State() == CursorAfter(rows, columns, |attached|)
      && tableRows == allocatedRows && tableColumns == allocatedColumns
      && forall k :: 0 <= k < |attached| ==> attached[k] == GtkCell(rows, columns, k)
    }

    constructor Setup(rows: int, columns: int)
      ensures Valid() && this.rows == rows && this.columns == columns && attached == []
    {
      this.rows, this.columns := rows, columns;
      if rows > 0 {
        sortByRow, allocatedRows, allocatedColumns := true, rows, 1;
      } else {
        sortByRow, allocatedRows, allocatedColumns := false, 1, columns;
      }
      currentRow, currentColumn, attached := 0, 0, [];
      new;
      tableRows, tableColumns := allocatedRows, allocatedColumns;
    }

    /** Advance the cursor and resize the table if the growing extent grows. */
    method MoveCursor() returns (cell: Cell)
      requires tableRows == allocatedRows && tableColumns == allocatedColumns
      modifies this
      ensures (cell, State()) == Place(old(State())) && attached == old(attached)
      ensures tableRows == allocatedRows && tableColumns == allocatedColumns
    {
      var x, y;
      if sortByRow {
        y := currentRow;
        currentRow := currentRow + 1;
        if y >= allocatedRows {
          currentRow := 0;
          y := currentRow;
          currentRow := currentRow + 1;
          currentColumn := currentColumn + 1;
        }
        x := currentColumn;
        if x >= allocatedColumns {
          allocatedColumns := x + 1;
          tableRows, tableColumns := allocatedRows, allocatedColumns;
        }
      } else {
        x := currentColumn;
        currentColumn := currentColumn + 1;
        if x >= allocatedColumns {
          currentColumn := 0;
          x := currentColumn;
          currentColumn := currentColumn + 1;
          currentRow := currentRow + 1;
        }
        y := currentRow;
        if y >= allocatedRows {
          allocatedRows := y + 1;
          tableRows, tableColumns := allocatedRows, allocatedColumns;
        }
      }
      cell := Cell(x, y);
    }

    /** The child is attached where the cursor says; that is inside the table as last resized iff an extent is positive. */
    method AddChild() returns (cell: Cell)
      requires Valid()
      modifies this
      ensures Valid() && attached == old(attached) + [cell]
      ensures cell == GtkCell(rows, columns, |old(attached)|)
      ensures (0 <= cell.x && cell.x + 1 <= tableColumns && 0 <= cell.y && cell.y + 1 <= tableRows) <==> rows > 0 || columns > 0
    {
      hide CursorAfter, GtkCell, Place;
      GridStep(rows, columns, |attached|);
      cell := MoveCursor();
      attached := attached + [cell];
    }
  }

  // ---------- the Qt grid ----------

  /** addChildGuiWidget of Qt: count the siblings up to the child, then divide. A child that is not there gets no cell. */
  method QtAddChild<T(==)>(children: seq<T>, child: T, rows: int, columns: int) returns (idx: nat, cell: Option<Cell>)
    ensures idx <= |children| && child !in children[..idx]
    ensures idx < |children| <==> child in children
    ensures idx < |children| ==> children[idx] == child
    ensures cell == if child in children then Some(QtCell(rows, columns, idx)) else None
    ensures child in children && columns != 0 ==> cell == Some(Cell(ModT(idx, columns), DivT(idx, columns)))
    ensures child in children && columns == 0 && rows != 0 ==> cell == Some(Cell(DivT(idx, rows), ModT(idx, rows)))
    ensures child in children && columns == 0 && rows == 0 ==> cell == Some(Cell(0, 0))
    ensures forall r: nat :: cell == Some(GtkCell(rows, columns, r)) <==> child in children && Alike(rows, columns, r, idx)
  {
    idx := 0;
    while idx < |children| && children[idx] != child
      invariant idx <= |children| && child !in children[..idx]
    {
      idx := idx + 1;
    }
    if idx == |children| {
      cell := None;
    } else {
      var x, y := 0, 0;
      if columns != 0 {
        x, y := ModT(idx, columns), DivT(idx, columns);
      } else if rows != 0 {
        x, y := DivT(idx, rows), ModT(idx, rows);
      }
      cell := Some(Cell(x, y));
      forall r: nat ensures GtkCell(rows, columns, r) == Cell(x, y) <==> Alike(rows, columns, r, idx) {
        CellsAlike(rows, columns, r, idx);
      }
    }
  }
}
