/** Button positions: signed row/column indices from the configuration,
    stored as distances from a border and resolved against a device grid
    into a flat slot index. Slots are numbered row by row, and within a row
    from right to left, so the column axis is mirrored. */
module Position {
  import opened Ints
  import opened Device

  datatype PositionFromBorder = FromStart(n: u8) | FromEnd(n: u8)

  /** `ButtonPositionConfig`: row and column as `i32`, negative counting from the far edge. */
  datatype ButtonPositionConfig = ButtonPositionConfig(row: int, col: int)

  datatype ButtonPosition = ButtonPosition(col: PositionFromBorder, row: PositionFromBorder)

  predicate ConfigInRange(c: ButtonPositionConfig) {
    IsI32(c.row) && IsI32(c.col)
  }

  /** `PositionFromBorder::from_array_index`: negative indices count from the
      end (-1 is the last), the rest from the start; the `as u8` cast keeps the
      low eight bits. At `i32::MIN`, `-index - 1` overflows; the model takes
      the release build's wrapped value `i32::MAX`, whose low byte is 255. */
  function FromArrayIndex(index: int): (p: PositionFromBorder)
    requires IsI32(index)
    ensures index < 0 <==> p.FromEnd?
    ensures -0x100 <= index < 0 ==> p == FromEnd((-index - 1) as u8)
    ensures 0 <= index < 0x100 ==> p == FromStart(index as u8)
    ensures index == -0x8000_0000 ==> p == FromEnd(0xFF)
  {
    if index < 0 then FromEnd(TruncateU8(-index - 1)) else FromStart(TruncateU8(index))
  }

  /** The signed index a border position stands for. */
  function ToArrayIndex(p: PositionFromBorder): int {
    match p
    case FromStart(n) => n as int
    case FromEnd(n) => -(n as int) - 1
  }

  /** Inside the range the cast does not truncate, `from_array_index` and
      `ToArrayIndex` are inverse. */
  lemma ArrayIndexRoundTrip(index: int, p: PositionFromBorder)
    requires -0x100 <= index < 0x100
    ensures ToArrayIndex(FromArrayIndex(index)) == index
    ensures FromArrayIndex(ToArrayIndex(p)) == p
  {
  }

  /** Outside that range the cast wraps: 256 reads as 0 and -257 as -1. */
  lemma ArrayIndexTruncates()
    ensures FromArrayIndex(0x100) == FromArrayIndex(0)
    ensures FromArrayIndex(-0x101) == FromArrayIndex(-1)
  {
  }

  /** `ButtonPosition::from_config`. */
  function FromConfig(c: ButtonPositionConfig): (p: ButtonPosition)
    requires ConfigInRange(c)
    ensures p.row == FromArrayIndex(c.row) && p.col == FromArrayIndex(c.col)
  {
    ButtonPosition(FromArrayIndex(c.col), FromArrayIndex(c.row))
  }

  /** `min(n - 1, max(0, v))`. */
  function Clamp(v: int, n: nat): (r: nat)
    requires n >= 1
    ensures r < n
    ensures 0 <= v < n ==> r == v
    ensures v < 0 ==> r == 0
    ensures v >= n ==> r == n - 1
  {
    if v < 0 then 0 else if v >= n then n - 1 else v
  }

  /** Row counted from the top, before clamping. */
  function UnclampedRow(row: PositionFromBorder, rows: nat): int {
    match row
    case FromStart(r) => r as int
    case FromEnd(r) => rows - (r as int + 1)
  }

  /** Column counted from the right edge, before clamping. */
  function UnclampedCol(col: PositionFromBorder, cols: nat): int {
    match col
    case FromStart(c) => cols - (c as int + 1)
    case FromEnd(c) => c as int
  }

  /** `ButtonPosition::to_button_index` with `n + 1` computed without
      overflow: the resolved row and column are clamped to the grid and the
      flat index is `col + row * cols`. */
  function ToButtonIndex(p: ButtonPosition, device: Device): (i: nat)
    requires device.Valid()
    ensures i < device.TotalButtons()
    ensures i / device.cols == Clamp(UnclampedRow(p.row, device.rows), device.rows)
    ensures i % device.cols == Clamp(UnclampedCol(p.col, device.cols), device.cols)
  {
    var row := Clamp(UnclampedRow(p.row, device.rows), device.rows);
    var col := Clamp(UnclampedCol(p.col, device.cols), device.cols);
    FlatIndex(row, col, device);
    col + row * device.cols
  }

  lemma FlatIndex(row: nat, col: nat, device: Device)
    requires device.Valid() && row < device.rows && col < device.cols
    ensures col + row * device.cols < device.TotalButtons()
    ensures (col + row * device.cols) / device.cols == row
    ensures (col + row * device.cols) % device.cols == col
  {
    MulLess(row, device.rows, device.cols);
    DivModUnique(col + row * device.cols, row, col, device.cols);
  }

  /** `row < rows` leaves room for a whole row below `rows * cols`. */
  lemma MulLess(row: nat, rows: nat, cols: nat)
    requires row < rows
    ensures row * cols + cols <= rows * cols
  {
    var k := rows - row - 1;
    assert rows * cols == row * cols + cols + k * cols;
  }

  lemma MulMonotone(a: nat, b: nat, c: nat)
    requires a <= b
    ensures a * c <= b * c
  {
  }

  /** The row (from the top) and column (from the right edge) of slot `i`. */
  function Coordinates(i: nat, device: Device): (rc: (nat, nat))
    requires device.Valid() && i < device.TotalButtons() && device.TotalButtons() <= 0x100
    ensures rc.0 < device.rows && rc.1 < device.cols && rc.0 < 0x100 && rc.1 < 0x100
    ensures i == rc.1 + rc.0 * device.cols
  {
    var row, col := i / device.cols, i % device.cols;
    assert row < device.rows by {
      if row >= device.rows {
        MulMonotone(device.rows, row, device.cols);
      }
    }
    MulMonotone(1, device.rows, device.cols);
    (row, col)
  }

  /** A row counted from the top and a column counted from the right edge
      address the slot `col + row * cols` directly. */
  lemma SlotOfCoordinates(row: nat, col: nat, device: Device)
    requires device.Valid() && row < device.rows && col < device.cols && row < 0x100 && col < 0x100
    ensures ToButtonIndex(ButtonPosition(FromEnd(col as u8), FromStart(row as u8)), device) == col + row * device.cols
  {
    var j := ToButtonIndex(ButtonPosition(FromEnd(col as u8), FromStart(row as u8)), device);
    FlatIndex(row, col, device);
    assert j == (j / device.cols) * device.cols + j % device.cols;
  }

  /** Every slot is reachable: counting rows from the top and columns from
      the right edge addresses slot `i` directly. */
  lemma EverySlotAddressable(i: nat, device: Device)
    requires device.Valid() && i < device.TotalButtons() && device.TotalButtons() <= 0x100
    ensures var (row, col) := Coordinates(i, device);
      ToButtonIndex(ButtonPosition(FromEnd(col as u8), FromStart(row as u8)), device) == i
  {
    var (row, col) := Coordinates(i, device);
    SlotOfCoordinates(row, col, device);
  }

  /** Row 0, column -1 (top right) is slot 0 on every device. */
  lemma TopRightIsFirst(device: Device)
    requires device.Valid()
    ensures ToButtonIndex(FromConfig(ButtonPositionConfig(0, -1)), device) == 0
  {
  }

  /** Row -1, column 0 (bottom left) is the last slot on every device. */
  lemma BottomLeftIsLast(device: Device)
    requires device.Valid()
    ensures ToButtonIndex(FromConfig(ButtonPositionConfig(-1, 0)), device) == device.TotalButtons() - 1
  {
    var i := ToButtonIndex(FromConfig(ButtonPositionConfig(-1, 0)), device);
    assert i == (device.cols - 1) + (device.rows - 1) * device.cols;
  }

  /** Row 0, column 0 (top left) is slot `cols - 1`. */
  lemma TopLeftIsLastOfFirstRow(device: Device)
    requires device.Valid()
    ensures ToButtonIndex(FromConfig(ButtonPositionConfig(0, 0)), device) == device.cols - 1
  {
  }

  /** Row -1, column -1 (bottom right) is slot `total - cols`. */
  lemma BottomRightIsFirstOfLastRow(device: Device)
    requires device.Valid()
    ensures ToButtonIndex(FromConfig(ButtonPositionConfig(-1, -1)), device) == device.TotalButtons() - device.cols
  {
    var i := ToButtonIndex(FromConfig(ButtonPositionConfig(-1, -1)), device);
    assert i == (device.rows - 1) * device.cols;
  }

  /** The further from the bottom edge a `FromEnd` row counts, the higher it
      lands (never lower); the same holds for columns counted from the start. */
  lemma IndexMonotoneInDistance(m: u8, n: u8, rows: nat, cols: nat)
    requires rows >= 1 && cols >= 1 && m <= n
    ensures Clamp(UnclampedRow(FromEnd(n), rows), rows) <= Clamp(UnclampedRow(FromEnd(m), rows), rows)
    ensures Clamp(UnclampedCol(FromStart(n), cols), cols) <= Clamp(UnclampedCol(FromStart(m), cols), cols)
  {
  }

  // ---------------------------------------------------------------------
  // The index computation as written: `(neg_row + 1)` and `(col + 1)` are
  // computed in `u8`, which overflows at 255 (a panic in debug builds,
  // wrap-around to 0 in release builds, modelled here).
  // ---------------------------------------------------------------------

  function UnclampedRowAsWritten(row: PositionFromBorder, rows: nat): int {
    match row
    case FromStart(r) => r as int
    case FromEnd(r) => rows - ((r as int + 1) % 0x100)
  }

  function UnclampedColAsWritten(col: PositionFromBorder, cols: nat): int {
    match col
    case FromStart(c) => cols - ((c as int + 1) % 0x100)
    case FromEnd(c) => c as int
  }

  function ToButtonIndexAsWritten(p: ButtonPosition, device: Device): (i: nat)
    requires device.Valid()
    ensures i < device.TotalButtons()
    ensures i / device.cols == Clamp(UnclampedRowAsWritten(p.row, device.rows), device.rows)
    ensures i % device.cols == Clamp(UnclampedColAsWritten(p.col, device.cols), device.cols)
  {
    var row := Clamp(UnclampedRowAsWritten(p.row, device.rows), device.rows);
    var col := Clamp(UnclampedColAsWritten(p.col, device.cols), device.cols);
    FlatIndex(row, col, device);
    col + row * device.cols
  }

  /** Both computations agree except where `n + 1` overflows. */
  lemma AsWrittenAgreesBelow255(p: ButtonPosition, device: Device)
    requires device.Valid() && p.row.n < 0xFF && p.col.n < 0xFF
    ensures ToButtonIndexAsWritten(p, device) == ToButtonIndex(p, device)
  {
  }

  /** On the standard 3x5 device, row -256 (one past row -255, which clamps
      to the top) lands on the bottom row as written instead of the top. */
  lemma AsWrittenOverflowBreaksClamp()
    ensures var device := Device(3, 5, 72, 72);
      && ToButtonIndexAsWritten(FromConfig(ButtonPositionConfig(-0xFF, -1)), device) == 0
      && ToButtonIndexAsWritten(FromConfig(ButtonPositionConfig(-0x100, -1)), device) == 10
      && ToButtonIndex(FromConfig(ButtonPositionConfig(-0x100, -1)), device) == 0
  {
  }
}
