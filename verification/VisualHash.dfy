/** The difference hash over the averages of 9 x 8 cells. */
module VisualHash {
  import opened Wrappers

  const COLUMNS := 9
  const ROWS := 8
  const MAX_PIXELS := 24_000_000
  const UINT64 := 0x1_0000_0000_0000_0000

  type Channel = c: int | 0 <= c < 0x1_0000

  datatype Pixel = Pixel(r: Channel, g: Channel, b: Channel, a: Channel)

  datatype Image = Image(width: int, height: int, at: (int, int) -> Pixel)

  predicate Hashable(img: Image) {
    img.width >= COLUMNS && img.height >= ROWS && img.width <= MAX_PIXELS / img.height
  }

  /** Thousand times the grey value, composited over white. */
  function Grey(p: Pixel): (v: nat)
    ensures v <= MAX_GREY
  {
    var white: int := 0xFFFF - p.a;
    299 * (p.r + white) + 587 * (p.g + white) + 114 * (p.b + white)
  }

  const MAX_GREY := 1000 * 0x1_FFFE

  /** Which cell a coordinate falls into. */
  type Axis = int -> int

  function AxisOf(cells: int, size: int): Axis {
    i => if size > 0 then i * cells / size else 0
  }

  ghost predicate Covers(axis: Axis, cells: int, size: int) {
    && (forall i | 0 <= i < size :: 0 <= axis(i) < cells)
    && (forall cell | 0 <= cell < cells :: Hit(axis, size, cell))
  }

  ghost predicate Hit(axis: Axis, size: int, cell: int) {
    exists i :: 0 <= i < size && axis(i) == cell
  }

  lemma QuotientIs(n: int, d: int, q: int)
    requires d > 0 && q * d <= n < q * d + d
    ensures n / d == q
  {
    var p := n / d;
    assert p > q ==> p * d >= (q + 1) * d;
    assert p < q ==> (p + 1) * d <= q * d;
  }

  lemma CellInRange(i: int, cells: int, size: int)
    requires 0 <= i < size && cells > 0
    ensures 0 <= i * cells / size < cells
  {
    var q := i * cells / size;
    assert i * cells < size * cells;
    assert q * size <= i * cells;
    assert q >= cells ==> q * size >= cells * size;
  }

  lemma RoundUp(n: int, d: int) returns (i: int)
    requires n >= 0 && d > 0
    ensures i >= 0 && n <= i * d <= n + d - 1
  {
    i := (n + d - 1) / d;
    var r := (n + d - 1) % d;
    assert i * d + r == n + d - 1;
  }

  lemma Monotone(a: int, b: int, c: int)
    requires a <= b && c >= 0
    ensures a * c <= b * c
  {
  }

  lemma CellIsHit(cell: int, cells: int, size: int) returns (i: int)
    requires 0 <= cell < cells <= size
    ensures 0 <= i < size && i * cells / size == cell
  {
    var start, end := cell * size, cells * size;
    Monotone(0, cell, size);
    Monotone(cell + 1, cells, size);
    assert (cell + 1) * size == start + size;
    i := RoundUp(start, cells);
    if i >= size {
      Monotone(size, i, cells);
      assert false;
    }
    QuotientIs(i * cells, size, cell);
  }

  /** An axis of at least as many pixels as cells leaves no cell empty. */
  lemma AxisCovers(cells: int, size: int)
    requires 0 < cells <= size
    ensures Covers(AxisOf(cells, size), cells, size)
  {
    var axis := AxisOf(cells, size);
    forall i | 0 <= i < size ensures 0 <= axis(i) < cells {
      CellInRange(i, cells, size);
    }
    forall cell | 0 <= cell < cells ensures Hit(axis, size, cell) {
      var i := CellIsHit(cell, cells, size);
      assert axis(i) == cell;
    }
  }

  type Weight = (int, int) -> nat

  /** The weight of a row's first x pixels that fall into a column of cells. */
  function RowTotal(f: Weight, column: Axis, y: int, x: nat, gx: int): nat {
    if x == 0 then 0 else RowTotal(f, column, y, x - 1, gx) + if column(x - 1) == gx then f(x - 1, y) else 0
  }

  /** The same over the first y rows and one cell. */
  function CellTotal(f: Weight, column: Axis, row: Axis, width: nat, y: nat, gy: int, gx: int): nat {
    if y == 0 then 0
    else CellTotal(f, column, row, width, y - 1, gy, gx)
         + if row(y - 1) == gy then RowTotal(f, column, y - 1, width, gx) else 0
  }

  function One(): Weight {
    (x, y) => 1
  }

  function GreyAt(img: Image): Weight {
    (x, y) => Grey(img.at(x, y))
  }

  /** The sum over the pixels of one cell of the whole image. */
  function Total(f: Weight, img: Image, gy: int, gx: int): nat
    requires Hashable(img)
  {
    CellTotal(f, AxisOf(COLUMNS, img.width), AxisOf(ROWS, img.height), img.width, img.height, gy, gx)
  }

  lemma {:induction false} RowTotalGrows(f: Weight, column: Axis, y: int, x: nat, x': nat, gx: int)
    requires x <= x'
    ensures RowTotal(f, column, y, x, gx) <= RowTotal(f, column, y, x', gx)
    decreases x'
  {
    if x < x' {
      RowTotalGrows(f, column, y, x, x' - 1, gx);
    }
  }

  lemma {:induction false} CellTotalGrows(f: Weight, column: Axis, row: Axis, width: nat, y: nat, y': nat, gy: int, gx: int)
    requires y <= y'
    ensures CellTotal(f, column, row, width, y, gy, gx) <= CellTotal(f, column, row, width, y', gy, gx)
    decreases y'
  {
    if y < y' {
      CellTotalGrows(f, column, row, width, y, y' - 1, gy, gx);
    }
  }

  lemma CoveredCellCounts(column: Axis, row: Axis, width: nat, height: nat, cols: int, rows: int, gy: int, gx: int)
    requires Covers(column, cols, width) && Covers(row, rows, height)
    requires 0 <= gy < rows && 0 <= gx < cols
    ensures CellTotal(One(), column, row, width, height, gy, gx) >= 1
  {
    assert Hit(column, width, gx) && Hit(row, height, gy);
    var x :| 0 <= x < width && column(x) == gx;
    var y :| 0 <= y < height && row(y) == gy;
    RowTotalGrows(One(), column, y, x + 1, width, gx);
    CellTotalGrows(One(), column, row, width, y + 1, height, gy, gx);
  }

  /** NO DIVISION BY ZERO. Every cell of an accepted image receives a pixel. */
  lemma EveryCellCounts(img: Image, gy: int, gx: int)
    requires Hashable(img) && 0 <= gy < ROWS && 0 <= gx < COLUMNS
    ensures Total(One(), img, gy, gx) >= 1
  {
    AxisCovers(COLUMNS, img.width);
    AxisCovers(ROWS, img.height);
    CoveredCellCounts(AxisOf(COLUMNS, img.width), AxisOf(ROWS, img.height), img.width, img.height, COLUMNS, ROWS, gy, gx);
  }

  /** The counts of one row of pixels, over the first n columns of cells. */
  function RowCount(column: Axis, y: int, x: nat, n: nat): nat {
    if n == 0 then 0 else RowCount(column, y, x, n - 1) + RowTotal(One(), column, y, x, n - 1)
  }

  lemma {:induction false} OneMorePixel(column: Axis, y: int, x: nat, n: nat)
    requires column(x) >= 0
    ensures RowCount(column, y, x + 1, n) == RowCount(column, y, x, n) + if column(x) < n then 1 else 0
    decreases n
  {
    if n > 0 {
      OneMorePixel(column, y, x, n - 1);
    }
  }

  lemma {:induction false} NoPixels(column: Axis, y: int, n: nat)
    ensures RowCount(column, y, 0, n) == 0
  {
    if n > 0 {
      NoPixels(column, y, n - 1);
    }
  }

  lemma {:induction false} RowCountsAddUp(column: Axis, y: int, x: nat, n: nat)
    requires forall i | 0 <= i < x :: 0 <= column(i) < n
    ensures RowCount(column, y, x, n) == x
    decreases x
  {
    if x == 0 {
      NoPixels(column, y, n);
    } else {
      RowCountsAddUp(column, y, x - 1, n);
      OneMorePixel(column, y, x - 1, n);
    }
  }

  /** The counts of one row of cells, and of the first rows of cells. */
  function CellRowCount(column: Axis, row: Axis, width: nat, y: nat, gy: int, n: nat): nat {
    if n == 0 then 0
    else CellRowCount(column, row, width, y, gy, n - 1) + CellTotal(One(), column, row, width, y, gy, n - 1)
  }

  function AllCounts(column: Axis, row: Axis, width: nat, y: nat, rows: nat, n: nat): nat {
    if rows == 0 then 0
    else AllCounts(column, row, width, y, rows - 1, n) + CellRowCount(column, row, width, y, rows - 1, n)
  }

  lemma {:induction false} OneMoreRowInCells(column: Axis, row: Axis, width: nat, y: nat, gy: int, n: nat)
    ensures CellRowCount(column, row, width, y + 1, gy, n) ==
            CellRowCount(column, row, width, y, gy, n) + if row(y) == gy then RowCount(column, y, width, n) else 0
    decreases n
  {
    if n > 0 {
      OneMoreRowInCells(column, row, width, y, gy, n - 1);
    }
  }

  lemma {:induction false} OneMoreRow(column: Axis, row: Axis, width: nat, y: nat, rows: nat, n: nat)
    requires row(y) >= 0 && forall i | 0 <= i < width :: 0 <= column(i) < n
    ensures AllCounts(column, row, width, y + 1, rows, n) ==
            AllCounts(column, row, width, y, rows, n) + if row(y) < rows then width else 0
    decreases rows
  {
    if rows > 0 {
      OneMoreRow(column, row, width, y, rows - 1, n);
      OneMoreRowInCells(column, row, width, y, rows - 1, n);
      RowCountsAddUp(column, y, width, n);
    }
  }

  lemma {:induction false} NoRows(column: Axis, row: Axis, width: nat, rows: nat, n: nat)
    ensures AllCounts(column, row, width, 0, rows, n) == 0
    decreases rows
  {
    if rows > 0 {
      NoRows(column, row, width, rows - 1, n);
      NoRowOfCells(column, row, width, rows - 1, n);
    }
  }

  lemma {:induction false} NoRowOfCells(column: Axis, row: Axis, width: nat, gy: int, n: nat)
    ensures CellRowCount(column, row, width, 0, gy, n) == 0
    decreases n
  {
    if n > 0 {
      NoRowOfCells(column, row, width, gy, n - 1);
    }
  }

  /** CONSERVATION. The counts of all cells add up to the pixels seen. */
  lemma {:induction false} CountsAddUp(column: Axis, row: Axis, width: nat, y: nat, rows: nat, n: nat)
    requires forall i | 0 <= i < width :: 0 <= column(i) < n
    requires forall i | 0 <= i < y :: 0 <= row(i) < rows
    ensures AllCounts(column, row, width, y, rows, n) == width * y
    decreases y
  {
    if y == 0 {
      NoRows(column, row, width, rows, n);
    } else {
      CountsAddUp(column, row, width, y - 1, rows, n);
      OneMoreRow(column, row, width, y - 1, rows, n);
      assert width * (y - 1) + width == width * y;
    }
  }

  /** No pixel of an accepted image is lost or counted twice. */
  lemma ImageCountsAddUp(img: Image)
    requires Hashable(img)
    ensures AllCounts(AxisOf(COLUMNS, img.width), AxisOf(ROWS, img.height), img.width, img.height, ROWS, COLUMNS)
         == img.width * img.height
  {
    AxisCovers(COLUMNS, img.width);
    AxisCovers(ROWS, img.height);
    CountsAddUp(AxisOf(COLUMNS, img.width), AxisOf(ROWS, img.height), img.width, img.height, ROWS, COLUMNS);
  }

  lemma {:induction false} RowSumBounded(f: Weight, column: Axis, y: int, x: nat, gx: int, most: nat)
    requires forall i, j :: f(i, j) <= most
    ensures RowTotal(f, column, y, x, gx) <= most * x
    decreases x
  {
    if x > 0 {
      RowSumBounded(f, column, y, x - 1, gx, most);
      assert most * (x - 1) + most == most * x;
    }
  }

  lemma {:induction false} SumBounded(f: Weight, column: Axis, row: Axis, width: nat, y: nat, gy: int, gx: int, most: nat)
    requires forall i, j :: f(i, j) <= most
    ensures CellTotal(f, column, row, width, y, gy, gx) <= most * width * y
    decreases y
  {
    if y > 0 {
      SumBounded(f, column, row, width, y - 1, gy, gx, most);
      RowSumBounded(f, column, y - 1, width, gx, most);
      assert most * width * (y - 1) + most * width == most * width * y;
    }
  }

  lemma PixelsBounded(img: Image)
    requires Hashable(img)
    ensures img.width * img.height <= MAX_PIXELS
  {
    var q := MAX_PIXELS / img.height;
    assert q * img.height <= MAX_PIXELS;
    assert img.width * img.height <= q * img.height;
  }

  /** NO OVERFLOW. Every intermediate sum fits in 64 bits. */
  lemma SumsFit(img: Image, y: nat, x: nat, gy: int, gx: int)
    requires Hashable(img) && y < img.height && x < img.width
    ensures
      var column, row := AxisOf(COLUMNS, img.width), AxisOf(ROWS, img.height);
      CellTotal(GreyAt(img), column, row, img.width, y, gy, gx) + RowTotal(GreyAt(img), column, y, x, gx) + MAX_GREY < UINT64
  {
    var column, row := AxisOf(COLUMNS, img.width), AxisOf(ROWS, img.height);
    var f := GreyAt(img);
    forall i, j ensures f(i, j) <= MAX_GREY {
      assert f(i, j) == Grey(img.at(i, j));
    }
    SumBounded(f, column, row, img.width, y, gy, gx, MAX_GREY);
    RowSumBounded(f, column, y, x, gx, MAX_GREY);
    PixelsBounded(img);
    Areas(MAX_GREY, img.width, img.height, y, x);
  }

  lemma Areas(most: nat, width: nat, height: nat, y: nat, x: nat)
    requires y < height && x < width && width * height <= MAX_PIXELS
    ensures most * width * y + most * x + most <= most * MAX_PIXELS
  {
    var row, done := most * width, width * (y + 1);
    assert row * y + row == row * (y + 1) == most * done;
    Monotone(y + 1, height, width);
    assert done <= width * height;
    Monotone(done, MAX_PIXELS, most);
    Monotone(x + 1, width, most);
    assert most * x + most == (x + 1) * most;
  }

  /** Whether a cell is lighter on average than its right neighbour. */
  predicate Lighter(img: Image, y: int, x: int)
    requires Hashable(img) && 0 <= y < ROWS && 0 <= x < COLUMNS - 1
  {
    EveryCellCounts(img, y, x);
    EveryCellCounts(img, y, x + 1);
    Total(GreyAt(img), img, y, x) / Total(One(), img, y, x) > Total(GreyAt(img), img, y, x + 1) / Total(One(), img, y, x + 1)
  }

  function Pow2(n: nat): (p: nat)
    ensures p >= 1
  {
    if n == 0 then 1 else 2 * Pow2(n - 1)
  }

  /** Bit i of a number, 0 being the lowest. */
  predicate Bit(v: nat, i: nat) {
    (v / Pow2(i)) % 2 == 1
  }

  lemma HalveThenDivide(n: nat, b: nat)
    requires b >= 1
    ensures n / (2 * b) == n / 2 / b
  {
    var p := n / 2;
    var q := p / b;
    var m := q * b;
    assert m <= p < m + b;
    assert q * (2 * b) == 2 * m;
    QuotientIs(n, 2 * b, q);
  }

  lemma ShiftedBit(v: nat, low: nat, i: nat)
    requires low <= 1
    ensures Bit(2 * v + low, i) <==> if i == 0 then low == 1 else Bit(v, i - 1)
  {
    if i > 0 {
      HalveThenDivide(2 * v + low, Pow2(i - 1));
    }
  }

  /** The bits of a hash under construction, first bit highest. */
  ghost predicate Spells(h: nat, bits: seq<bool>) {
    h < Pow2(|bits|) && forall j | 0 <= j < |bits| :: Bit(h, |bits| - 1 - j) <==> bits[j]
  }

  lemma SpellsMore(h: nat, bits: seq<bool>, bit: bool)
    requires Spells(h, bits)
    ensures Spells(2 * h + if bit then 1 else 0, bits + [bit])
  {
    var low, more := if bit then 1 else 0, bits + [bit];
    forall j | 0 <= j < |more| ensures Bit(2 * h + low, |more| - 1 - j) <==> more[j] {
      ShiftedBit(h, low, |more| - 1 - j);
      assert j < |bits| ==> (Bit(h, |bits| - 1 - j) <==> bits[j]);
    }
  }

  /** What an array holds after y rows and x more pixels. */
  ghost predicate Holds(a: array2<int>, f: Weight, column: Axis, row: Axis, width: nat, y: nat, x: nat)
    reads a
    requires a.Length0 == ROWS && a.Length1 == COLUMNS
  {
    forall gy, gx | 0 <= gy < ROWS && 0 <= gx < COLUMNS ::
      a[gy, gx] == CellTotal(f, column, row, width, y, gy, gx) + if row(y) == gy then RowTotal(f, column, y, x, gx) else 0
  }

  ghost predicate Fits(f: Weight, column: Axis, row: Axis, width: nat, height: nat) {
    forall y: nat, x: nat, gy, gx | y < height && x < width ::
      CellTotal(f, column, row, width, y, gy, gx) + RowTotal(f, column, y, x, gx) + f(x, y) < UINT64
  }

  method Add(a: array2<int>, f: Weight, column: Axis, row: Axis, width: nat, height: nat, y: nat, x: nat)
    requires a.Length0 == ROWS && a.Length1 == COLUMNS
    requires y < height && x < width && Fits(f, column, row, width, height) && Holds(a, f, column, row, width, y, x)
    requires 0 <= row(y) < ROWS && 0 <= column(x) < COLUMNS
    modifies a
    ensures Holds(a, f, column, row, width, y, x + 1)
  {
    var gy, gx := row(y), column(x);
    assert CellTotal(f, column, row, width, y, gy, gx) + RowTotal(f, column, y, x, gx) + f(x, y) < UINT64;
    a[gy, gx] := (a[gy, gx] + f(x, y)) % UINT64;
  }

  lemma NextRow(a: array2<int>, f: Weight, column: Axis, row: Axis, width: nat, y: nat)
    requires a.Length0 == ROWS && a.Length1 == COLUMNS && Holds(a, f, column, row, width, y, width)
    ensures Holds(a, f, column, row, width, y + 1, 0)
  {
  }

  lemma Started(a: array2<int>, f: Weight, column: Axis, row: Axis, width: nat)
    requires a.Length0 == ROWS && a.Length1 == COLUMNS
    requires forall gy, gx | 0 <= gy < ROWS && 0 <= gx < COLUMNS :: a[gy, gx] == 0
    ensures Holds(a, f, column, row, width, 0, 0)
  {
  }

  lemma Finished(a: array2<int>, f: Weight, column: Axis, row: Axis, width: nat, height: nat)
    requires a.Length0 == ROWS && a.Length1 == COLUMNS && Holds(a, f, column, row, width, height, 0)
    ensures forall gy, gx | 0 <= gy < ROWS && 0 <= gx < COLUMNS ::
      a[gy, gx] == CellTotal(f, column, row, width, height, gy, gx)
  {
  }

  /** The two nested loops, for any division into cells. */
  method Accumulate(width: nat, height: nat, f: Weight, column: Axis, row: Axis)
    returns (sums: array2<int>, counts: array2<int>)
    requires forall x | 0 <= x < width :: 0 <= column(x) < COLUMNS
    requires forall y | 0 <= y < height :: 0 <= row(y) < ROWS
    requires Fits(f, column, row, width, height) && Fits(One(), column, row, width, height)
    ensures fresh(sums) && fresh(counts)
    ensures sums.Length0 == counts.Length0 == ROWS && sums.Length1 == counts.Length1 == COLUMNS
    ensures forall gy, gx | 0 <= gy < ROWS && 0 <= gx < COLUMNS ::
      && sums[gy, gx] == CellTotal(f, column, row, width, height, gy, gx)
      && counts[gy, gx] == CellTotal(One(), column, row, width, height, gy, gx)
  {
    sums := new int[ROWS, COLUMNS]((_, _) => 0);
    counts := new int[ROWS, COLUMNS]((_, _) => 0);
    Started(sums, f, column, row, width);
    Started(counts, One(), column, row, width);
    for y := 0 to height
      invariant fresh(sums) && fresh(counts) && sums != counts
      invariant Holds(sums, f, column, row, width, y, 0)
      invariant Holds(counts, One(), column, row, width, y, 0)
    {
      for x := 0 to width
        invariant fresh(sums) && fresh(counts) && sums != counts
        invariant Holds(sums, f, column, row, width, y, x)
        invariant Holds(counts, One(), column, row, width, y, x)
      {
        Add(sums, f, column, row, width, height, y, x);
        Add(counts, One(), column, row, width, height, y, x);
      }
      NextRow(sums, f, column, row, width, y);
      NextRow(counts, One(), column, row, width, y);
    }
    Finished(sums, f, column, row, width, height);
    Finished(counts, One(), column, row, width, height);
  }

  lemma CountsFit(img: Image, y: nat, x: nat, gy: int, gx: int)
    requires Hashable(img) && y < img.height && x < img.width
    ensures
      var column, row := AxisOf(COLUMNS, img.width), AxisOf(ROWS, img.height);
      CellTotal(One(), column, row, img.width, y, gy, gx) + RowTotal(One(), column, y, x, gx) + 1 < UINT64
  {
    var column, row := AxisOf(COLUMNS, img.width), AxisOf(ROWS, img.height);
    SumBounded(One(), column, row, img.width, y, gy, gx, 1);
    RowSumBounded(One(), column, y, x, gx, 1);
    PixelsBounded(img);
    Areas(1, img.width, img.height, y, x);
  }

  lemma AllFits(img: Image)
    requires Hashable(img)
    ensures Fits(GreyAt(img), AxisOf(COLUMNS, img.width), AxisOf(ROWS, img.height), img.width, img.height)
    ensures Fits(One(), AxisOf(COLUMNS, img.width), AxisOf(ROWS, img.height), img.width, img.height)
  {
    var column, row := AxisOf(COLUMNS, img.width), AxisOf(ROWS, img.height);
    forall y: nat, x: nat, gy, gx | y < img.height && x < img.width
      ensures CellTotal(GreyAt(img), column, row, img.width, y, gy, gx)
              + RowTotal(GreyAt(img), column, y, x, gx) + GreyAt(img)(x, y) < UINT64
    {
      SumsFit(img, y, x, gy, gx);
      assert GreyAt(img)(x, y) == Grey(img.at(x, y));
    }
    forall y: nat, x: nat, gy, gx | y < img.height && x < img.width
      ensures CellTotal(One(), column, row, img.width, y, gy, gx)
              + RowTotal(One(), column, y, x, gx) + One()(x, y) < UINT64
    {
      CountsFit(img, y, x, gy, gx);
    }
  }

  /** The comparison of cell (y, x) with its right neighbour. */
  predicate Brighter(sums: array2<int>, counts: array2<int>, y: int, x: int)
    requires sums.Length0 == counts.Length0 == ROWS && sums.Length1 == counts.Length1 == COLUMNS
    requires 0 <= y < ROWS && 0 <= x < COLUMNS - 1 && counts[y, x] >= 1 && counts[y, x + 1] >= 1
    reads sums, counts
  {
    sums[y, x] / counts[y, x] > sums[y, x + 1] / counts[y, x + 1]
  }

  /** The first bits are the comparisons in reading order. */
  ghost predicate BitsOf(bits: seq<bool>, sums: array2<int>, counts: array2<int>)
    requires sums.Length0 == counts.Length0 == ROWS && sums.Length1 == counts.Length1 == COLUMNS
    requires forall gy, gx | 0 <= gy < ROWS && 0 <= gx < COLUMNS :: counts[gy, gx] >= 1
    reads sums, counts
  {
    forall y, x | 0 <= y < ROWS && 0 <= x < COLUMNS - 1 && 8 * y + x < |bits| ::
      bits[8 * y + x] <==> Brighter(sums, counts, y, x)
  }

  lemma MoreBits(bits: seq<bool>, sums: array2<int>, counts: array2<int>, row: int, column: int)
    requires sums.Length0 == counts.Length0 == ROWS && sums.Length1 == counts.Length1 == COLUMNS
    requires forall gy, gx | 0 <= gy < ROWS && 0 <= gx < COLUMNS :: counts[gy, gx] >= 1
    requires BitsOf(bits, sums, counts)
    requires 0 <= row < ROWS && 0 <= column < COLUMNS - 1 && |bits| == 8 * row + column
    ensures BitsOf(bits + [Brighter(sums, counts, row, column)], sums, counts)
  {
    var more := bits + [Brighter(sums, counts, row, column)];
    forall y, x | 0 <= y < ROWS && 0 <= x < COLUMNS - 1 && 8 * y + x < |more|
      ensures more[8 * y + x] <==> Brighter(sums, counts, y, x)
    {
      if 8 * y + x == |bits| {
        assert y == row && x == column;
      } else {
        assert more[8 * y + x] == bits[8 * y + x];
      }
    }
  }

  /** The 64 shifts. */
  method PackBits(sums: array2<int>, counts: array2<int>) returns (h: nat)
    requires sums.Length0 == counts.Length0 == ROWS && sums.Length1 == counts.Length1 == COLUMNS
    requires forall gy, gx | 0 <= gy < ROWS && 0 <= gx < COLUMNS :: counts[gy, gx] >= 1
    ensures h < Pow2(64)
    ensures forall y, x | 0 <= y < ROWS && 0 <= x < COLUMNS - 1 ::
      Bit(h, 63 - 8 * y - x) <==> Brighter(sums, counts, y, x)
  {
    h := 0;
    ghost var bits: seq<bool> := [];
    for row := 0 to ROWS
      invariant |bits| == 8 * row && Spells(h, bits) && BitsOf(bits, sums, counts)
    {
      for column := 0 to COLUMNS - 1
        invariant |bits| == 8 * row + column && Spells(h, bits) && BitsOf(bits, sums, counts)
      {
        var bit := Brighter(sums, counts, row, column);
        SpellsMore(h, bits, bit);
        MoreBits(bits, sums, counts, row, column);
        h, bits := 2 * h + (if bit then 1 else 0), bits + [bit];
      }
    }
    SpelledBits(h, bits, sums, counts);
  }

  lemma SpelledBits(h: nat, bits: seq<bool>, sums: array2<int>, counts: array2<int>)
    requires sums.Length0 == counts.Length0 == ROWS && sums.Length1 == counts.Length1 == COLUMNS
    requires forall gy, gx | 0 <= gy < ROWS && 0 <= gx < COLUMNS :: counts[gy, gx] >= 1
    requires |bits| == 64 && Spells(h, bits) && BitsOf(bits, sums, counts)
    ensures forall y, x | 0 <= y < ROWS && 0 <= x < COLUMNS - 1 ::
      Bit(h, 63 - 8 * y - x) <==> Brighter(sums, counts, y, x)
  {
    forall y, x | 0 <= y < ROWS && 0 <= x < COLUMNS - 1
      ensures Bit(h, 63 - 8 * y - x) <==> Brighter(sums, counts, y, x)
    {
      assert Bit(h, |bits| - 1 - (8 * y + x)) <==> bits[8 * y + x];
    }
  }

  /** The arrays hold the totals of the image's cells. */
  ghost predicate Totals(sums: array2<int>, counts: array2<int>, img: Image)
    requires Hashable(img)
    requires sums.Length0 == counts.Length0 == ROWS && sums.Length1 == counts.Length1 == COLUMNS
    reads sums, counts
  {
    forall gy, gx | 0 <= gy < ROWS && 0 <= gx < COLUMNS ::
      sums[gy, gx] == Total(GreyAt(img), img, gy, gx) && counts[gy, gx] == Total(One(), img, gy, gx)
  }

  lemma TotalsCount(sums: array2<int>, counts: array2<int>, img: Image, gy: int, gx: int)
    requires Hashable(img) && 0 <= gy < ROWS && 0 <= gx < COLUMNS
    requires sums.Length0 == counts.Length0 == ROWS && sums.Length1 == counts.Length1 == COLUMNS
    requires Totals(sums, counts, img)
    ensures counts[gy, gx] >= 1
  {
    EveryCellCounts(img, gy, gx);
  }

  lemma BrighterIsLighter(sums: array2<int>, counts: array2<int>, img: Image, y: int, x: int)
    requires Hashable(img) && 0 <= y < ROWS && 0 <= x < COLUMNS - 1
    requires sums.Length0 == counts.Length0 == ROWS && sums.Length1 == counts.Length1 == COLUMNS
    requires Totals(sums, counts, img) && counts[y, x] >= 1 && counts[y, x + 1] >= 1
    ensures Brighter(sums, counts, y, x) <==> Lighter(img, y, x)
  {
    assert sums[y, x] == Total(GreyAt(img), img, y, x) && sums[y, x + 1] == Total(GreyAt(img), img, y, x + 1);
    assert counts[y, x] == Total(One(), img, y, x) && counts[y, x + 1] == Total(One(), img, y, x + 1);
  }

  /** The loops over an image. */
  method AccumulateImage(img: Image) returns (sums: array2<int>, counts: array2<int>)
    requires Hashable(img)
    ensures sums.Length0 == counts.Length0 == ROWS && sums.Length1 == counts.Length1 == COLUMNS
    ensures Totals(sums, counts, img)
  {
    AxisCovers(COLUMNS, img.width);
    AxisCovers(ROWS, img.height);
    AllFits(img);
    sums, counts := Accumulate(img.width, img.height, GreyAt(img), AxisOf(COLUMNS, img.width), AxisOf(ROWS, img.height));
  }

  /** The hash of an image, or None for one that is too small or too large. Bit
      63 - 8y - x says whether cell (y, x) is lighter than cell (y, x + 1). */
  method HashImage(img: Image) returns (hash: Option<nat>)
    ensures hash.Some? <==> Hashable(img)
    ensures hash.Some? ==> hash.value < Pow2(64)
    ensures hash.Some? ==> forall y, x | 0 <= y < ROWS && 0 <= x < COLUMNS - 1 ::
      Bit(hash.value, 63 - 8 * y - x) <==> Lighter(img, y, x)
  {
    if img.width < COLUMNS || img.height < ROWS || img.width > MAX_PIXELS / img.height {
      return None;
    }
    var sums, counts := AccumulateImage(img);
    forall gy, gx | 0 <= gy < ROWS && 0 <= gx < COLUMNS ensures counts[gy, gx] >= 1 {
      TotalsCount(sums, counts, img, gy, gx);
    }
    var h := PackBits(sums, counts);
    forall y, x | 0 <= y < ROWS && 0 <= x < COLUMNS - 1 ensures Bit(h, 63 - 8 * y - x) <==> Lighter(img, y, x) {
      BrighterIsLighter(sums, counts, img, y, x);
    }
    return Some(h);
  }
}
