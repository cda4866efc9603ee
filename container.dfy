/**
 * The fixed-size 2D grid `Array2D<T>` (crates/base/src/container/array2d.rs) and the
 * `IntoU2` coordinate conversions it is indexed by.
 *
 * Rust's `usize` is modelled as unbounded `nat`: the products `width*height` and
 * `y*width` never wrap here.
 */
module Container {
  import opened Wrappers

  /** `u32`, the component type of `UVec2`. */
  newtype u32 = n: int | 0 <= n < 0x1_0000_0000

  /** `[usize; 2]`: an array of exactly two elements. */
  type UsizeArray2 = a: seq<nat> | |a| == 2 witness [0, 0]

  /** The three types that implement `IntoU2`. */
  datatype At =
    | Pair(pair: (nat, nat))         // (usize, usize)
    | Array(arr: UsizeArray2)        // [usize; 2]
    | UVec2(x: u32, y: u32)          // bevy's UVec2

  /**
   * `IntoU2::into_u2`: the (x, y) column/row pair a position stands for. A `UVec2`'s
   * `u32` components widen to `usize` without loss, so they stay below 2^32.
   */
  function IntoU2(at: At): (p: (nat, nat))
    ensures at.UVec2? ==> p.0 < 0x1_0000_0000 && p.1 < 0x1_0000_0000
    ensures at.Array? ==> at.arr == [p.0, p.1]
  {
    match at
    case Pair(p) => p
    case Array(a) => (a[0], a[1])
    case UVec2(x, y) => (x as nat, y as nat)
  }

  /**
   * `IntoU2::into_index`: the row-major flat index of a position in a grid `width` wide.
   * For a column inside the width, dividing the index by the width gives back the row
   * and the remainder the column.
   */
  function IntoIndex(at: At, width: nat): (i: nat)
    ensures IntoU2(at).0 < width ==> i / width == IntoU2(at).1 && i % width == IntoU2(at).0
  {
    var (x, y) := IntoU2(at);
    DivModUnique(x, y, width);
    x + y * width
  }

  /**
   * The inverse of the row-major map on the cells of a grid of the given width:
   * column and row of a flat index. Not part of the source; it states what
   * "row-major" means.
   */
  function FromIndex(i: nat, width: nat): (p: (nat, nat))
    requires width > 0
    ensures p.0 < width && p.0 + p.1 * width == i
  {
    DivMod(i, width);
    (i % width, i / width)
  }

  /** All three coordinate representations of the same pair convert to that pair. */
  lemma IntoU2Agree(x: nat, y: nat)
    ensures IntoU2(Pair((x, y))) == (x, y)
    ensures IntoU2(Array([x, y])) == (x, y)
    ensures x < 0x1_0000_0000 && y < 0x1_0000_0000 ==> IntoU2(UVec2(x as u32, y as u32)) == (x, y)
  {
  }

  /** So do their flat indices, whatever the width. */
  lemma IntoIndexAgree(x: nat, y: nat, width: nat)
    requires x < 0x1_0000_0000 && y < 0x1_0000_0000
    ensures IntoIndex(Pair((x, y)), width) == IntoIndex(Array([x, y]), width)
                                           == IntoIndex(UVec2(x as u32, y as u32), width)
                                           == x + y * width
  {
    IntoU2Agree(x, y);
  }

  // ---------------------------------------------------------------------------
  // Arithmetic of the row-major map
  // ---------------------------------------------------------------------------

  lemma DivMod(i: nat, width: nat)
    requires width > 0
    ensures i % width + (i / width) * width == i
  {
  }

  /** Euclidean division is unique: a column below the width and a row determine the index and back. */
  lemma DivModUnique(x: nat, y: nat, width: nat)
    ensures x < width ==> (x + y * width) / width == y && (x + y * width) % width == x
  {
    if x < width {
      DivModUniqueInside(x, y, width);
    }
  }

  lemma DivModUniqueInside(x: nat, y: nat, width: nat)
    requires x < width
    ensures (x + y * width) / width == y && (x + y * width) % width == x
  {
    var i := x + y * width;
    var q, r := i / width, i % width;
    DivMod(i, width);
    if q > y {
      assert (y + 1) * width == y * width + width;
      MulLess(q, y + 1, width);
      assert false;
    } else if q < y {
      assert (q + 1) * width == q * width + width;
      MulLess(y, q + 1, width);
      assert false;
    }
  }

  lemma {:induction false} MulLess(a: nat, b: nat, width: nat)
    requires width > 0
    ensures a * width < b * width <==> a < b
  {
    if a > 0 && b > 0 {
      MulLess(a - 1, b - 1, width);
      assert a * width == (a - 1) * width + width;
      assert b * width == (b - 1) * width + width;
    }
  }

  /** The row-major map and FromIndex are inverse on positions whose column is inside the width. */
  lemma IndexRoundTrip(at: At, width: nat)
    requires width > 0
    ensures IntoU2(at).0 < width ==> FromIndex(IntoIndex(at, width), width) == IntoU2(at)
  {
    if IntoU2(at).0 < width {
      DivModUnique(IntoU2(at).0, IntoU2(at).1, width);
    }
  }

  /** ... and the other way round, on every flat index. */
  lemma FromIndexRoundTrip(i: nat, width: nat)
    requires width > 0
    ensures IntoIndex(Pair(FromIndex(i, width)), width) == i
  {
  }

  /** Two positions whose columns are inside the width share a flat index only when they are equal. */
  lemma IntoIndexInjective(a: At, b: At, width: nat)
    requires IntoU2(a).0 < width && IntoU2(b).0 < width
    ensures IntoIndex(a, width) == IntoIndex(b, width) <==> IntoU2(a) == IntoU2(b)
  {
    if IntoIndex(a, width) == IntoIndex(b, width) {
      IndexRoundTrip(a, width);
      IndexRoundTrip(b, width);
    }
  }

  /** A position inside a width-by-height grid has a flat index inside its buffer. */
  lemma InsideIndex(x: nat, y: nat, width: nat, height: nat)
    requires x < width && y < height
    ensures x + y * width < width * height
  {
    MulLess(y + 1, height, width);
    assert (y + 1) * width == y * width + width;
    assert height * width == width * height;
  }

  /** `is_inside`'s test `y*width < len` is "row below height" once the column is inside the width. */
  lemma InsideIff(x: nat, y: nat, width: nat, height: nat)
    ensures (x < width && y * width < width * height) <==> (x < width && y < height)
    ensures x < width && y < height ==> x + y * width < width * height
  {
    if x < width {
      MulLess(y, height, width);
      assert height * width == width * height;
      if y < height {
        InsideIndex(x, y, width, height);
      }
    }
  }

  // ---------------------------------------------------------------------------
  // The grid as rows of cells
  // ---------------------------------------------------------------------------

  /** The row-major reading of a flat buffer: `height` rows of `width` cells each. */
  ghost function RowsOf<T>(cells: seq<T>, width: nat, height: nat): (rows: seq<seq<T>>)
    requires |cells| == width * height
    ensures |rows| == height
    ensures forall y :: 0 <= y < height ==> |rows[y]| == width
    decreases height
  {
    if height == 0 then []
    else
      assert width * height == width * (height - 1) + width;
      [cells[..width]] + RowsOf(cells[width..], width, height - 1)
  }

  /** Cell (x, y) of the rows is the buffer's element at the row-major index `x + y*width`. */
  lemma {:induction false} RowsOfAt<T>(cells: seq<T>, width: nat, height: nat, x: nat, y: nat)
    requires |cells| == width * height
    requires x < width && y < height
    ensures x + y * width < |cells|
    ensures RowsOf(cells, width, height)[y][x] == cells[x + y * width]
  {
    InsideIndex(x, y, width, height);
    if y > 0 {
      assert width * height == width * (height - 1) + width;
      RowsOfAt(cells[width..], width, height - 1, x, y - 1);
      assert x + y * width == width + (x + (y - 1) * width);
    }
  }

  /** Every flat index below `width * height` decodes to a cell of a `width` by `height` grid. */
  lemma LandsInside(i: nat, width: nat, height: nat)
    requires i < width * height
    ensures width > 0
    ensures FromIndex(i, width).1 < height
  {
    var (x, y) := FromIndex(i, width);
    InsideIff(x, y, width, height);
  }

  /** Every flat index of the buffer lands on a cell of the rows: the one FromIndex names. */
  lemma CellAt<T>(cells: seq<T>, width: nat, height: nat, i: nat)
    requires |cells| == width * height && i < |cells|
    ensures width > 0
    ensures FromIndex(i, width).1 < height
    ensures RowsOf(cells, width, height)[FromIndex(i, width).1][FromIndex(i, width).0] == cells[i]
  {
    LandsInside(i, width, height);
    var (x, y) := FromIndex(i, width);
    RowsOfAt(cells, width, height, x, y);
  }

  /** The rows with cell `(x, y)` replaced by `v`. */
  ghost function UpdateCell<T>(rows: seq<seq<T>>, cell: (nat, nat), v: T): seq<seq<T>>
    requires cell.1 < |rows| && cell.0 < |rows[cell.1]|
  {
    rows[cell.1 := rows[cell.1][cell.0 := v]]
  }

  /** Writing one element of the buffer changes exactly one cell of the rows. */
  lemma RowsOfUpdate<T>(cells: seq<T>, width: nat, height: nat, x: nat, y: nat, v: T)
    requires |cells| == width * height
    requires x < width && y < height
    ensures x + y * width < |cells|
    ensures RowsOf(cells[x + y * width := v], width, height)
         == RowsOf(cells, width, height)[y := RowsOf(cells, width, height)[y][x := v]]
  {
    InsideIndex(x, y, width, height);
    var i := x + y * width;
    var before, after := RowsOf(cells, width, height), RowsOf(cells[i := v], width, height);
    var expected := before[y := before[y][x := v]];
    forall y' | 0 <= y' < height
      ensures after[y'] == expected[y']
    {
      forall x' | 0 <= x' < width
        ensures after[y'][x'] == expected[y'][x']
      {
        RowsOfAt(cells, width, height, x', y');
        RowsOfAt(cells[i := v], width, height, x', y');
        IntoIndexInjective(Pair((x, y)), Pair((x', y')), width);
      }
    }
  }

  // ---------------------------------------------------------------------------
  // Array2D<T>
  // ---------------------------------------------------------------------------

  /**
   * A fixed-size grid stored row-major in one flat buffer. The source stores only the
   * width and the buffer and never replaces either after `new`, so both are constants;
   * the height is a ghost constant fixed by the constructor.
   */
  class Array2D<T> {
    const width: nat
    const data: array<T>
    ghost const height: nat

    /** The buffer holds exactly `width * height` cells, as `new` builds it. */
    ghost predicate Valid()
      reads this
    {
      data.Length == width * height
    }

    /** The grid as `height` rows of `width` cells. */
    ghost function Grid(): (rows: seq<seq<T>>)
      reads this, data
      requires Valid()
      ensures |rows| == height
      ensures forall y :: 0 <= y < height ==> |rows[y]| == width
    {
      RowsOf(data[..], width, height)
    }

    /**
     * The cell of the grid that the flat index of `at` lands on: `at` itself when it
     * is inside, otherwise a cell of a later row.
     */
    ghost function Landing(at: At): (cell: (nat, nat))
      reads this
      requires Valid() && IntoIndex(at, width) < data.Length
      ensures cell.0 < width && cell.1 < height
      ensures cell.0 + cell.1 * width == IntoIndex(at, width)
      ensures IsInside(at) ==> cell == IntoU2(at)
    {
      LandsInside(IntoIndex(at, width), width, height);
      IndexRoundTrip(at, width);
      FromIndex(IntoIndex(at, width), width)
    }

    /** `Array2D::new`: a `width` by `height` grid with every cell set to `value`. */
    constructor (width: nat, height: nat, value: T)
      ensures Valid() && fresh(data)
      ensures this.width == width && this.height == height
      ensures forall i :: 0 <= i < data.Length ==> data[i] == value
      ensures forall y, x :: 0 <= y < height && 0 <= x < width ==> Grid()[y][x] == value
    {
      this.width := width;
      this.height := height;
      data := new T[width * height](_ => value);
      new;
      forall y, x | 0 <= y < height && 0 <= x < width
        ensures Grid()[y][x] == value
      {
        RowsOfAt(data[..], width, height, x, y);
      }
    }

    /** `len`: the number of cells. */
    function Len(): (n: nat)
      reads this
      requires Valid()
      ensures n == width * height
    {
      data.Length
    }

    /** `size`: width and height. The source divides by the width, so a zero width has no size. */
    function Size(): (s: (nat, nat))
      reads this
      requires Valid() && width > 0
      ensures s == (width, height)
    {
      DivModUnique(0, height, width);
      assert height * width == width * height;
      (width, Len() / width)
    }

    /** `is_inside`: the position is a cell of the grid, and so its flat index is inside the buffer. */
    function IsInside(at: At): (b: bool)
      reads this
      requires Valid()
      ensures b <==> IntoU2(at).0 < width && IntoU2(at).1 < height
      ensures b ==> IntoIndex(at, width) < data.Length
    {
      var (x, y) := IntoU2(at);
      InsideIff(x, y, width, height);
      x < width && y * width < data.Length
    }

    /**
     * `get`: checks only the flat index against the buffer, so a column past the width
     * reads a cell of a later row: the one the flat index lands on.
     */
    function Get(at: At): (r: T)
      reads this, data
      requires Valid() && IntoIndex(at, width) < data.Length
      ensures r == Grid()[Landing(at).1][Landing(at).0]
      ensures IsInside(at) ==> r == Grid()[IntoU2(at).1][IntoU2(at).0]
    {
      CellAt(data[..], width, height, IntoIndex(at, width));
      data[IntoIndex(at, width)]
    }

    /** `Index::index`: agrees with the bounds-checked `try_get` wherever that finds a cell. */
    function Index(at: At): (r: T)
      reads this, data
      requires Valid() && IntoIndex(at, width) < data.Length
      ensures IsInside(at) ==> TryGet(at) == Some(r)
    {
      Get(at)
    }

    /** `try_get`: the cell at the position exactly when the position is inside the grid. */
    function TryGet(at: At): (r: Option<T>)
      reads this, data
      requires Valid()
      ensures r.Some? <==> IntoU2(at).0 < width && IntoU2(at).1 < height
      ensures r.Some? ==> r.value == Grid()[IntoU2(at).1][IntoU2(at).0]
    {
      if IsInside(at) then
        RowsOfAt(data[..], width, height, IntoU2(at).0, IntoU2(at).1);
        Some(data[IntoIndex(at, width)])
      else
        None
    }

    /**
     * `set`: stores `value` at the flat index and returns what was there; only the
     * flat index is checked, as in `get`.
     */
    method Set(at: At, value: T) returns (previous: T)
      requires Valid() && IntoIndex(at, width) < data.Length
      modifies data
      ensures Valid()
      ensures previous == old(data[IntoIndex(at, width)])
      ensures data[..] == old(data[..])[IntoIndex(at, width) := value]
      ensures Grid() == UpdateCell(old(Grid()), Landing(at), value)
      ensures IsInside(at) ==> Grid() == UpdateCell(old(Grid()), IntoU2(at), value)
    {
      var i := IntoIndex(at, width);
      ghost var before := data[..];
      previous := data[i];
      data[i] := value;
      assert data[..] == before[i := value];
      RowsOfUpdate(before, width, height, Landing(at).0, Landing(at).1, value);
    }

    /**
     * `get_mut`: a mutable reference to the cell at the flat index. The reference is
     * modelled by the one write the caller makes through it, `update` of the old value.
     */
    method GetMut(at: At, update: T -> T)
      requires Valid() && IntoIndex(at, width) < data.Length
      modifies data
      ensures Valid()
      ensures data[..] == old(data[..])[IntoIndex(at, width) := update(old(data[IntoIndex(at, width)]))]
      ensures var cell := Landing(at);
        Grid() == UpdateCell(old(Grid()), cell, update(old(Grid())[cell.1][cell.0]))
      ensures IsInside(at) ==> var (x, y) := IntoU2(at);
        Grid() == UpdateCell(old(Grid()), (x, y), update(old(Grid())[y][x]))
    {
      var i := IntoIndex(at, width);
      ghost var before := data[..];
      CellAt(before, width, height, i);
      data[i] := update(data[i]);
      assert data[..] == before[i := update(before[i])];
      RowsOfUpdate(before, width, height, Landing(at).0, Landing(at).1, update(before[i]));
    }

    /** `IndexMut::index_mut`: the same reference as `get_mut`. */
    method IndexMut(at: At, update: T -> T)
      requires Valid() && IntoIndex(at, width) < data.Length
      modifies data
      ensures Valid()
      ensures data[..] == old(data[..])[IntoIndex(at, width) := update(old(data[IntoIndex(at, width)]))]
      ensures var cell := Landing(at);
        Grid() == UpdateCell(old(Grid()), cell, update(old(Grid())[cell.1][cell.0]))
      ensures IsInside(at) ==> var (x, y) := IntoU2(at);
        Grid() == UpdateCell(old(Grid()), (x, y), update(old(Grid())[y][x]))
    {
      GetMut(at, update);
    }

    /**
     * `try_set`: inside the grid, stores `value` (dropping the old one) and returns `None`;
     * outside, hands `value` back and leaves the grid as it was.
     */
    method TrySet(at: At, value: T) returns (rejected: Option<T>)
      requires Valid()
      modifies data
      ensures Valid()
      ensures rejected.None? <==> IntoU2(at).0 < width && IntoU2(at).1 < height
      ensures rejected.None? ==> IntoIndex(at, width) < data.Length
      ensures rejected.None? ==>
        data[..] == old(data[..])[IntoIndex(at, width) := value] &&
        Grid() == UpdateCell(old(Grid()), IntoU2(at), value)
      ensures rejected.Some? ==> rejected.value == value && data[..] == old(data[..])
    {
      if IsInside(at) {
        var i := IntoIndex(at, width);
        ghost var before := data[..];
        data[i] := value;
        assert data[..] == before[i := value];
        RowsOfUpdate(before, width, height, IntoU2(at).0, IntoU2(at).1, value);
        rejected := None;
      } else {
        rejected := Some(value);
      }
    }

    /**
     * `try_get_mut`: inside the grid, a mutable reference to the cell (modelled by the
     * caller's write `update`) and `found`; outside, nothing and the grid unchanged.
     */
    method TryGetMut(at: At, update: T -> T) returns (found: bool)
      requires Valid()
      modifies data
      ensures Valid()
      ensures found <==> IntoU2(at).0 < width && IntoU2(at).1 < height
      ensures found ==> IntoIndex(at, width) < data.Length
      ensures found ==>
        data[..] == old(data[..])[IntoIndex(at, width) := update(old(data[IntoIndex(at, width)]))]
      ensures found ==> var (x, y) := IntoU2(at);
        Grid() == UpdateCell(old(Grid()), (x, y), update(old(Grid())[y][x]))
      ensures !found ==> data[..] == old(data[..])
    {
      if IsInside(at) {
        var i := IntoIndex(at, width);
        ghost var before := data[..];
        RowsOfAt(before, width, height, IntoU2(at).0, IntoU2(at).1);
        data[i] := update(data[i]);
        assert data[..] == before[i := update(before[i])];
        RowsOfUpdate(before, width, height, IntoU2(at).0, IntoU2(at).1, update(before[i]));
        found := true;
      } else {
        found := false;
      }
    }
  }

  /** A `set` followed by a `get` at the same position reads back the value set. */
  method SetThenGet<T>(grid: Array2D<T>, at: At, value: T) returns (read: T)
    requires grid.Valid() && grid.IsInside(at)
    modifies grid.data
    ensures grid.Valid()
    ensures read == value
    ensures forall y, x :: 0 <= y < grid.height && 0 <= x < grid.width && (x, y) != IntoU2(at) ==>
      grid.Grid()[y][x] == old(grid.Grid())[y][x]
  {
    var _ := grid.Set(at, value);
    read := grid.Get(at);
  }

  /** `try_set` and `try_get`: inside the grid the value is read back, outside nothing is stored. */
  method TrySetThenTryGet<T>(grid: Array2D<T>, at: At, value: T) returns (read: Option<T>)
    requires grid.Valid()
    modifies grid.data
    ensures grid.Valid()
    ensures grid.IsInside(at) ==> read == Some(value)
    ensures !grid.IsInside(at) ==> read == None && grid.data[..] == old(grid.data[..])
  {
    var _ := grid.TrySet(at, value);
    read := grid.TryGet(at);
  }
}
