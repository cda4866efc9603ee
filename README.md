# Array2D grid and long file extensions, in Dafny

This project models the two self-contained pieces of a tile-based game's asset code
(crates `base`):

- `Array2D<T>`, the fixed-size 2D grid that backs the game's `TileMap` resource. It stores
  a width and a flat row-major buffer. It offers a filling constructor, size queries,
  accessors that check only the flat index (`get`, `get_mut`, `set`, `Index`, `IndexMut`) and
  accessors gated by `is_inside` (`try_get`, `try_get_mut`, `try_set`). Positions are anything
  implementing `IntoU2`: `(usize, usize)`, `[usize; 2]` or `UVec2`. They map to the flat index
  `x + y*width`.
- `PathBufLongExt::long_ext`, the part of a file name after its first `.`, and the tile loader's
  test that a directory entry's long extension is exactly `tile.json`.

Files:

- `wrappers.dfy` (module `Wrappers`): `Option`.
- `container.dfy` (module `Container`): the `At` positions, the row-major index and its inverse,
  the abstract view of a grid as rows of cells (`RowsOf`), and the class `Array2D`.
- `path_buf.dfy` (module `PathBuf`): `Find`, `SplitLongExt`, `LongExt` and their properties.
- `tile_attrib.dfy` (module `TileAttrib`): the `*.tile.json` filter.

`Array2D` is a class with constant fields `width` and `data: array<T>` plus a ghost
constant `height`: the source never replaces the width or the buffer after `new`, and
does not store the height. The methods write only elements of `data`. The object invariant `Valid()` is
`data.Length == width * height`. Every accessor, reading or writing, is proved against the ghost view
`Grid()`, which gives the grid as `height` rows of `width` cells. So `try_get` returns `Grid()[y][x]`
exactly on inside positions. `set` and `try_set` change exactly that one cell of `Grid()`.
With `usize` taken as unbounded, the checked accessors never index outside the buffer.

The panicking accessors check only the flat index. Their contracts say what that means:
a column at or past the width reads or writes the cell in a later row that the flat index
lands on, the cell `Array2D.Landing` names (the contracts of `Get`, `Set`, `GetMut` and
`IndexMut`).

## Model

| member | source | states |
|---|---|---|
| `Container.IntoU2` | crates/base/src/container/array2d.rs:103-127 | the `(x, y)` pair each position type converts to; a `UVec2`'s components stay below 2^32 and a `[usize; 2]` is exactly `[x, y]` |
| `Container.IntoIndex` | crates/base/src/container/array2d.rs:106-109 | `x + y*width`: for a column below the width, the index divided by the width is `y` and the remainder is `x` |
| `Container.IntoU2Agree` | crates/base/src/container/array2d.rs:112-127 | `(x, y)`, `[x, y]` and a `UVec2` with components below 2^32 all convert to the pair `(x, y)` |
| `Container.IntoIndexAgree` | crates/base/src/container/array2d.rs:106-127 | the three position types give the same flat index, `x + y*width` |
| `Container.FromIndex` | crates/base/src/container/array2d.rs:106-109 | every flat index is `x + y*width` for a column `x` below the width (the inverse of the row-major map) |
| `Container.IndexRoundTrip` | crates/base/src/container/array2d.rs:106-109 | for a column below the width, decoding `into_index` gives back the position's `(x, y)` |
| `Container.FromIndexRoundTrip` | crates/base/src/container/array2d.rs:106-109 | encoding the decoded pair of a flat index gives back the index |
| `Container.IntoIndexInjective` | crates/base/src/container/array2d.rs:106-109 | two positions with columns below the width share a flat index if and only if they are the same `(x, y)` |
| `Container.DivModUnique` | crates/base/src/container/array2d.rs:29-31 | `(x + y*width) / width == y` and `% width == x` for `x < width`; this is the division `size` relies on |
| `Container.InsideIff` | crates/base/src/container/array2d.rs:81-84 | `x < width && y*width < width*height` holds if and only if `x < width && y < height`, and then `x + y*width < width*height` |
| `Container.InsideIndex` | crates/base/src/container/array2d.rs:13-19 | a position inside a `width` by `height` grid has a flat index inside the buffer `new` allocates |
| `Container.RowsOf` | crates/base/src/container/array2d.rs:7-10 | a buffer of `width*height` cells read row-major is `height` rows of `width` cells |
| `Container.RowsOfAt` | crates/base/src/container/array2d.rs:106-109 | cell `(x, y)` of the rows is buffer element `x + y*width` |
| `Container.LandsInside` | crates/base/src/container/array2d.rs:106-109 | every flat index below `width*height` decodes to a column below the width and a row below the height |
| `Container.CellAt` | crates/base/src/container/array2d.rs:40-42 | every flat index inside the buffer lands on a cell of the rows, the one `FromIndex` names |
| `Container.RowsOfUpdate` | crates/base/src/container/array2d.rs:36-38 | writing buffer element `x + y*width` changes cell `(x, y)` of the rows and no other |
| `Container.Array2D.Grid` | crates/base/src/container/array2d.rs:7-10 | the grid viewed as `height` rows, each `width` cells long |
| `Container.Array2D.Landing` | crates/base/src/container/array2d.rs:40-46 | the cell an in-buffer flat index lands on is inside the grid, has that flat index, and is the position itself when the position is inside |
| `Container.Array2D.constructor` | crates/base/src/container/array2d.rs:13-21 | `new(width, height, value)` has width `width`, a fresh buffer of `width*height` cells, and every cell equal to `value` |
| `Container.Array2D.Len` | crates/base/src/container/array2d.rs:25-27 | `len()` is `width*height` |
| `Container.Array2D.Size` | crates/base/src/container/array2d.rs:29-31 | for a non-zero width, `size()` is `(width, height)` |
| `Container.Array2D.IsInside` | crates/base/src/container/array2d.rs:81-84 | `is_inside` holds if and only if `x < width && y < height`, and then the flat index is inside the buffer |
| `Container.Array2D.Get` | crates/base/src/container/array2d.rs:40-42 | `get` reads the cell of the grid that the flat index lands on (`Landing`); on inside positions that is cell `(x, y)` |
| `Container.Array2D.Index` | crates/base/src/container/array2d.rs:88-94 | `Index` agrees with `try_get` on every inside position |
| `Container.Array2D.TryGet` | crates/base/src/container/array2d.rs:61-67 | `try_get` is `Some` exactly on inside positions, and then holds cell `(x, y)` of the grid |
| `Container.Array2D.Set` | crates/base/src/container/array2d.rs:36-38 | `set` requires only the flat index in the buffer, returns the old element, stores the value at that index and nothing else; in the grid it changes only the cell the index lands on, which is `(x, y)` on inside positions |
| `Container.Array2D.GetMut` | crates/base/src/container/array2d.rs:44-46 | a write through `get_mut`'s reference changes only the element at the flat index, that is the grid cell it lands on (`(x, y)` on inside positions), to `update` of its old value |
| `Container.Array2D.IndexMut` | crates/base/src/container/array2d.rs:96-100 | `IndexMut` gives the same reference as `get_mut`, with the same effect on the buffer and the grid |
| `Container.Array2D.TrySet` | crates/base/src/container/array2d.rs:52-59 | inside: stores the value at `(x, y)`, changes no other cell, returns `None`; outside: returns `Some(value)` and the buffer is unchanged |
| `Container.Array2D.TryGetMut` | crates/base/src/container/array2d.rs:69-75 | a reference exactly on inside positions; a write through it changes grid cell `(x, y)` to `update` of its old value and nothing else; outside nothing changes |
| `Container.SetThenGet` | crates/base/src/container/array2d.rs:36-42 | `get` after `set` at an inside position returns the value set, and every other cell keeps its value |
| `Container.TrySetThenTryGet` | crates/base/src/container/array2d.rs:52-67 | `try_get` after `try_set` returns `Some(value)` inside; outside it returns `None` and nothing was stored |
| `PathBuf.ToStr` | crates/base/src/util/path_buf.rs:11 | a file name has text exactly when it is valid UTF-8 |
| `PathBuf.Find` | crates/base/src/util/path_buf.rs:11 | `find` is `None` exactly when the character is absent; otherwise it gives the first index holding it |
| `PathBuf.SplitLongExt` | crates/base/src/util/path_buf.rs:11 | no result exactly when the name has no `.`; otherwise the result is a strictly shorter suffix, and the name is a dot-free prefix, `.` and the result |
| `PathBuf.LongExt` | crates/base/src/util/path_buf.rs:11 | `long_ext` is `None` for an absent name, a non-UTF-8 name or a name without `.`; otherwise it is a strictly shorter suffix of the name |
| `PathBuf.LongExtOfJoin` | crates/base/src/util/path_buf.rs:11 | a dot-free prefix, `.` and `ext` has long extension `ext` |
| `PathBuf.LongExtIff` | crates/base/src/util/path_buf.rs:11 | the long extension is `ext` if and only if the name is a dot-free prefix, `.` and `ext` |
| `PathBuf.LeadingDot` | crates/base/src/util/path_buf.rs:11 | a name starting with `.` yields everything after that dot (`.tile.json` gives `tile.json`) |
| `PathBuf.TrailingFirstDot` | crates/base/src/util/path_buf.rs:11 | a name whose first `.` is its last character yields `Some("")` |
| `TileAttrib.IsTileAttribFile` | crates/base/src/map/tile/attrib.rs:92 | the long extension is exactly `tile.json`; an accepted name is valid UTF-8, contains a `.` and is longer than `tile.json` |
| `TileAttrib.StemIsTileAttribFile` | crates/base/src/map/tile/attrib.rs:92 | every dot-free stem followed by `.tile.json` passes the loader's filter |
| `TileAttrib.TileAttribFileHasStem` | crates/base/src/map/tile/attrib.rs:92 | every name passing the filter is valid UTF-8 and is a dot-free stem, `.` and `tile.json` |
| `TileAttrib.GrassIsTileAttribFile` | crates/base/src/map/tile/attrib.rs:92 | `grass.tile.json` passes the filter |
| `TileAttrib.ExtraDotIsNotTileAttribFile` | crates/base/src/map/tile/attrib.rs:92 | `a.b.tile.json` has long extension `b.tile.json` and does not pass |

## Left out

- Machine width: `usize` is unbounded `nat`, so `width*height` in `new` and `y*width` in `is_inside`/`into_index` never overflow. In the source they can: in a release build, a 3 by 1 grid and the position `(2, 12297829382473034411)` make `y*3` wrap to 1, so `is_inside` holds, `into_index` gives 3 and `try_get` panics on the out-of-range element (derived from the source text). `UVec2`'s `u32` components are a bounded newtype; their `as usize` cast is lossless.
- Panics: `get`, `set`, `get_mut`, `Index` and `IndexMut` panic on a flat index outside the buffer. This is modelled as the precondition `IntoIndex(at, width) < data.Length`.
- Container.Array2D.Size: requires a non-zero width, because the source divides by the width and panics on zero.
- Container.Array2D.GetMut: a `&mut T` reference is modelled by the one write the caller makes through it (`update` applied to the old value). Borrow lifetimes and several writes through one reference are not modelled. The same holds for `IndexMut` and `TryGetMut`.
- `new` builds a `Vec` with `with_capacity` and `resize` and boxes it. These are library calls; the model allocates the array filled with `value`. The `T: Copy` bound has no counterpart.
- `TileMap` (crates/base/src/map/mod.rs:11) is `Array2D<Entity>`; the model is generic in the cell type, so it covers it without an `Entity` type.
- `PathBuf::file_name` is a library call. The file name is an input to `LongExt`: `None` when the path ends in `..` or has no normal final component.
- Rust's `find` returns a byte offset. The model uses character indices; since `.` is one byte, both split the name at the same place.
- The tile loader's directory scan (`std::fs::read_dir`), the root-prefix stripping, the asset server, entity spawning, the attribute deserialization systems and the attribute data types belong to the game engine, serde or the file system. Only the file-name filter is modelled.
- The JSON asset loader, `get_bevy_asset_dir` (environment variables) and the plugin registration are not part of this model.
