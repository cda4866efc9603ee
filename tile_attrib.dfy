/**
 * The file filter of the tile-attribute loader (crates/base/src/map/tile/attrib.rs):
 * a directory entry is loaded as a tile configuration when its long extension is
 * exactly `tile.json`. The directory scan, the asset server and the entity spawning
 * around it are not modelled.
 */
module TileAttrib {
  import opened Wrappers
  import opened PathBuf

  const TileExt: string := "tile.json"

  /** The loader's test `path.long_ext() == Some("tile.json")`. */
  function IsTileAttribFile(fileName: Option<OsName>): (b: bool)
    ensures b ==> fileName.Some? && fileName.value.Unicode? && '.' in fileName.value.text
    ensures b ==> |fileName.value.text| > |TileExt|
  {
    LongExt(fileName) == Some(TileExt)
  }

  /** A dot-free stem followed by `.tile.json` is a tile configuration file. */
  lemma StemIsTileAttribFile(stem: string)
    requires '.' !in stem
    ensures IsTileAttribFile(Some(Unicode(stem + ".tile.json")))
  {
    LongExtOfJoin(stem, TileExt);
    assert stem + "." + TileExt == stem + ".tile.json";
  }

  /** Every accepted name is a dot-free stem, a dot and `tile.json`. */
  lemma TileAttribFileHasStem(fileName: Option<OsName>)
    requires IsTileAttribFile(fileName)
    ensures fileName.Some? && fileName.value.Unicode?
    ensures var name := fileName.value.text;
      |name| > |TileExt| && var stem := name[..|name| - |TileExt| - 1];
      name == stem + "." + TileExt && '.' !in stem
  {
    LongExtIff(fileName.value.text, TileExt);
  }

  /** `grass.tile.json` is accepted. */
  lemma GrassIsTileAttribFile()
    ensures IsTileAttribFile(Some(Unicode("grass.tile.json")))
  {
    StemIsTileAttribFile("grass");
    assert "grass" + ".tile.json" == "grass.tile.json";
  }

  /** A name with a dot before `tile` is not: its long extension starts after the first dot. */
  lemma ExtraDotIsNotTileAttribFile()
    ensures LongExt(Some(Unicode("a.b.tile.json"))) == Some("b.tile.json")
    ensures !IsTileAttribFile(Some(Unicode("a.b.tile.json")))
  {
    LongExtOfJoin("a", "b.tile.json");
    assert "a" + "." + "b.tile.json" == "a.b.tile.json";
  }
}
