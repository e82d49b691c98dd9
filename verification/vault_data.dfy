/**
  The plain records a vault stores (src/Types/Data): asset settings, the
  settings of a tile set, and the vault's configuration. The older copies
  under src/Types have the same shape minus the identifier map.
*/
module VaultData {
  import opened VaultObjects

  /** A tile position (`System.Drawing.Point`): a column and a row. */
  datatype Point = Point(x: int, y: int)

  datatype AssetSettings = AssetSettings(id: VaultObjectIdentifier, fileName: string)

  /**
    A tile-set asset: its tiling and the tiles left out of the set. The
    record calls the list `Empty`; the editor reads and writes a list it
    calls `Exclusions`, whose declaration is not part of this model. The two
    are taken to be this one list.
  */
  datatype TileSetSettings = TileSetSettings(asset: AssetSettings, xCount: int, yCount: int, empty: seq<Point>)

  datatype VaultConfiguration = VaultConfiguration(
    collaborationEnabled: bool,
    assetGroups: seq<VaultObjectIdentifier>,
    worlds: seq<VaultObjectIdentifier>,
    dictionary: map<Guid, Guid>)

}
