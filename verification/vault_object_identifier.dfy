/** `VaultObjectIdentifier` (src/Types/VaultObjectIdentifier.cs): a named, typed vault object. */
module VaultObjects {

  /** A 128-bit globally unique identifier; how it is generated is not modelled. */
  type Guid = x: nat | x < 0x1_0000_0000_0000_0000_0000_0000_0000_0000

  datatype ObjectType = AssetGroup | Image | World

  datatype VaultObjectIdentifier = VaultObjectIdentifier(name: string, id: Guid, objectType: ObjectType)

  /** Images and worlds have content an editor can open; asset groups do not. */
  function IsContentOpenable(v: VaultObjectIdentifier): (r: bool)
    ensures r <==> v.objectType != AssetGroup
  {
    v.objectType.Image? || v.objectType.World?
  }

  /** Openability is decided by the kind alone, never by the name or the id. */
  lemma OpenableDependsOnlyOnType(v: VaultObjectIdentifier, w: VaultObjectIdentifier)
    requires v.objectType == w.objectType
    ensures IsContentOpenable(v) == IsContentOpenable(w)
  {
  }
}
