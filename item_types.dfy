/** The protocol-level item records the dictionaries are built from. */
module ItemTypes {

  /** One row of an item table: the item's string name, its numeric runtime
      id for one protocol revision, and whether it is component based. */
  datatype ItemTypeEntry = ItemTypeEntry(stringId: string, numericId: int, componentBased: bool)

  /** The dictionary of one protocol revision, built from its entries in
      table order. Its lookup indices are not part of this model. */
  datatype ItemTypeDictionary = ItemTypeDictionary(entries: seq<ItemTypeEntry>)
}
