/** `plateMap` of the detail screen: the type-plate image for each type name. */
module TypePlates {
  import opened Wrappers

  /** `require(path)` of an image asset. */
  datatype Asset = Asset(path: string)

  /** The keys of `plateMap`. */
  const PlateTypes: set<string> :=
    {"bug", "dark", "dragon", "electric", "fairy", "fighting", "fire", "flying", "ghost",
     "grass", "ground", "ice", "normal", "poison", "psychic", "rock", "steel", "water"}

  /** The image asset of one type plate. */
  function PlatePath(typeName: string): string
  {
    "../assets/images/types/" + typeName + ".png"
  }

  /** `plateMap`: each listed type name to its plate image. */
  function PlateMap(): map<string, Asset>
  {
    map t | t in PlateTypes :: Asset(PlatePath(t))
  }

  /** The keys of the table are exactly the listed type names, and each maps
      to the plate image named after it. */
  lemma PlateMapEntries()
    ensures PlateMap().Keys == PlateTypes
    ensures forall t :: t in PlateMap() ==> PlateMap()[t] == Asset(PlatePath(t))
  {
  }

  // The count below is proved in two halves, split by first letter, because
  // comparing all 18 string literals at once is costly for the solver.
  // EarlyTypes and LateTypes are not a second table: they partition
  // PlateTypes, as PlateTypesCount shows.
  const EarlyTypes: set<string> :=
    {"bug", "dark", "dragon", "electric", "fairy", "fighting", "fire", "flying"}
  const LateTypes: set<string> :=
    {"ghost", "grass", "ground", "ice", "normal", "poison", "psychic", "rock", "steel", "water"}

  lemma EarlyTypesCount()
    ensures |EarlyTypes| == 8
  {
  }

  lemma LateTypesCount()
    ensures |LateTypes| == 10
  {
  }

  lemma EarlyStartBeforeG()
    ensures forall t :: t in EarlyTypes ==> |t| > 0 && t[0] < 'g'
  {
  }

  lemma LateStartFromG()
    ensures forall t :: t in LateTypes ==> |t| > 0 && 'g' <= t[0]
  {
  }

  /** There are 18 listed type names. */
  lemma PlateTypesCount()
    ensures |PlateTypes| == 18
  {
    EarlyTypesCount();
    LateTypesCount();
    EarlyStartBeforeG();
    LateStartFromG();
    assert EarlyTypes * LateTypes == {};
    assert PlateTypes == EarlyTypes + LateTypes;
  }

  /** The table has exactly 18 keys; any other name has no entry. */
  lemma PlateMapHasEighteenKeys()
    ensures |PlateMap()| == 18
    ensures forall t :: t in PlateMap() <==> t in PlateTypes
  {
    PlateMapEntries();
    PlateTypesCount();
  }

  /** `plateMap[plate]`: the plate image, or `undefined` for a name not listed. */
  function PlateFor(typeName: string): Option<Asset>
  {
    if typeName in PlateMap() then Some(PlateMap()[typeName]) else None
  }

  /** A plate is found exactly for the listed type names, and it is the image
      named after the type. */
  lemma PlateForListed(typeName: string)
    ensures PlateFor(typeName).Some? <==> typeName in PlateTypes
    ensures PlateFor(typeName).Some? ==> PlateFor(typeName).value.path == PlatePath(typeName)
  {
    PlateMapEntries();
  }
}
