/**
 * The two static tables that interpret an image element's description code
 * (the "descriptor" byte of SMPTE ST 268): how many components each pixel has
 * and what they are called.
 */
module Layout {
  import opened Results

  /** Every description code the tables know. */
  const DescriptionCodes: set<int> :=
    {0, 1, 2, 3, 4, 5, 6, 7, 8, 50, 51, 52, 100, 101, 102, 103,
     150, 151, 152, 153, 154, 155, 156}

  const NumComponentsMap: map<int, nat> := map[
    0 := 1, 1 := 1, 2 := 1, 3 := 1, 4 := 1, 5 := 1, 6 := 1, 7 := 1, 8 := 1,
    50 := 3, 51 := 4, 52 := 4, 100 := 3, 101 := 4, 102 := 3, 103 := 3,
    150 := 2, 151 := 3, 152 := 4, 153 := 5, 154 := 6, 155 := 7, 156 := 8]

  const ComponentsTypesMap: map<int, string> := map[
    0 := "User-defined", 1 := "Red", 2 := "Green", 3 := "Blue", 4 := "Alpha",
    5 := "Luminance", 6 := "Chrominance", 7 := "Depth",
    8 := "Composite video", 50 := "RGB", 51 := "RGBA", 52 := "ABGR",
    100 := "CbYCrY", 101 := "CbYaCrYa", 102 := "CbYCr", 103 := "CbYCra",
    150 := "User-defined 2-component element",
    151 := "User-defined 3-component element",
    152 := "User-defined 4-component element",
    153 := "User-defined 5-component element",
    154 := "User-defined 6-component element",
    155 := "User-defined 7-component element",
    156 := "User-defined 8-component element"]

  /** Map.get on the component-count table: None for an unknown code. */
  function NumComponents(code: int): (r: Option<nat>)
    ensures r.Some? <==> code in DescriptionCodes
    ensures r.Some? ==> 1 <= r.value <= 8
  {
    if code in NumComponentsMap then Some(NumComponentsMap[code]) else None
  }

  /** Map.get on the component-type table: None for an unknown code. */
  function ComponentsType(code: int): (r: Option<string>)
    ensures r.Some? <==> code in DescriptionCodes
    ensures r.Some? ==> r.value != []
  {
    if code in ComponentsTypesMap then Some(ComponentsTypesMap[code]) else None
  }

  /** Both tables are keyed by exactly the same codes. */
  lemma SameKeys()
    ensures NumComponentsMap.Keys == DescriptionCodes
    ensures ComponentsTypesMap.Keys == DescriptionCodes
  {
  }

  /** Single-channel codes 0 to 8 have one component. */
  lemma SingleChannelCodes(code: int)
    requires 0 <= code <= 8
    ensures NumComponents(code) == Some(1)
  {
  }

  /**
   * Code 150 + k is the user-defined element with k + 2 components, and its
   * type name carries that count as its fourteenth character.
   */
  lemma UserDefinedCounts(k: int)
    requires 0 <= k <= 6
    ensures NumComponents(150 + k) == Some(k + 2)
    ensures ComponentsType(150 + k).Some?
    ensures |ComponentsType(150 + k).value| > 13
    ensures ComponentsType(150 + k).value[13] == ('0' as int + k + 2) as char
  {
    if k == 0 { assert ComponentsTypesMap[150][13] == '2'; }
    else if k == 1 { assert ComponentsTypesMap[151][13] == '3'; }
    else if k == 2 { assert ComponentsTypesMap[152][13] == '4'; }
    else if k == 3 { assert ComponentsTypesMap[153][13] == '5'; }
    else if k == 4 { assert ComponentsTypesMap[154][13] == '6'; }
    else if k == 5 { assert ComponentsTypesMap[155][13] == '7'; }
    else { assert ComponentsTypesMap[156][13] == '8'; }
  }

  /** The RGB and RGBA codes that the 10-bit rules distinguish. */
  lemma RgbCodes()
    ensures NumComponents(50) == Some(3) && ComponentsType(50) == Some("RGB")
    ensures NumComponents(51) == Some(4) && ComponentsType(51) == Some("RGBA")
    ensures NumComponents(52) == Some(4) && ComponentsType(52) == Some("ABGR")
  {
  }
}
