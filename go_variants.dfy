/** The Go server's catalog loader (`Manager.variantsInit`): each decoded
    descriptor is validated and converted into a `Variant`, stored in the
    manager's name map and ID map and appended to its name list; then every
    ID below the number of variants must be present and the default variant
    must have been seen. Every rejection is fatal. */
module GoVariants {
  import opened Wrappers
  import opened Strings
  import opened Seqs
  import opened ClueColors

  /** The rank of START cards, the points of a full stack and the name of the
      default variant; their values are defined outside this model. */
  const START_CARD_RANK: int
  const POINTS_PER_STACK: int
  const DEFAULT_VARIANT_NAME: string

  /** Variants whose name starts with this have START cards. */
  const UP_OR_DOWN_PREFIX := "Up or Down"

  /** The card ranks of every variant, and the clue ranks when none are given. */
  const DEFAULT_RANKS: seq<int> := [1, 2, 3, 4, 5]

  /** An entry of the manager's suit table, with the attributes read here. */
  datatype Suit = Suit(name: string, clueColors: seq<string>, allClueColors: bool)

  /** A descriptor as unmarshalled: absent lists are `None` (a nil slice),
      absent numbers are 0 and absent booleans false. */
  datatype VariantJson = VariantJson(
    name: string,
    id: int,
    suits: seq<string>,
    clueColors: Option<seq<string>>,
    clueRanks: Option<seq<int>>,
    specialRank: int,
    colorCluesTouchNothing: bool,
    rankCluesTouchNothing: bool,
    specialAllClueColors: bool,
    specialAllClueRanks: bool,
    specialNoClueColors: bool,
    specialNoClueRanks: bool,
    specialDeceptive: bool)

  datatype Variant = Variant(
    name: string,
    id: int,
    suits: seq<Suit>,
    ranks: seq<int>,
    clueColors: seq<string>,
    clueRanks: seq<int>,
    colorCluesTouchNothing: bool,
    rankCluesTouchNothing: bool,
    specialRank: int,
    specialAllClueColors: bool,
    specialAllClueRanks: bool,
    specialNoClueColors: bool,
    specialNoClueRanks: bool,
    specialDeceptive: bool,
    maxScore: int)

  datatype InitError =
    | EmptyName
    | InvalidId(name: string)
    | DuplicateName(name: string)
    | NoSuits(name: string)
    | UnknownSuit(suitName: string, name: string)
    | UnknownColor(name: string, colorName: string)
    | DuplicateId(id: int)
    | MissingId(id: int)
    | NoDefaultVariant

  /** What the loader fills in: the name map, the ID map, the name list and
      the default variant (`None` for nil). */
  datatype Catalog = Catalog(
    nameMap: map<string, Variant>,
    idMap: map<int, Variant>,
    names: seq<string>,
    noVariant: Option<Variant>)

  const EMPTY_CATALOG := Catalog(map[], map[], [], None)

  /** One suit name of a descriptor, looked up in the suit table; `context`
      is the suit table and the variant's name. */
  function ResolveSuit(suitName: string, context: (map<string, Suit>, string)): (r: Result<Suit, InitError>)
    ensures !r.Thrown?
  {
    if suitName in context.0 then Ok(context.0[suitName]) else Fatal(UnknownSuit(suitName, context.1))
  }

  /** One listed clue colour, which must be a key of the colour table. */
  function CheckColor(colorName: string, context: (set<string>, string)): (r: Result<string, InitError>)
    ensures !r.Thrown?
  {
    if colorName in context.0 then Ok(colorName) else Fatal(UnknownColor(context.1, colorName))
  }

  /** Whether a suit is touched by every colour, and its clue colours: how
      the shared derivation sees this compiler's suits. */
  function TouchedByAll(suit: Suit): bool {
    suit.allClueColors
  }

  function SuitClueColors(suit: Suit): seq<string> {
    suit.clueColors
  }

  /** The clue colours of a variant whose descriptor names none
      (`ClueColors.Derive`). */
  function DeriveClueColors(suits: seq<Suit>): seq<string> {
    Derive(suits, TouchedByAll, SuitClueColors)
  }


  /** Ranks 1 to 5, and the START rank for the "Up or Down" variants. */
  function RanksOf(name: string): (ranks: seq<int>)
    ensures 5 <= |ranks| <= 6 && ranks[..5] == DEFAULT_RANKS
    ensures |ranks| == 6 <==> StartsWith(name, UP_OR_DOWN_PREFIX)
    ensures |ranks| == 6 ==> ranks[5] == START_CARD_RANK
  {
    DEFAULT_RANKS + (if StartsWith(name, UP_OR_DOWN_PREFIX) then [START_CARD_RANK] else [])
  }

  /** The unmarshalled special rank, with 0 (absent) read as -1. */
  function SpecialRankOf(specialRank: int): (r: int)
    ensures r != 0
    ensures specialRank != 0 ==> r == specialRank
  {
    if specialRank == 0 then -1 else specialRank
  }

  /** The clue colours of a variant: the listed ones, each of which must be
      in the colour table, or else those derived from its suits. */
  function ClueColorsOf(json: VariantJson, suits: seq<Suit>, colors: set<string>): (r: Result<seq<string>, InitError>)
    ensures !r.Thrown?
    ensures r.Ok? ==> r.value == if json.clueColors.Some? then json.clueColors.value else DeriveClueColors(suits)
    ensures r.Ok? <==> json.clueColors.Some? ==> forall i :: 0 <= i < |json.clueColors.value| ==> json.clueColors.value[i] in colors
  {
    match json.clueColors
    case None => Ok(DeriveClueColors(suits))
    case Some(listed) =>
      var checked :- MapResult(listed, (colors, json.name), CheckColor);
      Ok(listed)
  }

  /** A descriptor's suits, clue colours and clue ranks validated and the
      variant built (the checks that follow the name and ID checks). */
  function CompileVariant(json: VariantJson, colors: set<string>, suitTable: map<string, Suit>): (r: Result<Variant, InitError>)
    ensures !r.Thrown?
    ensures r.Ok? ==> r.value.name == json.name && r.value.id == json.id
  {
    if |json.suits| < 1 then Fatal(NoSuits(json.name))
    else
      var suits :- MapResult(json.suits, (suitTable, json.name), ResolveSuit);
      var clueColors :- ClueColorsOf(json, suits, colors);
      Ok(Variant(
        json.name, json.id, suits, RanksOf(json.name), clueColors,
        if json.clueRanks.Some? then json.clueRanks.value else DEFAULT_RANKS,
        json.colorCluesTouchNothing, json.rankCluesTouchNothing,
        SpecialRankOf(json.specialRank),
        json.specialAllClueColors, json.specialAllClueRanks,
        json.specialNoClueColors, json.specialNoClueRanks, json.specialDeceptive,
        |suits| * POINTS_PER_STACK))
  }

  /** A descriptor compiles exactly when it has a suit, every suit is in the
      suit table and every listed clue colour is in the colour table. */
  lemma CompileVariantSucceedsIff(json: VariantJson, colors: set<string>, suitTable: map<string, Suit>)
    ensures CompileVariant(json, colors, suitTable).Ok? <==>
      && |json.suits| >= 1
      && (forall s :: s in json.suits ==> s in suitTable)
      && (json.clueColors.Some? ==> forall c :: c in json.clueColors.value ==> c in colors)
  {
    assert forall s :: s in json.suits ==> exists i :: 0 <= i < |json.suits| && json.suits[i] == s;
    if json.clueColors.Some? {
      var listed := json.clueColors.value;
      assert forall c :: c in listed ==> exists i :: 0 <= i < |listed| && listed[i] == c;
    }
  }

  /** The fields of a compiled variant: suits looked up in order, ranks with
      the START rank for "Up or Down", clue colours as listed or derived from
      the suits, clue ranks as listed or 1 to 5, special rank -1 when absent,
      the flags copied, and the maximum score one full stack per suit. */
  lemma CompiledVariant(json: VariantJson, colors: set<string>, suitTable: map<string, Suit>)
    requires CompileVariant(json, colors, suitTable).Ok?
    ensures var v := CompileVariant(json, colors, suitTable).value;
      && |v.suits| == |json.suits| >= 1
      && (forall i :: 0 <= i < |json.suits| ==> json.suits[i] in suitTable && v.suits[i] == suitTable[json.suits[i]])
      && v.ranks == RanksOf(json.name)
      && v.clueColors == (if json.clueColors.Some? then json.clueColors.value else DeriveClueColors(v.suits))
      && v.clueRanks == (if json.clueRanks.Some? then json.clueRanks.value else DEFAULT_RANKS)
      && v.specialRank == (if json.specialRank == 0 then -1 else json.specialRank)
      && v.colorCluesTouchNothing == json.colorCluesTouchNothing
      && v.rankCluesTouchNothing == json.rankCluesTouchNothing
      && v.specialAllClueColors == json.specialAllClueColors
      && v.specialAllClueRanks == json.specialAllClueRanks
      && v.specialNoClueColors == json.specialNoClueColors
      && v.specialNoClueRanks == json.specialNoClueRanks
      && v.specialDeceptive == json.specialDeceptive
      && v.maxScore == |json.suits| * POINTS_PER_STACK
  {
  }

  /** The catalog with one more variant stored under its name and its ID and
      appended to the name list. */
  function Record(catalog: Catalog, variant: Variant): (r: Catalog)
    ensures variant.name in r.nameMap && r.nameMap[variant.name] == variant
    ensures variant.id in r.idMap && r.idMap[variant.id] == variant
    ensures r.names == catalog.names + [variant.name]
    ensures r.noVariant == (if variant.name == DEFAULT_VARIANT_NAME then Some(variant) else catalog.noVariant)
  {
    Catalog(
      catalog.nameMap[variant.name := variant],
      catalog.idMap[variant.id := variant],
      catalog.names + [variant.name],
      if variant.name == DEFAULT_VARIANT_NAME then Some(variant) else catalog.noVariant)
  }

  /** Recording a variant leaves every other name and ID where it was. */
  lemma RecordKeepsOthers(catalog: Catalog, variant: Variant)
    ensures Record(catalog, variant).nameMap.Keys == catalog.nameMap.Keys + {variant.name}
    ensures Record(catalog, variant).idMap.Keys == catalog.idMap.Keys + {variant.id}
    ensures forall n :: n in catalog.nameMap && n != variant.name ==> Record(catalog, variant).nameMap[n] == catalog.nameMap[n]
    ensures forall i :: i in catalog.idMap && i != variant.id ==> Record(catalog, variant).idMap[i] == catalog.idMap[i]
  {
  }

  /** The body of the loader's loop: one descriptor checked, converted and
      recorded. */
  function AddVariant(catalog: Catalog, json: VariantJson, colors: set<string>, suitTable: map<string, Suit>): (r: Result<Catalog, InitError>)
    ensures !r.Thrown?
  {
    if json.name == "" then Fatal(EmptyName)
    else if json.id < 0 then Fatal(InvalidId(json.name))
    else if json.name in catalog.nameMap then Fatal(DuplicateName(json.name))
    else
      var variant :- CompileVariant(json, colors, suitTable);
      if variant.id in catalog.idMap then Fatal(DuplicateId(variant.id))
      else Ok(Record(catalog, variant))
  }

  /** A pass succeeds exactly when the name is non-empty and new, the ID is
      non-negative and new and the descriptor compiles; it then records the
      compiled variant. */
  lemma AddVariantSucceedsIff(catalog: Catalog, json: VariantJson, colors: set<string>, suitTable: map<string, Suit>)
    ensures AddVariant(catalog, json, colors, suitTable).Ok? <==>
      && json.name != "" && json.id >= 0
      && json.name !in catalog.nameMap && json.id !in catalog.idMap
      && CompileVariant(json, colors, suitTable).Ok?
    ensures AddVariant(catalog, json, colors, suitTable).Ok? ==>
      AddVariant(catalog, json, colors, suitTable).value == Record(catalog, CompileVariant(json, colors, suitTable).value)
  {
  }

  /** The names of the descriptors, in order. Go descriptors are their own
      record type, so this is not the TypeScript compiler's `Names`. */
  function Names(variantsArray: seq<VariantJson>): (names: seq<string>)
    ensures |names| == |variantsArray|
    ensures forall i :: 0 <= i < |variantsArray| ==> names[i] == variantsArray[i].name
  {
    seq(|variantsArray|, i requires 0 <= i < |variantsArray| => variantsArray[i].name)
  }

  /** The IDs of the descriptors, in order (over Go descriptors, not the
      compiled TypeScript variants of `GameData.Ids`). */
  function Ids(variantsArray: seq<VariantJson>): (ids: seq<int>)
    ensures |ids| == |variantsArray|
    ensures forall i :: 0 <= i < |variantsArray| ==> ids[i] == variantsArray[i].id
  {
    seq(|variantsArray|, i requires 0 <= i < |variantsArray| => variantsArray[i].id)
  }

  /** What the loader's loop keeps true: the name list is the processed
      names, each once, and the name map has exactly those keys with each
      variant under its own name; the ID map has exactly the processed IDs,
      each once, with each variant under its own ID; and the default variant
      is recorded exactly when its name has been processed. */
  ghost predicate Invariant(catalog: Catalog, processed: seq<VariantJson>) {
    && catalog.names == Names(processed)
    && NoDuplicates(catalog.names)
    && (forall n :: n in catalog.nameMap <==> n in catalog.names)
    && (forall n :: n in catalog.nameMap ==> catalog.nameMap[n].name == n)
    && (forall k :: k in catalog.idMap <==> k in Ids(processed))
    && NoDuplicates(Ids(processed))
    && |catalog.idMap.Keys| == |processed|
    && (forall k :: k in catalog.idMap ==> catalog.idMap[k].id == k)
    && (catalog.noVariant.Some? <==> DEFAULT_VARIANT_NAME in catalog.nameMap)
    && (catalog.noVariant.Some? ==> catalog.noVariant.value == catalog.nameMap[DEFAULT_VARIANT_NAME])
  }

  /** The loader's loop: the descriptors added one after the other. */
  function AddAll(variantsArray: seq<VariantJson>, colors: set<string>, suitTable: map<string, Suit>): (r: Result<Catalog, InitError>)
    ensures !r.Thrown?
    decreases |variantsArray|
  {
    if variantsArray == [] then Ok(EMPTY_CATALOG)
    else
      var catalog :- AddAll(variantsArray[..|variantsArray| - 1], colors, suitTable);
      AddVariant(catalog, variantsArray[|variantsArray| - 1], colors, suitTable)
  }

  lemma AddVariantKeepsInvariant(catalog: Catalog, init: seq<VariantJson>, json: VariantJson, all: seq<VariantJson>, colors: set<string>, suitTable: map<string, Suit>)
    requires Invariant(catalog, init) && all == init + [json]
    requires AddVariant(catalog, json, colors, suitTable).Ok?
    ensures Invariant(AddVariant(catalog, json, colors, suitTable).value, all)
  {
    AddVariantSucceedsIff(catalog, json, colors, suitTable);
    NamesIdsSnoc(init, json, all);
    NoDuplicatesSnoc(Names(init), json.name);
    NoDuplicatesSnoc(Ids(init), json.id);
  }

  /** Every successful run of the loop leaves the loop's invariant. */
  lemma {:induction false} AddAllInvariant(variantsArray: seq<VariantJson>, colors: set<string>, suitTable: map<string, Suit>)
    requires AddAll(variantsArray, colors, suitTable).Ok?
    ensures Invariant(AddAll(variantsArray, colors, suitTable).value, variantsArray)
    decreases |variantsArray|
  {
    if variantsArray == [] {
      assert Names([]) == [] && Ids([]) == [];
    } else {
      var init, last := variantsArray[..|variantsArray| - 1], variantsArray[|variantsArray| - 1];
      assert variantsArray == init + [last];
      var catalog := AddAll(init, colors, suitTable).value;
      assert AddAll(variantsArray, colors, suitTable) == AddVariant(catalog, last, colors, suitTable);
      AddAllInvariant(init, colors, suitTable);
      AddVariantKeepsInvariant(catalog, init, last, variantsArray, colors, suitTable);
    }
  }

  /** The first ID from `from` below `n` missing from the ID map. */
  function FirstMissingId(idMap: map<int, Variant>, from: int, n: int): (r: Option<int>)
    ensures r.None? <==> forall i :: from <= i < n ==> i in idMap
    ensures r.Some? ==> from <= r.value < n && r.value !in idMap
    ensures r.Some? ==> forall i :: from <= i < r.value ==> i in idMap
    decreases n - from
  {
    if from >= n then None
    else if from !in idMap then Some(from)
    else FirstMissingId(idMap, from + 1, n)
  }

  /** `variantsInit` from line 26 on: the loop, then the check for skipped
      IDs, then the check for the default variant. */
  function LoadCatalog(variantsArray: seq<VariantJson>, colors: set<string>, suitTable: map<string, Suit>): (r: Result<Catalog, InitError>)
    ensures !r.Thrown?
  {
    var catalog :- AddAll(variantsArray, colors, suitTable);
    CheckLoaded(catalog)
  }

  /** The checks after the loop: no skipped ID, then the default variant seen. */
  function CheckLoaded(catalog: Catalog): (r: Result<Catalog, InitError>)
    ensures r.Ok? <==> (forall i :: 0 <= i < |catalog.names| ==> i in catalog.idMap) && catalog.noVariant.Some?
    ensures r.Ok? ==> r.value == catalog
    ensures !r.Ok? ==> r.Fatal?
  {
    match FirstMissingId(catalog.idMap, 0, |catalog.names|)
    case Some(id) => Fatal(MissingId(id))
    case None =>
      if catalog.noVariant.None? then Fatal(NoDefaultVariant) else Ok(catalog)
  }

  /** The integers 0 to n-1. */
  function Range(n: nat): (r: set<int>)
    ensures |r| == n
    ensures forall k :: k in r <==> 0 <= k < n
  {
    if n == 0 then {} else Range(n - 1) + {n - 1}
  }

  /** A set with n elements that holds 0 to n-1 holds nothing else. */
  lemma RangeBySize(ids: set<int>, n: nat)
    requires |ids| == n
    requires forall k :: 0 <= k < n ==> k in ids
    ensures forall k :: k in ids <==> 0 <= k < n
  {
    var range := Range(n);
    assert range <= ids;
    assert ids == (ids - range) + range;
    assert |ids - range| == 0;
  }

  /** After a successful load the names are distinct and in catalog order,
      the name map holds each variant under its name, the IDs are exactly
      0 to n-1 with each variant under its ID, and the default variant is
      the one of that name. */
  lemma LoadedCatalog(variantsArray: seq<VariantJson>, colors: set<string>, suitTable: map<string, Suit>)
    requires LoadCatalog(variantsArray, colors, suitTable).Ok?
    ensures var catalog := LoadCatalog(variantsArray, colors, suitTable).value;
      && catalog.names == Names(variantsArray)
      && NoDuplicates(catalog.names)
      && (forall n :: n in catalog.nameMap <==> n in catalog.names)
      && (forall n :: n in catalog.nameMap ==> catalog.nameMap[n].name == n)
      && (forall k :: k in catalog.idMap <==> 0 <= k < |variantsArray|)
      && (forall k :: k in catalog.idMap ==> catalog.idMap[k].id == k)
      && DEFAULT_VARIANT_NAME in catalog.nameMap
      && catalog.noVariant == Some(catalog.nameMap[DEFAULT_VARIANT_NAME])
  {
    AddAllInvariant(variantsArray, colors, suitTable);
    var catalog := AddAll(variantsArray, colors, suitTable).value;
    RangeBySize(catalog.idMap.Keys, |variantsArray|);
  }

  /** A descriptor with a non-empty name and a non-negative ID that compiles. */
  ghost predicate DescriptorOk(json: VariantJson, colors: set<string>, suitTable: map<string, Suit>) {
    json.name != "" && json.id >= 0 && CompileVariant(json, colors, suitTable).Ok?
  }

  /** The names and the IDs of the descriptors grown by one. */
  lemma NamesIdsSnoc(init: seq<VariantJson>, json: VariantJson, all: seq<VariantJson>)
    requires all == init + [json]
    ensures Names(all) == Names(init) + [json.name]
    ensures Ids(all) == Ids(init) + [json.id]
  {
  }

  /** All descriptors grown by one are acceptable exactly when the earlier
      ones and the new one are. */
  lemma DescriptorsOkSnoc(init: seq<VariantJson>, json: VariantJson, all: seq<VariantJson>, colors: set<string>, suitTable: map<string, Suit>)
    requires all == init + [json]
    ensures (forall i :: 0 <= i < |all| ==> DescriptorOk(all[i], colors, suitTable))
      <==> (forall i :: 0 <= i < |init| ==> DescriptorOk(init[i], colors, suitTable)) && DescriptorOk(json, colors, suitTable)
  {
    assert forall i :: 0 <= i < |init| ==> all[i] == init[i];
    assert all[|init|] == json;
    if forall i :: 0 <= i < |init| ==> DescriptorOk(init[i], colors, suitTable) {
      if DescriptorOk(json, colors, suitTable) {
        forall i | 0 <= i < |all| ensures DescriptorOk(all[i], colors, suitTable) {
          if i == |init| { assert all[i] == json; } else { assert all[i] == init[i]; }
        }
      }
    }
  }

  /** The loop succeeds exactly when each descriptor compiles with a
      non-empty name and non-negative ID and no name or ID repeats. */
  lemma {:induction false} AddAllSucceedsIff(variantsArray: seq<VariantJson>, colors: set<string>, suitTable: map<string, Suit>)
    ensures AddAll(variantsArray, colors, suitTable).Ok? <==>
      && (forall i :: 0 <= i < |variantsArray| ==> DescriptorOk(variantsArray[i], colors, suitTable))
      && NoDuplicates(Names(variantsArray))
      && NoDuplicates(Ids(variantsArray))
    decreases |variantsArray|
  {
    if variantsArray == [] {
      assert Names([]) == [] && Ids([]) == [];
    } else {
      var init := variantsArray[..|variantsArray| - 1];
      var json := variantsArray[|variantsArray| - 1];
      AddAllSucceedsIff(init, colors, suitTable);
      NamesIdsSnoc(init, json, variantsArray);
      DescriptorsOkSnoc(init, json, variantsArray, colors, suitTable);
      NoDuplicatesSnoc(Names(init), json.name);
      NoDuplicatesSnoc(Ids(init), json.id);
      var r := AddAll(init, colors, suitTable);
      if r.Ok? {
        assert AddAll(variantsArray, colors, suitTable) == AddVariant(r.value, json, colors, suitTable);
        AddAllInvariant(init, colors, suitTable);
        AddVariantSucceedsIff(r.value, json, colors, suitTable);
        assert json.name in r.value.nameMap <==> json.name in Names(init);
        assert json.id in r.value.idMap <==> json.id in Ids(init);
      } else {
        assert !AddAll(variantsArray, colors, suitTable).Ok?;
      }
    }
  }

  /** The load succeeds exactly when every descriptor compiles, names are
      non-empty and distinct, IDs are non-negative and distinct and cover
      0 to n-1, and the default variant is among the names. */
  ghost predicate Acceptable(variantsArray: seq<VariantJson>, colors: set<string>, suitTable: map<string, Suit>) {
    && (forall i :: 0 <= i < |variantsArray| ==> DescriptorOk(variantsArray[i], colors, suitTable))
    && NoDuplicates(Names(variantsArray))
    && NoDuplicates(Ids(variantsArray))
    && (forall k :: 0 <= k < |variantsArray| ==> k in Ids(variantsArray))
    && DEFAULT_VARIANT_NAME in Names(variantsArray)
  }

  lemma LoadCatalogSucceedsIff(variantsArray: seq<VariantJson>, colors: set<string>, suitTable: map<string, Suit>)
    ensures LoadCatalog(variantsArray, colors, suitTable).Ok? <==> Acceptable(variantsArray, colors, suitTable)
  {
    AddAllSucceedsIff(variantsArray, colors, suitTable);
    if AddAll(variantsArray, colors, suitTable).Ok? {
      AddAllInvariant(variantsArray, colors, suitTable);
    }
  }

  /** Each of the processed descriptors compiles, and the compiled variant
      is stored under its name and under its ID. */
  ghost predicate HoldsCompiled(catalog: Catalog, processed: seq<VariantJson>, colors: set<string>, suitTable: map<string, Suit>) {
    forall i :: 0 <= i < |processed| ==>
      && CompileVariant(processed[i], colors, suitTable).Ok?
      && processed[i].name in catalog.nameMap
      && processed[i].id in catalog.idMap
      && catalog.nameMap[processed[i].name] == CompileVariant(processed[i], colors, suitTable).value
      && catalog.idMap[processed[i].id] == CompileVariant(processed[i], colors, suitTable).value
  }

  lemma AddVariantKeepsCompiled(catalog: Catalog, init: seq<VariantJson>, json: VariantJson, all: seq<VariantJson>, colors: set<string>, suitTable: map<string, Suit>)
    requires Invariant(catalog, init) && HoldsCompiled(catalog, init, colors, suitTable)
    requires all == init + [json]
    requires AddVariant(catalog, json, colors, suitTable).Ok?
    ensures HoldsCompiled(AddVariant(catalog, json, colors, suitTable).value, all, colors, suitTable)
  {
    AddVariantSucceedsIff(catalog, json, colors, suitTable);
    forall i | 0 <= i < |init|
      ensures all[i] == init[i] && init[i].name != json.name && init[i].id != json.id
    {
      assert Names(init)[i] == init[i].name;
      assert Ids(init)[i] == init[i].id;
    }
  }

  /** Each loaded variant is its descriptor compiled, under its name and
      under its ID. */
  lemma {:induction false} AddAllEntries(variantsArray: seq<VariantJson>, colors: set<string>, suitTable: map<string, Suit>)
    requires AddAll(variantsArray, colors, suitTable).Ok?
    ensures HoldsCompiled(AddAll(variantsArray, colors, suitTable).value, variantsArray, colors, suitTable)
    decreases |variantsArray|
  {
    if variantsArray != [] {
      var init, last := variantsArray[..|variantsArray| - 1], variantsArray[|variantsArray| - 1];
      assert variantsArray == init + [last];
      var catalog := AddAll(init, colors, suitTable).value;
      assert AddAll(variantsArray, colors, suitTable) == AddVariant(catalog, last, colors, suitTable);
      AddAllEntries(init, colors, suitTable);
      AddAllInvariant(init, colors, suitTable);
      AddVariantKeepsCompiled(catalog, init, last, variantsArray, colors, suitTable);
    }
  }

  class Manager {
    var colors: set<string>
    var suits: map<string, Suit>
    var variantsNameMap: map<string, Variant>
    var variantsIdMap: map<int, Variant>
    var variantNames: seq<string>
    var noVariant: Option<Variant>

    /** A manager with its colour and suit tables loaded and no variants. */
    constructor (colors: set<string>, suits: map<string, Suit>)
      ensures this.colors == colors && this.suits == suits
      ensures Current() == EMPTY_CATALOG
    {
      this.colors := colors;
      this.suits := suits;
      variantsNameMap := map[];
      variantsIdMap := map[];
      variantNames := [];
      noVariant := None;
    }

    function Current(): Catalog
      reads this
    {
      Catalog(variantsNameMap, variantsIdMap, variantNames, noVariant)
    }

    /** The suits, clue colours and clue ranks of one descriptor checked and
        the variant built, with the loops of the loader. */
    method BuildVariant(json: VariantJson) returns (r: Result<Variant, InitError>)
      ensures r == CompileVariant(json, colors, suits)
    {
      if |json.suits| < 1 {
        return Fatal(NoSuits(json.name));
      }
      var variantSuits :- MapResultLoop(json.suits, (suits, json.name), ResolveSuit);
      var clueColors: seq<string>;
      if json.clueColors.None? {
        clueColors := DeriveLoop(variantSuits, TouchedByAll, SuitClueColors);
      } else {
        var checked :- MapResultLoop(json.clueColors.value, (colors, json.name), CheckColor);
        clueColors := json.clueColors.value;
      }
      var clueRanks := if json.clueRanks.Some? then json.clueRanks.value else DEFAULT_RANKS;
      var specialRank := json.specialRank;
      if specialRank == 0 {
        specialRank := -1;
      }
      return Ok(Variant(
        json.name, json.id, variantSuits, RanksOf(json.name), clueColors, clueRanks,
        json.colorCluesTouchNothing, json.rankCluesTouchNothing, specialRank,
        json.specialAllClueColors, json.specialAllClueRanks,
        json.specialNoClueColors, json.specialNoClueRanks, json.specialDeceptive,
        |variantSuits| * POINTS_PER_STACK));
    }

    /** One pass of the loader's loop. On a fatal error the process stops, so
        the state it leaves is not described. */
    method AddVariantJson(json: VariantJson) returns (fatal: Option<InitError>)
      modifies this
      ensures colors == old(colors) && suits == old(suits)
      ensures AddVariant(old(Current()), json, colors, suits).Ok? ==>
        fatal.None? && Current() == AddVariant(old(Current()), json, colors, suits).value
      ensures !AddVariant(old(Current()), json, colors, suits).Ok? ==>
        fatal == Some(AddVariant(old(Current()), json, colors, suits).error)
    {
      if json.name == "" {
        return Some(EmptyName);
      }
      if json.id < 0 {
        return Some(InvalidId(json.name));
      }
      if json.name in variantsNameMap {
        return Some(DuplicateName(json.name));
      }
      var variant := BuildVariant(json);
      if !variant.Ok? {
        return Some(variant.error);
      }
      variantsNameMap := variantsNameMap[json.name := variant.value];
      if json.name == DEFAULT_VARIANT_NAME {
        noVariant := Some(variant.value);
      }
      if json.id in variantsIdMap {
        return Some(DuplicateId(json.id));
      }
      variantsIdMap := variantsIdMap[json.id := variant.value];
      variantNames := variantNames + [json.name];
      return None;
    }

    /** The loader's loop over the descriptors, on a manager with no
        variants yet. */
    method AddVariantsJson(variantsArray: seq<VariantJson>) returns (fatal: Option<InitError>)
      requires Current() == EMPTY_CATALOG
      modifies this
      ensures colors == old(colors) && suits == old(suits)
      ensures AddAll(variantsArray, colors, suits).Ok? ==>
        fatal.None? && Current() == AddAll(variantsArray, colors, suits).value
      ensures !AddAll(variantsArray, colors, suits).Ok? ==>
        fatal == Some(AddAll(variantsArray, colors, suits).error)
    {
      for i := 0 to |variantsArray|
        invariant colors == old(colors) && suits == old(suits)
        invariant AddAll(variantsArray[..i], colors, suits) == Ok(Current())
      {
        var json := variantsArray[i];
        assert variantsArray[..i + 1][..i] == variantsArray[..i];
        fatal := AddVariantJson(json);
        if fatal.Some? {
          AddAllFirstFailure(variantsArray, colors, suits, i);
          return;
        }
      }
      assert variantsArray[..|variantsArray|] == variantsArray;
      return None;
    }

    /** `variantsInit` from line 26 on, on a manager with no variants yet. */
    method VariantsInit(variantsArray: seq<VariantJson>) returns (fatal: Option<InitError>)
      requires Current() == EMPTY_CATALOG
      modifies this
      ensures colors == old(colors) && suits == old(suits)
      ensures LoadCatalog(variantsArray, colors, suits).Ok? ==>
        fatal.None? && Current() == LoadCatalog(variantsArray, colors, suits).value
      ensures !LoadCatalog(variantsArray, colors, suits).Ok? ==>
        fatal == Some(LoadCatalog(variantsArray, colors, suits).error)
    {
      fatal := AddVariantsJson(variantsArray);
      if fatal.None? {
        fatal := CheckLoadedJson();
      }
    }

    /** The check for skipped IDs and the check for the default variant. */
    method CheckLoadedJson() returns (fatal: Option<InitError>)
      ensures CheckLoaded(Current()).Ok? ==> fatal.None?
      ensures !CheckLoaded(Current()).Ok? ==> fatal == Some(CheckLoaded(Current()).error)
    {
      for i := 0 to |variantNames|
        invariant forall j :: 0 <= j < i ==> j in variantsIdMap
      {
        if i !in variantsIdMap {
          return Some(MissingId(i));
        }
      }
      if noVariant.None? {
        return Some(NoDefaultVariant);
      }
      return None;
    }
  }

  /** A failing pass ends the loop with its error. */
  lemma {:induction false} AddAllFirstFailure(variantsArray: seq<VariantJson>, colors: set<string>, suitTable: map<string, Suit>, k: nat)
    requires k < |variantsArray|
    requires AddAll(variantsArray[..k], colors, suitTable).Ok?
    requires !AddVariant(AddAll(variantsArray[..k], colors, suitTable).value, variantsArray[k], colors, suitTable).Ok?
    ensures AddAll(variantsArray, colors, suitTable)
      == AddVariant(AddAll(variantsArray[..k], colors, suitTable).value, variantsArray[k], colors, suitTable).PropagateFailure()
    decreases |variantsArray|
  {
    var init := variantsArray[..|variantsArray| - 1];
    if k < |variantsArray| - 1 {
      assert init[..k] == variantsArray[..k];
      AddAllFirstFailure(init, colors, suitTable, k);
    } else {
      assert init == variantsArray[..k];
    }
  }

}
