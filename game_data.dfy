/** The TypeScript data package's registry: the character, colour and suit
    tables, the variants compiled from the catalog keyed by name, the same
    variants keyed by ID, and the lookups over them, each of which throws
    when its key is missing. */
module GameData {
  import opened Wrappers
  import opened Seqs
  import opened JsMaps
  import opened DataTypes
  import opened VariantsInit

  /** The name of the variant used by default; its text is defined outside
      this model. */
  const DEFAULT_VARIANT_NAME: string

  /** An entry of the character table (its fields are not read here). */
  datatype Character = Character(id: int, name: string)

  datatype LookupError =
    | SuitNotFound(suitName: string)
    | VariantNotFound(variantName: string)
    | VariantIdNotFound(variantId: int)
    | CharacterNotFound(characterId: int)

  /** The module-level tables. */
  datatype Registry = Registry(
    characters: map<int, Character>,
    suits: map<string, Suit>,
    variants: JsMap<string, Variant>,
    variantsById: JsMap<int, Variant>)

  /** The values of a map, in the order of its keys (`map.values()`). */
  function Values<K(==,!new), V>(m: JsMap<K, V>): (vs: seq<V>)
    requires m.Valid()
    ensures |vs| == |m.keys|
    ensures forall i :: 0 <= i < |m.keys| ==> vs[i] == m.entries[m.keys[i]]
  {
    seq(|m.keys|, i requires 0 <= i < |m.keys| => m.entries[m.keys[i]])
  }

  /** The variants set one after the other into a map keyed by ID. */
  function IndexById(variants: seq<Variant>): (byId: JsMap<int, Variant>)
    ensures byId.Valid()
    decreases |variants|
  {
    if variants == [] then Empty()
    else
      var variant := variants[|variants| - 1];
      IndexById(variants[..|variants| - 1]).Set(variant.id, variant)
  }

  /** The IDs of the variants, in order. */
  function Ids(variants: seq<Variant>): (ids: seq<int>)
    ensures |ids| == |variants|
    ensures forall i :: 0 <= i < |variants| ==> ids[i] == variants[i].id
  {
    seq(|variants|, i requires 0 <= i < |variants| => variants[i].id)
  }

  /** The IDs of the variants grown by one. */
  lemma IdsSnoc(init: seq<Variant>, variant: Variant, variants: seq<Variant>)
    requires variants == init + [variant]
    ensures Ids(variants) == Ids(init) + [variant.id]
  {
  }

  /** Whether variant `i` is the last one with its ID. */
  predicate LastWithId(variants: seq<Variant>, i: int) {
    0 <= i < |variants| && forall j :: i < j < |variants| ==> variants[j].id != variants[i].id
  }

  /** The by-ID map holds every ID once, in the order the IDs first appear,
      and maps each ID to the last variant with that ID. */
  lemma {:induction false} IndexByIdKeys(variants: seq<Variant>)
    ensures IndexById(variants).keys == Dedup(Ids(variants))
    decreases |variants|
  {
    if variants != [] {
      var init := variants[..|variants| - 1];
      var variant := variants[|variants| - 1];
      assert variants == init + [variant];
      var byId := IndexById(init);
      var m := byId.Set(variant.id, variant);
      assert IndexById(variants) == m;
      IndexByIdKeys(init);
      assert variant.id in byId.entries <==> variant.id in Dedup(Ids(init));
      DedupSnoc(Ids(init), variant.id);
      IdsSnoc(init, variant, variants);
      assert m.keys == Dedup(Ids(init) + [variant.id]);
    }
  }

  lemma {:induction false} IndexByIdLastWins(variants: seq<Variant>, i: int)
    requires LastWithId(variants, i)
    ensures IndexById(variants).Get(variants[i].id) == Some(variants[i])
    decreases |variants|
  {
    var init := variants[..|variants| - 1];
    if i < |init| {
      assert init[i] == variants[i];
      assert LastWithId(init, i);
      IndexByIdLastWins(init, i);
    }
  }

  /** Every variant's ID is a key of the by-ID map, and the entry there has
      that ID. */
  lemma {:induction false} IndexByIdCovers(variants: seq<Variant>)
    ensures forall i :: 0 <= i < |variants| ==>
      IndexById(variants).Get(variants[i].id).Some? && IndexById(variants).Get(variants[i].id).value.id == variants[i].id
    decreases |variants|
  {
    if variants != [] {
      var init := variants[..|variants| - 1];
      IndexByIdCovers(init);
      assert forall i :: 0 <= i < |init| ==> init[i] == variants[i];
    }
  }

  /** With distinct IDs the by-ID map gives back each variant exactly. */
  lemma IndexByIdDistinct(variants: seq<Variant>)
    requires NoDuplicates(Ids(variants))
    ensures forall i :: 0 <= i < |variants| ==> IndexById(variants).Get(variants[i].id) == Some(variants[i])
  {
    forall i | 0 <= i < |variants| ensures IndexById(variants).Get(variants[i].id) == Some(variants[i]) {
      assert Ids(variants)[i] == variants[i].id;
      IndexByIdLastWins(variants, i);
    }
  }

  /** `VARIANTS_BY_ID`: the loop over the variants by name, setting each
      under its ID. */
  method BuildVariantsById(variants: JsMap<string, Variant>) returns (byId: JsMap<int, Variant>)
    requires variants.Valid()
    ensures byId == IndexById(Values(variants))
  {
    byId := Empty();
    for i := 0 to |variants.keys|
      invariant byId == IndexById(Values(variants)[..i])
    {
      var variant := variants.entries[variants.keys[i]];
      assert Values(variants)[..i + 1][..i] == Values(variants)[..i];
      byId := byId.Set(variant.id, variant);
    }
    assert Values(variants)[..|variants.keys|] == Values(variants);
  }

  /** The module's initialisation: the catalog compiled, then indexed by ID. */
  function InitRegistry(characters: map<int, Character>, catalog: seq<VariantJson>, tables: Tables): (r: Result<Registry, InitError>)
    ensures r.Ok? ==> Consistent(r.value)
  {
    var variants :- CompileCatalog(catalog, tables);
    Ok(Registry(characters, tables.suits, variants, IndexById(Values(variants))))
  }

  /** The by-name map is well formed and the by-ID map is built from it. */
  ghost predicate Consistent(registry: Registry) {
    registry.variants.Valid() && registry.variantsById == IndexById(Values(registry.variants))
  }

  /** `getSuit`. */
  function GetSuit(registry: Registry, suitName: string): (r: Result<Suit, LookupError>)
    ensures r.Ok? <==> suitName in registry.suits
    ensures r.Ok? ==> r.value == registry.suits[suitName]
    ensures !r.Ok? ==> r == Thrown(SuitNotFound(suitName))
  {
    if suitName in registry.suits then Ok(registry.suits[suitName]) else Thrown(SuitNotFound(suitName))
  }

  /** `getVariant`. */
  function GetVariant(registry: Registry, variantName: string): (r: Result<Variant, LookupError>)
    ensures r.Ok? <==> variantName in registry.variants.entries
    ensures r.Ok? ==> registry.variants.Get(variantName) == Some(r.value)
    ensures !r.Ok? ==> r == Thrown(VariantNotFound(variantName))
  {
    match registry.variants.Get(variantName)
    case Some(variant) => Ok(variant)
    case None => Thrown(VariantNotFound(variantName))
  }

  /** `getVariantByID`. */
  function GetVariantById(registry: Registry, variantId: int): (r: Result<Variant, LookupError>)
    ensures r.Ok? <==> variantId in registry.variantsById.entries
    ensures r.Ok? ==> registry.variantsById.Get(variantId) == Some(r.value)
    ensures !r.Ok? ==> r == Thrown(VariantIdNotFound(variantId))
  {
    match registry.variantsById.Get(variantId)
    case Some(variant) => Ok(variant)
    case None => Thrown(VariantIdNotFound(variantId))
  }

  /** `getDefaultVariant`. */
  function GetDefaultVariant(registry: Registry): (r: Result<Variant, LookupError>)
    ensures r.Ok? <==> DoesVariantExist(registry, DEFAULT_VARIANT_NAME)
    ensures r.Ok? ==> registry.variants.Get(DEFAULT_VARIANT_NAME) == Some(r.value)
    ensures !r.Ok? ==> r == Thrown(VariantNotFound(DEFAULT_VARIANT_NAME))
  {
    GetVariant(registry, DEFAULT_VARIANT_NAME)
  }

  /** `getVariantNames`. */
  function GetVariantNames(registry: Registry): (names: seq<string>)
    requires registry.variants.Valid()
    ensures names == registry.variants.keys
    ensures NoDuplicates(names)
    ensures forall n :: n in names <==> DoesVariantExist(registry, n)
  {
    registry.variants.keys
  }

  /** `doesVariantExist`. */
  function DoesVariantExist(registry: Registry, variantName: string): bool {
    variantName in registry.variants.entries
  }

  /** `getCharacter`. */
  function GetCharacter(registry: Registry, characterId: int): (r: Result<Character, LookupError>)
    ensures r.Ok? <==> characterId in registry.characters
    ensures r.Ok? ==> r.value == registry.characters[characterId]
    ensures !r.Ok? ==> r == Thrown(CharacterNotFound(characterId))
  {
    if characterId in registry.characters then Ok(registry.characters[characterId])
    else Thrown(CharacterNotFound(characterId))
  }

  /** A name exists exactly when looking it up does not throw, and it is
      then among the listed names. */
  lemma DoesVariantExistIff(registry: Registry, variantName: string)
    requires registry.variants.Valid()
    ensures DoesVariantExist(registry, variantName) <==> GetVariant(registry, variantName).Ok?
    ensures DoesVariantExist(registry, variantName) <==> variantName in GetVariantNames(registry)
  {
  }

  /** In a consistent registry, every variant found by name is found by its
      ID, with that ID; when the IDs are distinct it is the same variant. */
  lemma VariantByIdAgrees(registry: Registry, variantName: string)
    requires Consistent(registry)
    requires GetVariant(registry, variantName).Ok?
    ensures GetVariantById(registry, GetVariant(registry, variantName).value.id).Ok?
    ensures GetVariantById(registry, GetVariant(registry, variantName).value.id).value.id == GetVariant(registry, variantName).value.id
    ensures NoDuplicates(Ids(Values(registry.variants))) ==>
      GetVariantById(registry, GetVariant(registry, variantName).value.id) == GetVariant(registry, variantName)
  {
    var values := Values(registry.variants);
    var k := IndexOf(registry.variants.keys, variantName);
    assert values[k] == GetVariant(registry, variantName).value;
    IndexByIdCovers(values);
    if NoDuplicates(Ids(values)) {
      IndexByIdDistinct(values);
    }
  }

  /** The IDs listed by the by-ID map are the variants' IDs, each once, in
      the order of the names. */
  lemma VariantIdsListed(registry: Registry)
    requires Consistent(registry)
    ensures registry.variantsById.keys == Dedup(Ids(Values(registry.variants)))
  {
    IndexByIdKeys(Values(registry.variants));
  }

  /** In a registry built from a catalog, the variant names are the
      catalog's names, each once, in the order they first appear; a name
      exists exactly when the catalog has it; and looking a name up gives
      the variant compiled from the last descriptor with that name. */
  lemma InitRegistryContents(characters: map<int, Character>, catalog: seq<VariantJson>, tables: Tables, registry: Registry)
    requires InitRegistry(characters, catalog, tables) == Ok(registry)
    ensures registry.variants.Valid()
    ensures GetVariantNames(registry) == Dedup(Names(catalog))
    ensures forall n :: DoesVariantExist(registry, n) <==> n in Names(catalog)
    ensures forall i :: LastWithName(catalog, i) ==>
      CompileVariant(catalog[i], tables).Ok? &&
      GetVariant(registry, catalog[i].name) == Ok(CompileVariant(catalog[i], tables).value)
  {
    var variants := CompileCatalog(catalog, tables).value;
    assert registry.variants == variants;
    CatalogContents(catalog, tables);
    DedupSpec(Names(catalog));
  }
}
