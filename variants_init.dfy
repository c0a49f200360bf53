/** The TypeScript catalog compiler (`variantsInit`): each descriptor of the
    variant catalog is validated and resolved against the colour and suit
    tables into a `Variant`, and the variants are collected in a map keyed
    by name. Every rejection is a thrown error. */
module VariantsInit {
  import opened Wrappers
  import opened Strings
  import opened Seqs
  import opened ClueColors
  import opened JsMaps
  import opened DataTypes

  /** The package's default card ranks and clue ranks; their contents are
      defined outside this model. */
  const DEFAULT_CARD_RANKS: seq<int>
  const DEFAULT_CLUE_RANKS: seq<int>

  /** Variants whose name starts with this have START cards. */
  const UP_OR_DOWN_PREFIX := "Up or Down"

  /** Cards per stack, for the maximum score. */
  const CARDS_PER_STACK := 5

  datatype InitError =
    | EmptyCatalog
    | EmptyName
    | InvalidId(name: string)
    | MissingSuits(name: string)
    | SuitsNotArray(name: string)
    | EmptySuits(name: string)
    | SuitNotString(name: string)
    | UnknownSuit(suitName: string, name: string)
    | ClueColorsNotArray(name: string)
    | ClueColorNotString(name: string)
    | UnknownColor(colorName: string, name: string)
    | ClueRanksNotArray(name: string)
    | ClueRankNotNumber(name: string)
    | FlagNotTrue(key: string, name: string)
    | SpecialRankNotNumber(name: string)
    | SpecialRankOutOfRange(name: string)

  /** The helpers the compiler imports from other files of the package. */
  datatype Helpers = Helpers(
    suitAbbreviations: (string, seq<Suit>) -> seq<string>,
    identityNotePattern: (seq<Suit>, seq<int>, seq<string>, bool) -> string,
    isNameUpOrDown: string -> bool)

  /** What the compiler works with: the colour and suit tables and the START
      card rank it is given, and the helpers it imports. */
  datatype Tables = Tables(colors: map<string, Color>, suits: map<string, Suit>, startCardRank: int, helpers: Helpers)

  /** One entry of a descriptor's suit list, looked up by name in the suit
      table; `context` is the suit table and the variant's name. */
  function ResolveSuit(suitName: Json, context: (map<string, Suit>, string)): (r: Result<Suit, InitError>)
    ensures !r.Fatal?
  {
    if !suitName.JStr? then Thrown(SuitNotString(context.1))
    else if suitName.str !in context.0 then Thrown(UnknownSuit(suitName.str, context.1))
    else Ok(context.0[suitName.str])
  }

  /** One entry of a descriptor's clue-colour list, looked up in the colour table. */
  function ResolveColor(colorName: Json, context: (map<string, Color>, string)): (r: Result<Color, InitError>)
    ensures !r.Fatal?
  {
    if !colorName.JStr? then Thrown(ClueColorNotString(context.1))
    else if colorName.str !in context.0 then Thrown(UnknownColor(colorName.str, context.1))
    else Ok(context.0[colorName.str])
  }

  /** One entry of a descriptor's clue-rank list, which must be a number. */
  function CheckClueRank(rank: Json, name: string): (r: Result<int, InitError>)
    ensures !r.Fatal?
  {
    if !rank.JNum? then Thrown(ClueRankNotNumber(name)) else Ok(rank.n)
  }

  /** Whether a suit is touched by every colour, and its clue colours: how
      the shared derivation sees this compiler's suits. */
  function TouchedByAll(suit: Suit): bool {
    suit.allClueColors
  }

  function SuitClueColors(suit: Suit): seq<Color> {
    suit.clueColors
  }

  /** The clue colours of a variant whose descriptor names none
      (`ClueColors.Derive`). */
  function DeriveClueColors(suits: seq<Suit>): seq<Color> {
    Derive(suits, TouchedByAll, SuitClueColors)
  }


  /** The clue colours: those listed by the descriptor, or derived from the suits. */
  function ClueColorsOf(json: VariantJson, COLORS: map<string, Color>, suits: seq<Suit>): (r: Result<seq<Color>, InitError>)
    ensures !r.Fatal?
  {
    if CLUE_COLORS_KEY in json.fields then
      var listed := json.fields[CLUE_COLORS_KEY];
      if !listed.JArr? then Thrown(ClueColorsNotArray(json.name))
      else MapResult(listed.items, (COLORS, json.name), ResolveColor)
    else Ok(DeriveClueColors(suits))
  }

  /** The clue ranks: those listed by the descriptor, or the defaults. */
  function ClueRanksOf(json: VariantJson): (r: Result<seq<int>, InitError>)
    ensures !r.Fatal?
  {
    if CLUE_RANKS_KEY in json.fields then
      var listed := json.fields[CLUE_RANKS_KEY];
      if !listed.JArr? then Thrown(ClueRanksNotArray(json.name))
      else MapResult(listed.items, json.name, CheckClueRank)
    else Ok(DEFAULT_CLUE_RANKS)
  }

  /** An optional property that is absent or `true`. */
  predicate FlagAcceptable(json: VariantJson, key: string) {
    key in json.fields ==> json.fields[key] == JBool(true)
  }

  /** The `true`-only properties checked before the special rank, and those
      checked after it, each list in the compiler's order. */
  const FLAGS_BEFORE_SPECIAL_RANK: seq<string> := ["colorCluesTouchNothing", "rankCluesTouchNothing"]
  const FLAGS_AFTER_SPECIAL_RANK: seq<string> := [
    "specialAllClueColors", "specialAllClueRanks", "specialNoClueColors", "specialNoClueRanks",
    "specialDeceptive", "oddsAndEvens", "funnels", "chimneys", SHOW_SUIT_NAMES_KEY]

  /** The checks of a run of `true`-only properties, in order: the first one
      present with another value is the error. */
  function CheckFlags(json: VariantJson, keys: seq<string>): (r: Result<bool, InitError>)
    ensures r.Ok? <==> forall i :: 0 <= i < |keys| ==> FlagAcceptable(json, keys[i])
    ensures !r.Ok? ==> exists i :: (0 <= i < |keys| && r == Thrown(FlagNotTrue(keys[i], json.name))
      && !FlagAcceptable(json, keys[i]) && forall j :: 0 <= j < i ==> FlagAcceptable(json, keys[j]))
    decreases |keys|
  {
    if keys == [] then Ok(true)
    else if !FlagAcceptable(json, keys[0]) then Thrown(FlagNotTrue(keys[0], json.name))
    else
      var r := CheckFlags(json, keys[1..]);
      assert forall i :: 1 <= i < |keys| ==> keys[1..][i - 1] == keys[i];
      if !r.Ok? then
        var k :| 0 <= k < |keys| - 1 && r == Thrown(FlagNotTrue(keys[1..][k], json.name))
          && !FlagAcceptable(json, keys[1..][k]) && forall j :: 0 <= j < k ==> FlagAcceptable(json, keys[1..][j]);
        assert forall j :: 0 <= j < k + 1 ==> FlagAcceptable(json, keys[j]) by {
          forall j | 0 <= j < k + 1 ensures FlagAcceptable(json, keys[j]) {
            if j > 0 { assert keys[j] == keys[1..][j - 1]; }
          }
        }
        r
      else r
  }

  /** The special rank: a number from 1 to 5 when given, otherwise -1. */
  function SpecialRankOf(json: VariantJson): (r: Result<int, InitError>)
    ensures !r.Fatal?
    ensures r.Ok? <==> (SPECIAL_RANK_KEY !in json.fields
      || (json.fields[SPECIAL_RANK_KEY].JNum? && 1 <= json.fields[SPECIAL_RANK_KEY].n <= 5))
    ensures r.Ok? && SPECIAL_RANK_KEY !in json.fields ==> r.value == -1
    ensures r.Ok? && SPECIAL_RANK_KEY in json.fields ==> json.fields[SPECIAL_RANK_KEY] == JNum(r.value)
    ensures r.Thrown? ==> (SPECIAL_RANK_KEY in json.fields && r.error ==
      (if json.fields[SPECIAL_RANK_KEY].JNum? then SpecialRankOutOfRange(json.name) else SpecialRankNotNumber(json.name)))
  {
    if SPECIAL_RANK_KEY in json.fields then
      var rank := json.fields[SPECIAL_RANK_KEY];
      if !rank.JNum? then Thrown(SpecialRankNotNumber(json.name))
      else if rank.n < 1 || rank.n > 5 then Thrown(SpecialRankOutOfRange(json.name))
      else Ok(rank.n)
    else Ok(-1)
  }

  predicate SomeSuitReversed(suits: seq<Suit>) {
    exists i :: 0 <= i < |suits| && suits[i].reversed
  }

  predicate SomeSuitMultiColored(suits: seq<Suit>) {
    exists i :: 0 <= i < |suits| && |suits[i].clueColors| > 1
  }

  /** The suit list of a descriptor, when it has one. */
  function SuitList(json: VariantJson): seq<Json> {
    if SUITS_KEY in json.fields && json.fields[SUITS_KEY].JArr? then json.fields[SUITS_KEY].items else []
  }

  /** The ranks of the cards of each suit: the defaults, and the START rank
      for the "Up or Down" variants. */
  function RanksOf(name: string, startCardRank: int): (ranks: seq<int>)
    ensures |DEFAULT_CARD_RANKS| <= |ranks| && ranks[..|DEFAULT_CARD_RANKS|] == DEFAULT_CARD_RANKS
    ensures |ranks| == |DEFAULT_CARD_RANKS| + 1 <==> StartsWith(name, UP_OR_DOWN_PREFIX)
    ensures |ranks| == |DEFAULT_CARD_RANKS| + 1 ==> ranks[|DEFAULT_CARD_RANKS|] == startCardRank
  {
    DEFAULT_CARD_RANKS + (if StartsWith(name, UP_OR_DOWN_PREFIX) then [startCardRank] else [])
  }

  /** One descriptor validated and resolved, the checks in the order the
      compiler makes them (the first one that fails is the error). */
  function CompileVariant(json: VariantJson, tables: Tables): (r: Result<Variant, InitError>)
    ensures !r.Fatal?
  {
    var name := json.name;
    if name == "" then Thrown(EmptyName)
    else if json.id < 0 then Thrown(InvalidId(name))
    else if SUITS_KEY !in json.fields then Thrown(MissingSuits(name))
    else if !json.fields[SUITS_KEY].JArr? then Thrown(SuitsNotArray(name))
    else if |json.fields[SUITS_KEY].items| == 0 then Thrown(EmptySuits(name))
    else
      var suits :- MapResult(json.fields[SUITS_KEY].items, (tables.suits, name), ResolveSuit);
      var ranks := RanksOf(name, tables.startCardRank);
      var clueColors :- ClueColorsOf(json, tables.colors, suits);
      var clueRanks :- ClueRanksOf(json);
      CompileFlags(json, suits, ranks, clueColors, clueRanks, tables.helpers)
  }

  /** The optional properties and the derived fields of a descriptor whose
      suits, clue colours and clue ranks are resolved. */
  function CompileFlags(json: VariantJson, suits: seq<Suit>, ranks: seq<int>, clueColors: seq<Color>, clueRanks: seq<int>, helpers: Helpers): (r: Result<Variant, InitError>)
    ensures !r.Fatal?
  {
    var name := json.name;
    var checkedBefore :- CheckFlags(json, FLAGS_BEFORE_SPECIAL_RANK);
    var specialRank :- SpecialRankOf(json);
    var checkedAfter :- CheckFlags(json, FLAGS_AFTER_SPECIAL_RANK);
    var suitAbbreviations := helpers.suitAbbreviations(name, suits);
    Ok(Variant(
      name, json.id, suits, ranks, clueColors, clueRanks,
      "colorCluesTouchNothing" in json.fields, "rankCluesTouchNothing" in json.fields, specialRank,
      "specialAllClueColors" in json.fields, "specialAllClueRanks" in json.fields,
      "specialNoClueColors" in json.fields, "specialNoClueRanks" in json.fields,
      "specialDeceptive" in json.fields, "oddsAndEvens" in json.fields,
      "funnels" in json.fields, "chimneys" in json.fields,
      SHOW_SUIT_NAMES_KEY in json.fields || SomeSuitReversed(suits),
      |suits| * CARDS_PER_STACK,
      SomeSuitMultiColored(suits),
      suitAbbreviations,
      helpers.identityNotePattern(suits, ranks, suitAbbreviations, helpers.isNameUpOrDown(name))))
  }

  /** The optional properties of an acceptable descriptor. */
  predicate FlagsAcceptable(json: VariantJson) {
    && (forall key :: key in FLAGS_BEFORE_SPECIAL_RANK + FLAGS_AFTER_SPECIAL_RANK ==> FlagAcceptable(json, key))
    && (SPECIAL_RANK_KEY in json.fields ==>
          json.fields[SPECIAL_RANK_KEY].JNum? && 1 <= json.fields[SPECIAL_RANK_KEY].n <= 5)
  }

  /** The optional properties pass exactly when each is acceptable. */
  lemma CompileFlagsOkIff(json: VariantJson, suits: seq<Suit>, ranks: seq<int>, clueColors: seq<Color>, clueRanks: seq<int>, helpers: Helpers)
    ensures CompileFlags(json, suits, ranks, clueColors, clueRanks, helpers).Ok? <==> FlagsAcceptable(json)
  {
    var before, after := FLAGS_BEFORE_SPECIAL_RANK, FLAGS_AFTER_SPECIAL_RANK;
    assert forall key :: key in before + after <==> key in before || key in after;
  }

  /** Each optional property is true in the variant exactly when the
      descriptor has it; the special rank is in range or -1; suit names are
      shown when asked for or when a suit is reversed; five points per suit;
      corner elements are offset when a suit has several clue colours. */
  lemma CompileFlagsFields(json: VariantJson, suits: seq<Suit>, ranks: seq<int>, clueColors: seq<Color>, clueRanks: seq<int>, helpers: Helpers)
    requires CompileFlags(json, suits, ranks, clueColors, clueRanks, helpers).Ok?
    ensures var v := CompileFlags(json, suits, ranks, clueColors, clueRanks, helpers).value;
      && v.name == json.name && v.id == json.id && v.suits == suits && v.ranks == ranks
      && v.clueColors == clueColors && v.clueRanks == clueRanks
      && (v.colorCluesTouchNothing <==> "colorCluesTouchNothing" in json.fields)
      && (v.rankCluesTouchNothing <==> "rankCluesTouchNothing" in json.fields)
      && (v.specialAllClueColors <==> "specialAllClueColors" in json.fields)
      && (v.specialAllClueRanks <==> "specialAllClueRanks" in json.fields)
      && (v.specialNoClueColors <==> "specialNoClueColors" in json.fields)
      && (v.specialNoClueRanks <==> "specialNoClueRanks" in json.fields)
      && (v.specialDeceptive <==> "specialDeceptive" in json.fields)
      && (v.oddsAndEvens <==> "oddsAndEvens" in json.fields)
      && (v.funnels <==> "funnels" in json.fields)
      && (v.chimneys <==> "chimneys" in json.fields)
      && (v.specialRank == -1 || 1 <= v.specialRank <= 5)
      && (v.specialRank == -1 <==> SPECIAL_RANK_KEY !in json.fields)
      && (SPECIAL_RANK_KEY in json.fields ==> json.fields[SPECIAL_RANK_KEY] == JNum(v.specialRank))
      && (v.showSuitNames <==> SHOW_SUIT_NAMES_KEY in json.fields || SomeSuitReversed(suits))
      && v.maxScore == CARDS_PER_STACK * |suits|
      && (v.offsetCornerElements <==> SomeSuitMultiColored(suits))
      && v.suitAbbreviations == helpers.suitAbbreviations(json.name, suits)
      && v.identityNotePattern == helpers.identityNotePattern(suits, ranks, v.suitAbbreviations, helpers.isNameUpOrDown(json.name))
  {
  }

  /** What a descriptor must satisfy to be accepted, stated without the order
      of the checks. */
  predicate Acceptable(json: VariantJson, tables: Tables) {
    && json.name != ""
    && json.id >= 0
    && SUITS_KEY in json.fields && json.fields[SUITS_KEY].JArr? && |json.fields[SUITS_KEY].items| > 0
    && SuitsKnown(json, tables.suits)
    && ClueColorsAcceptable(json, tables.colors)
    && ClueRanksAcceptable(json)
    && FlagsAcceptable(json)
  }

  /** Every listed suit is a name in the suit table. */
  predicate SuitsKnown(json: VariantJson, SUITS: map<string, Suit>) {
    forall s :: s in SuitList(json) ==> s.JStr? && s.str in SUITS
  }

  /** Clue colours, when given, are an array of names in the colour table. */
  predicate ClueColorsAcceptable(json: VariantJson, COLORS: map<string, Color>) {
    CLUE_COLORS_KEY in json.fields ==>
      && json.fields[CLUE_COLORS_KEY].JArr?
      && forall c :: c in json.fields[CLUE_COLORS_KEY].items ==> c.JStr? && c.str in COLORS
  }

  /** Clue ranks, when given, are an array of numbers. */
  predicate ClueRanksAcceptable(json: VariantJson) {
    CLUE_RANKS_KEY in json.fields ==>
      && json.fields[CLUE_RANKS_KEY].JArr?
      && forall n :: n in json.fields[CLUE_RANKS_KEY].items ==> n.JNum?
  }

  /** The suits resolve exactly when each is a known name. */
  lemma SuitsResolveIff(json: VariantJson, SUITS: map<string, Suit>)
    ensures MapResult(SuitList(json), (SUITS, json.name), ResolveSuit).Ok? <==> SuitsKnown(json, SUITS)
  {
    var items := SuitList(json);
    assert (forall i :: 0 <= i < |items| ==> ResolveSuit(items[i], (SUITS, json.name)).Ok?)
      <==> (forall s :: s in items ==> s.JStr? && s.str in SUITS);
  }

  /** The clue colours are read without error exactly when acceptable,
      whatever the suits. */
  lemma ClueColorsOkIff(json: VariantJson, COLORS: map<string, Color>, suits: seq<Suit>)
    ensures ClueColorsOf(json, COLORS, suits).Ok? <==> ClueColorsAcceptable(json, COLORS)
  {
    if CLUE_COLORS_KEY in json.fields && json.fields[CLUE_COLORS_KEY].JArr? {
      var items := json.fields[CLUE_COLORS_KEY].items;
      assert (forall i :: 0 <= i < |items| ==> ResolveColor(items[i], (COLORS, json.name)).Ok?)
        <==> (forall c :: c in items ==> c.JStr? && c.str in COLORS);
    }
  }

  /** The clue ranks are read without error exactly when acceptable. */
  lemma ClueRanksOkIff(json: VariantJson)
    ensures ClueRanksOf(json).Ok? <==> ClueRanksAcceptable(json)
  {
    if CLUE_RANKS_KEY in json.fields && json.fields[CLUE_RANKS_KEY].JArr? {
      var items := json.fields[CLUE_RANKS_KEY].items;
      assert (forall i :: 0 <= i < |items| ==> CheckClueRank(items[i], json.name).Ok?)
        <==> (forall n :: n in items ==> n.JNum?);
    }
  }

  lemma CompileVariantAcceptsIff(json: VariantJson, tables: Tables)
    ensures CompileVariant(json, tables).Ok? <==> Acceptable(json, tables)
  {
    var items := SuitList(json);
    SuitsResolveIff(json, tables.suits);
    ClueRanksOkIff(json);
    if json.name != "" && json.id >= 0 && |items| > 0 && SUITS_KEY in json.fields && json.fields[SUITS_KEY].JArr? {
      var suits := MapResult(items, (tables.suits, json.name), ResolveSuit);
      if suits.Ok? {
        ClueColorsOkIff(json, tables.colors, suits.value);
        var clueColors := ClueColorsOf(json, tables.colors, suits.value);
        var clueRanks := ClueRanksOf(json);
        if clueColors.Ok? && clueRanks.Ok? {
          CompileFlagsOkIff(json, suits.value, RanksOf(json.name, tables.startCardRank), clueColors.value, clueRanks.value, tables.helpers);
        }
      }
    }
  }

  /** What a compiled variant holds: the descriptor's name and ID, its suits
      looked up in order, the START rank for the "Up or Down" variants, the
      clue colours and clue ranks listed or else derived or defaulted; the
      rest is the optional properties applied to those lists, as
      `CompileFlagsFields` states field by field: the special rank given,
      or -1 when absent, suit names shown when asked for or when a suit is
      reversed, and five points per suit. */
  lemma CompiledVariantFields(json: VariantJson, tables: Tables)
    requires CompileVariant(json, tables).Ok?
    ensures var v := CompileVariant(json, tables).value;
      && v.name == json.name != ""
      && v.id == json.id >= 0
      && |v.suits| == |SuitList(json)| > 0
      && (forall i :: 0 <= i < |v.suits| ==>
            SuitList(json)[i].JStr? && SuitList(json)[i].str in tables.suits && v.suits[i] == tables.suits[SuitList(json)[i].str])
      && v.ranks == RanksOf(json.name, tables.startCardRank)
      && (CLUE_COLORS_KEY in json.fields ==> |v.clueColors| == |json.fields[CLUE_COLORS_KEY].items|)
      && (CLUE_COLORS_KEY in json.fields ==> forall i :: 0 <= i < |v.clueColors| ==>
            json.fields[CLUE_COLORS_KEY].items[i].JStr? && v.clueColors[i] == tables.colors[json.fields[CLUE_COLORS_KEY].items[i].str])
      && (CLUE_COLORS_KEY !in json.fields ==> v.clueColors == DeriveClueColors(v.suits))
      && (CLUE_RANKS_KEY in json.fields ==> json.fields[CLUE_RANKS_KEY] == NumberArray(v.clueRanks))
      && (CLUE_RANKS_KEY !in json.fields ==> v.clueRanks == DEFAULT_CLUE_RANKS)
      && CompileFlags(json, v.suits, v.ranks, v.clueColors, v.clueRanks, tables.helpers) == Ok(v)
      && (v.specialRank == -1 <==> SPECIAL_RANK_KEY !in json.fields)
      && (SPECIAL_RANK_KEY in json.fields ==> json.fields[SPECIAL_RANK_KEY] == JNum(v.specialRank))
      && (v.showSuitNames <==> SHOW_SUIT_NAMES_KEY in json.fields || SomeSuitReversed(v.suits))
      && v.maxScore == CARDS_PER_STACK * |v.suits|
  {
    var items := SuitList(json);
    var suits := MapResult(items, (tables.suits, json.name), ResolveSuit).value;
    var clueColors := ClueColorsOf(json, tables.colors, suits).value;
    var clueRanks := ClueRanksOf(json).value;
    CompileFlagsFields(json, suits, RanksOf(json.name, tables.startCardRank), clueColors, clueRanks, tables.helpers);
    if CLUE_RANKS_KEY in json.fields {
      var listed := json.fields[CLUE_RANKS_KEY].items;
      assert listed == NumberArray(clueRanks).items;
    }
  }

  /** The catalog's variants compiled one after the other and set into the
      map by name: a later variant with the same name replaces the earlier
      one in its place. */
  function CompileAll(catalog: seq<VariantJson>, tables: Tables, compile: (VariantJson, Tables) -> Result<Variant, InitError>): (r: Result<JsMap<string, Variant>, InitError>)
    ensures r.Ok? ==> r.value.Valid()
    decreases |catalog|
  {
    if catalog == [] then Ok(Empty())
    else
      var variants :- CompileAll(catalog[..|catalog| - 1], tables, compile);
      var json := catalog[|catalog| - 1];
      var variant :- compile(json, tables);
      Ok(variants.Set(json.name, variant))
  }

  /** `variantsInit`: an empty catalog is an error; otherwise every
      descriptor is compiled, in order. */
  function CompileCatalog(catalog: seq<VariantJson>, tables: Tables): (r: Result<JsMap<string, Variant>, InitError>)
    ensures r.Ok? ==> r.value.Valid()
  {
    if |catalog| == 0 then Thrown(EmptyCatalog)
    else CompileAll(catalog, tables, CompileVariant)
  }

  /** The names of the catalog's descriptors, in order (over the untyped
      JSON descriptors, not the Go records of `GoVariants.Names`). */
  function Names(catalog: seq<VariantJson>): (names: seq<string>)
    ensures |names| == |catalog|
    ensures forall i :: 0 <= i < |catalog| ==> names[i] == catalog[i].name
  {
    seq(|catalog|, i requires 0 <= i < |catalog| => catalog[i].name)
  }
  /** The names of the descriptors grown by one. */
  lemma NamesSnoc(init: seq<VariantJson>, json: VariantJson, catalog: seq<VariantJson>)
    requires catalog == init + [json]
    ensures Names(catalog) == Names(init) + [json.name]
  {
  }


  /** Whether descriptor `i` is the last one with its name. */
  predicate LastWithName(catalog: seq<VariantJson>, i: int) {
    0 <= i < |catalog| && forall j :: i < j < |catalog| ==> catalog[j].name != catalog[i].name
  }

  lemma {:induction false} CompileAllSucceedsIff(catalog: seq<VariantJson>, tables: Tables, compile: (VariantJson, Tables) -> Result<Variant, InitError>)
    ensures CompileAll(catalog, tables, compile).Ok? <==> forall i :: 0 <= i < |catalog| ==> compile(catalog[i], tables).Ok?
    decreases |catalog|
  {
    if catalog != [] {
      var init := catalog[..|catalog| - 1];
      assert CompileAll(catalog, tables, compile).Ok? <==>
        CompileAll(init, tables, compile).Ok? && compile(catalog[|catalog| - 1], tables).Ok?;
      CompileAllSucceedsIff(init, tables, compile);
      assert forall i :: 0 <= i < |init| ==> init[i] == catalog[i];
    }
  }

  /** A compiler that only throws makes a catalog compiler that only throws. */
  lemma {:induction false} CompileAllNeverFatal(catalog: seq<VariantJson>, tables: Tables, compile: (VariantJson, Tables) -> Result<Variant, InitError>)
    requires forall i :: 0 <= i < |catalog| ==> !compile(catalog[i], tables).Fatal?
    ensures !CompileAll(catalog, tables, compile).Fatal?
    decreases |catalog|
  {
    if catalog != [] {
      var init := catalog[..|catalog| - 1];
      assert forall i :: 0 <= i < |init| ==> init[i] == catalog[i];
      CompileAllNeverFatal(init, tables, compile);
    }
  }

  lemma {:induction false} CompileAllFirstFailure(catalog: seq<VariantJson>, tables: Tables, compile: (VariantJson, Tables) -> Result<Variant, InitError>, k: nat)
    requires k < |catalog| && !compile(catalog[k], tables).Ok?
    requires forall j :: 0 <= j < k ==> compile(catalog[j], tables).Ok?
    ensures CompileAll(catalog, tables, compile) == compile(catalog[k], tables).PropagateFailure()
    decreases |catalog|
  {
    var init := catalog[..|catalog| - 1];
    if k < |catalog| - 1 {
      CompileAllFirstFailure(init, tables, compile, k);
    } else {
      assert forall j :: 0 <= j < |init| ==> init[j] == catalog[j];
      CompileAllSucceedsIff(init, tables, compile);
    }
  }

  /** The map's keys are the catalog's names, each once, in the order in
      which they first appear. */
  lemma {:induction false} CompileAllKeys(catalog: seq<VariantJson>, tables: Tables, compile: (VariantJson, Tables) -> Result<Variant, InitError>)
    requires CompileAll(catalog, tables, compile).Ok?
    ensures CompileAll(catalog, tables, compile).value.keys == Dedup(Names(catalog))
    decreases |catalog|
  {
    if catalog != [] {
      var init := catalog[..|catalog| - 1];
      var json := catalog[|catalog| - 1];
      assert catalog == init + [json];
      var variants := CompileAll(init, tables, compile).value;
      var m := variants.Set(json.name, compile(json, tables).value);
      assert CompileAll(catalog, tables, compile) == Ok(m);
      CompileAllKeys(init, tables, compile);
      assert json.name in variants.entries <==> json.name in Dedup(Names(init));
      DedupSnoc(Names(init), json.name);
      NamesSnoc(init, json, catalog);
      assert m.keys == Dedup(Names(init) + [json.name]);
    }
  }

  /** Each name maps to the variant compiled from the last descriptor with
      that name. */
  lemma {:induction false} CompileAllLastWins(catalog: seq<VariantJson>, tables: Tables, compile: (VariantJson, Tables) -> Result<Variant, InitError>, i: int)
    requires CompileAll(catalog, tables, compile).Ok?
    requires LastWithName(catalog, i)
    ensures compile(catalog[i], tables).Ok?
    ensures CompileAll(catalog, tables, compile).value.Get(catalog[i].name) == Some(compile(catalog[i], tables).value)
    decreases |catalog|
  {
    var init := catalog[..|catalog| - 1];
    if i < |init| {
      assert init[i] == catalog[i];
      assert LastWithName(init, i);
      CompileAllLastWins(init, tables, compile, i);
    }
  }

  /** The catalog is accepted exactly when it is not empty and every
      descriptor in it is acceptable; a rejection is always thrown. */
  lemma CatalogAcceptsIff(catalog: seq<VariantJson>, tables: Tables)
    ensures !CompileCatalog(catalog, tables).Fatal?
    ensures CompileCatalog(catalog, tables).Ok? <==>
      |catalog| > 0 && forall i :: 0 <= i < |catalog| ==> Acceptable(catalog[i], tables)
  {
    forall i | 0 <= i < |catalog| {
      CompileVariantAcceptsIff(catalog[i], tables);
    }
    if |catalog| > 0 {
      CompileAllSucceedsIff(catalog, tables, CompileVariant);
      CompileAllNeverFatal(catalog, tables, CompileVariant);
    }
  }

  /** A rejected catalog reports the error of its first unacceptable
      descriptor. */
  lemma CatalogFirstFailure(catalog: seq<VariantJson>, tables: Tables, k: int)
    requires 0 <= k < |catalog| && !Acceptable(catalog[k], tables)
    requires forall j :: 0 <= j < k ==> Acceptable(catalog[j], tables)
    ensures CompileCatalog(catalog, tables) == CompileVariant(catalog[k], tables).PropagateFailure()
  {
    forall j | 0 <= j <= k {
      CompileVariantAcceptsIff(catalog[j], tables);
    }
    CompileAllFirstFailure(catalog, tables, CompileVariant, k);
  }

  /** An accepted catalog lists each name once, in the order the names first
      appear, and maps each name to the variant compiled from the last
      descriptor with that name. */
  lemma CatalogContents(catalog: seq<VariantJson>, tables: Tables)
    requires CompileCatalog(catalog, tables).Ok?
    ensures CompileCatalog(catalog, tables).value.keys == Dedup(Names(catalog))
    ensures forall i :: LastWithName(catalog, i) ==>
      CompileVariant(catalog[i], tables).Ok? &&
      CompileCatalog(catalog, tables).value.Get(catalog[i].name) == Some(CompileVariant(catalog[i], tables).value)
  {
    assert CompileCatalog(catalog, tables) == CompileAll(catalog, tables, CompileVariant);
    CompileAllKeys(catalog, tables, CompileVariant);
    forall i | LastWithName(catalog, i)
      ensures CompileVariant(catalog[i], tables).Ok?
      ensures CompileCatalog(catalog, tables).value.Get(catalog[i].name) == Some(CompileVariant(catalog[i], tables).value)
    {
      CompileAllLastWins(catalog, tables, CompileVariant, i);
    }
  }


  /** One descriptor, validated and resolved as the compiler's loop body does. */
  method CompileVariantJson(json: VariantJson, tables: Tables) returns (r: Result<Variant, InitError>)
    ensures r == CompileVariant(json, tables)
  {
    var name := json.name;
    if name == "" {
      return Thrown(EmptyName);
    }
    if json.id < 0 {
      return Thrown(InvalidId(name));
    }
    if SUITS_KEY !in json.fields {
      return Thrown(MissingSuits(name));
    }
    if !json.fields[SUITS_KEY].JArr? {
      return Thrown(SuitsNotArray(name));
    }
    if |json.fields[SUITS_KEY].items| == 0 {
      return Thrown(EmptySuits(name));
    }
    var suits :- MapResultLoop(json.fields[SUITS_KEY].items, (tables.suits, name), ResolveSuit);
    var ranks := RanksOf(name, tables.startCardRank);
    var clueColors: seq<Color>;
    if CLUE_COLORS_KEY in json.fields {
      if !json.fields[CLUE_COLORS_KEY].JArr? {
        return Thrown(ClueColorsNotArray(name));
      }
      clueColors :- MapResultLoop(json.fields[CLUE_COLORS_KEY].items, (tables.colors, name), ResolveColor);
    } else {
      clueColors := DeriveLoop(suits, TouchedByAll, SuitClueColors);
    }
    var clueRanks := DEFAULT_CLUE_RANKS;
    if CLUE_RANKS_KEY in json.fields {
      if !json.fields[CLUE_RANKS_KEY].JArr? {
        return Thrown(ClueRanksNotArray(name));
      }
      clueRanks :- MapResultLoop(json.fields[CLUE_RANKS_KEY].items, name, CheckClueRank);
    }
    r := CompileFlags(json, suits, ranks, clueColors, clueRanks, tables.helpers);
  }

  /** `variantsInit`: the catalog compiled into a name-keyed map. */
  method VariantsInit(catalog: seq<VariantJson>, tables: Tables) returns (r: Result<JsMap<string, Variant>, InitError>)
    ensures r == CompileCatalog(catalog, tables)
  {
    if |catalog| == 0 {
      return Thrown(EmptyCatalog);
    }
    var variants: JsMap<string, Variant> := Empty();
    for i := 0 to |catalog|
      invariant CompileAll(catalog[..i], tables, CompileVariant) == Ok(variants)
    {
      var json := catalog[i];
      assert catalog[..i + 1][..i] == catalog[..i];
      var variant := CompileVariantJson(json, tables);
      if !variant.Ok? {
        assert forall j :: 0 <= j < i ==> CompileVariant(catalog[j], tables).Ok? by {
          CompileAllSucceedsIff(catalog[..i], tables, CompileVariant);
          assert forall j :: 0 <= j < i ==> catalog[..i][j] == catalog[j];
        }
        CompileAllFirstFailure(catalog, tables, CompileVariant, i);
        return variant.PropagateFailure();
      }
      variants := variants.Set(json.name, variant.value);
    }
    assert catalog[..|catalog|] == catalog;
    return Ok(variants);
  }
}
