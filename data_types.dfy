/** The TypeScript data package's records: the JSON values a catalog entry
    may hold, the colour and suit tables, the descriptor both input paths
    produce, and the resolved variant. */
module DataTypes {
  import opened Wrappers

  /** A JSON value as parsed from the catalog (objects inside values are not
      needed by the validator and are left out; numbers are integers here). */
  datatype Json = JNull | JBool(b: bool) | JNum(n: int) | JStr(str: string) | JArr(items: seq<Json>)

  /** Descriptor keys the compilers read. */
  const SUITS_KEY := "suits"
  const NEW_ID_KEY := "newID"
  const SHOW_SUIT_NAMES_KEY := "showSuitNames"
  const SPECIAL_RANK_KEY := "specialRank"
  const CLUE_RANKS_KEY := "clueRanks"
  const CLUE_COLORS_KEY := "clueColors"

  /** An entry of the colour table (`Color`). */
  datatype Color = Color(name: string)

  /** An entry of the suit table keyed by suit name (`Suit`), with the
      attributes the variant compiler reads. */
  datatype Suit = Suit(name: string, clueColors: seq<Color>, allClueColors: bool, reversed: bool)

  /** An entry of the suit table keyed by short suit code (`SuitJSON`). */
  datatype SuitJson = SuitJson(name: string, showSuitName: Option<bool>)

  /** A variant descriptor (`VariantJSON`): the typed `name` and `id`, and
      every other property of the JSON object by key, so that
      `"k" in variantJSON` is `"k" in fields`. */
  datatype VariantJson = VariantJson(name: string, id: int, fields: map<string, Json>)

  /** A resolved variant (`Variant`). */
  datatype Variant = Variant(
    name: string,
    id: int,
    suits: seq<Suit>,
    ranks: seq<int>,
    clueColors: seq<Color>,
    clueRanks: seq<int>,
    colorCluesTouchNothing: bool,
    rankCluesTouchNothing: bool,
    specialRank: int,
    specialAllClueColors: bool,
    specialAllClueRanks: bool,
    specialNoClueColors: bool,
    specialNoClueRanks: bool,
    specialDeceptive: bool,
    oddsAndEvens: bool,
    funnels: bool,
    chimneys: bool,
    showSuitNames: bool,
    maxScore: int,
    offsetCornerElements: bool,
    suitAbbreviations: seq<string>,
    identityNotePattern: string)

  /** A sequence of numbers as a JSON array. */
  function NumberArray(ns: seq<int>): (j: Json)
    ensures j.JArr? && |j.items| == |ns|
    ensures forall i :: 0 <= i < |ns| ==> j.items[i] == JNum(ns[i])
  {
    JArr(seq(|ns|, i requires 0 <= i < |ns| => JNum(ns[i])))
  }

  /** A sequence of strings as a JSON array. */
  function StringArray(ss: seq<string>): (j: Json)
    ensures j.JArr? && |j.items| == |ss|
    ensures forall i :: 0 <= i < |ss| ==> j.items[i] == JStr(ss[i])
  {
    JArr(seq(|ss|, i requires 0 <= i < |ss| => JStr(ss[i])))
  }
}
