/** The compact-ID decoder: expands an ID such as `B+R/R:P5:OE` into a
    variant descriptor. The part before the first `:` lists the suits by
    short code, separated by `+`, each optionally followed by `/`-separated
    suit modifiers; every later `:`-separated part is a variant modifier code. */
module NewId {
  import opened Wrappers
  import opened Strings
  import opened DataTypes

  const VARIANT_DELIMITER: char := ':'
  const SUIT_DELIMITER: char := '+'
  const SUIT_MODIFIER_DELIMITER: char := '/'
  const REVERSE_MODIFIER: string := "R"
  const SUIT_MODIFIERS: set<string> := {REVERSE_MODIFIER}

  /** Appended to the name of a reversed suit; its text is defined outside
      this model. */
  const SUIT_REVERSED_SUFFIX: string

  /** Descriptor keys that hold something other than a `true` flag. */
  const DATA_KEYS: set<string> := {SUITS_KEY, NEW_ID_KEY, SPECIAL_RANK_KEY, CLUE_RANKS_KEY, CLUE_COLORS_KEY}

  datatype DecodeError =
    | UnknownSuitId(suitId: string)
    | UnknownSuitModifier(suitName: string, modifier: string, suitIdWithModifiers: string)
    | ModifierTooShort(modifier: string)
    | SpecialRankUnparsed
    | UnknownModifier(modifier: string, newId: string)

  // ---------------------------------------------------------------------
  // Suits

  /** `splitSuitID`: the suit code first, then its modifiers. */
  function SplitSuitId(suitIdWithModifiers: string): (parts: seq<string>)
    ensures |parts| >= 1
    ensures Join(parts, SUIT_MODIFIER_DELIMITER) == suitIdWithModifiers
    ensures forall i :: 0 <= i < |parts| ==> SUIT_MODIFIER_DELIMITER !in parts[i]
  {
    JoinSplit(suitIdWithModifiers, SUIT_MODIFIER_DELIMITER);
    Split(suitIdWithModifiers, SUIT_MODIFIER_DELIMITER)
  }

  /** The first suit modifier that is not a recognised one. */
  function FirstUnknownSuitModifier(modifiers: seq<string>): (r: Option<string>)
    ensures r.None? <==> forall i :: 0 <= i < |modifiers| ==> modifiers[i] in SUIT_MODIFIERS
    ensures r.Some? ==> r.value in modifiers && r.value !in SUIT_MODIFIERS
  {
    if modifiers == [] then None
    else if modifiers[0] !in SUIT_MODIFIERS then Some(modifiers[0])
    else
      assert forall i :: 1 <= i < |modifiers| ==> modifiers[i] == modifiers[1..][i - 1];
      FirstUnknownSuitModifier(modifiers[1..])
  }

  /** The body of the `.map` in `getSuitNamesFromSuitID`: one suit token to
      one suit name. */
  function SuitNameFromSuitId(suitIdWithModifiers: string, suitsIdMap: map<string, SuitJson>)
    : (r: Result<string, DecodeError>)
    ensures !r.Thrown?
    ensures r.Fatal? ==> r.error.UnknownSuitId? || r.error.UnknownSuitModifier?
    ensures r.Ok? <==>
      && SplitSuitId(suitIdWithModifiers)[0] in suitsIdMap
      && forall m :: m in SplitSuitId(suitIdWithModifiers)[1..] ==> m == REVERSE_MODIFIER
    ensures r.Ok? ==>
      r.value == suitsIdMap[SplitSuitId(suitIdWithModifiers)[0]].name
        + (if REVERSE_MODIFIER in SplitSuitId(suitIdWithModifiers)[1..] then SUIT_REVERSED_SUFFIX else "")
  {
    var parts := SplitSuitId(suitIdWithModifiers);
    var suitId, modifiers := parts[0], parts[1..];
    if suitId !in suitsIdMap then Fatal(UnknownSuitId(suitId))
    else
      var suit := suitsIdMap[suitId];
      match FirstUnknownSuitModifier(modifiers)
      case Some(modifier) => Fatal(UnknownSuitModifier(suit.name, modifier, suitIdWithModifiers))
      case None =>
        Ok(if REVERSE_MODIFIER in modifiers then suit.name + SUIT_REVERSED_SUFFIX else suit.name)
  }

  /** `getSuitNamesFromSuitID`: every token resolved in order; the first
      token that does not resolve stops the decoder with its error. */
  function GetSuitNamesFromSuitId(suitIdsWithModifiers: seq<string>, suitsIdMap: map<string, SuitJson>)
    : (r: Result<seq<string>, DecodeError>)
    ensures !r.Thrown?
    ensures r.Fatal? ==> r.error.UnknownSuitId? || r.error.UnknownSuitModifier?
    ensures r.Ok? <==> forall i :: 0 <= i < |suitIdsWithModifiers| ==>
      SuitNameFromSuitId(suitIdsWithModifiers[i], suitsIdMap).Ok?
    ensures r.Ok? ==> |r.value| == |suitIdsWithModifiers| && forall i :: 0 <= i < |suitIdsWithModifiers| ==>
      r.value[i] == SuitNameFromSuitId(suitIdsWithModifiers[i], suitsIdMap).value
    decreases |suitIdsWithModifiers|
  {
    if suitIdsWithModifiers == [] then Ok([])
    else
      var first := SuitNameFromSuitId(suitIdsWithModifiers[0], suitsIdMap);
      if !first.Ok? then first.PropagateFailure()
      else
        var rest := GetSuitNamesFromSuitId(suitIdsWithModifiers[1..], suitsIdMap);
        assert forall i :: 1 <= i < |suitIdsWithModifiers| ==> suitIdsWithModifiers[i] == suitIdsWithModifiers[1..][i - 1];
        if !rest.Ok? then rest
        else Ok([first.value] + rest.value)
  }

  /** When a suit token does not resolve, the decoder reports the first such
      token's error. */
  lemma {:induction false} SuitNamesFirstFailure(suitIdsWithModifiers: seq<string>, suitsIdMap: map<string, SuitJson>, k: nat)
    requires k < |suitIdsWithModifiers|
    requires !SuitNameFromSuitId(suitIdsWithModifiers[k], suitsIdMap).Ok?
    requires forall j :: 0 <= j < k ==> SuitNameFromSuitId(suitIdsWithModifiers[j], suitsIdMap).Ok?
    ensures GetSuitNamesFromSuitId(suitIdsWithModifiers, suitsIdMap)
         == Fatal(SuitNameFromSuitId(suitIdsWithModifiers[k], suitsIdMap).error)
    decreases k
  {
    if k > 0 {
      var tail := suitIdsWithModifiers[1..];
      assert forall j :: 0 <= j < k - 1 ==> tail[j] == suitIdsWithModifiers[j + 1];
      SuitNamesFirstFailure(tail, suitsIdMap, k - 1);
    }
  }

  /** Whether some suit token names a suit whose `showSuitName` is `true`. */
  predicate AnySuitShowsName(suitIdsWithModifiers: seq<string>, suitsIdMap: map<string, SuitJson>) {
    exists i :: 0 <= i < |suitIdsWithModifiers|
      && SplitSuitId(suitIdsWithModifiers[i])[0] in suitsIdMap
      && suitsIdMap[SplitSuitId(suitIdsWithModifiers[i])[0]].showSuitName == Some(true)
  }

  /** Extending the scanned prefix of the suit tokens by one token. */
  lemma AnySuitShowsNameStep(suitIdsWithModifiers: seq<string>, i: nat, suitsIdMap: map<string, SuitJson>)
    requires i < |suitIdsWithModifiers|
    requires SplitSuitId(suitIdsWithModifiers[i])[0] in suitsIdMap
    ensures AnySuitShowsName(suitIdsWithModifiers[..i + 1], suitsIdMap) <==>
      AnySuitShowsName(suitIdsWithModifiers[..i], suitsIdMap)
      || suitsIdMap[SplitSuitId(suitIdsWithModifiers[i])[0]].showSuitName == Some(true)
  {
    var pre, next := suitIdsWithModifiers[..i], suitIdsWithModifiers[..i + 1];
    assert forall j :: 0 <= j < i ==> next[j] == pre[j];
    assert next[i] == suitIdsWithModifiers[i];
  }

  // ---------------------------------------------------------------------
  // Variant modifiers

  /** What a modifier code does to the clue ranks. */
  datatype ClueRanksWrite =
    | KeepClueRanks
    | SpecialClueRanks          // `getSpecialClueRanks(specialRank)`
    | SetClueRanks(ranks: seq<int>)

  /** The assignments one case of the modifier `switch` makes: whether it
      sets `specialRank` from the code's digit, which boolean properties it
      sets to `true`, what it writes to `clueRanks`, and whether it empties
      `clueColors`. */
  datatype Effect = Effect(setsSpecialRank: bool, flags: set<string>, clueRanks: ClueRanksWrite, muteClueColors: bool)

  /** The modifier table; `None` for a code no case matches. */
  function ModifierEffect(code: string): (e: Option<Effect>)
    ensures e.Some? ==> |code| == 2
    ensures e.Some? && e.value.setsSpecialRank ==> code[1] == '1' || code[1] == '5'
    ensures e.Some? ==> forall k :: k in e.value.flags ==> k !in DATA_KEYS
  {
    match code
    case "R1" | "R5" => Some(Effect(true, {"specialAllClueColors"}, KeepClueRanks, false))
    case "P1" | "P5" => Some(Effect(true, {"specialAllClueRanks"}, SpecialClueRanks, false))
    case "W1" | "W5" => Some(Effect(true, {"specialNoClueColors"}, KeepClueRanks, false))
    case "B1" | "B5" => Some(Effect(true, {"specialNoClueRanks"}, SpecialClueRanks, false))
    case "O1" | "O5" => Some(Effect(true, {"specialAllClueColors", "specialAllClueRanks"}, SpecialClueRanks, false))
    case "N1" | "N5" => Some(Effect(true, {"specialNoClueColors", "specialNoClueRanks"}, SpecialClueRanks, false))
    case "M1" | "M5" => Some(Effect(true, {"specialAllClueColors", "specialNoClueRanks"}, SpecialClueRanks, false))
    case "L1" | "L5" => Some(Effect(true, {"specialNoClueColors", "specialAllClueRanks"}, SpecialClueRanks, false))
    case "D1" | "D5" => Some(Effect(true, {"specialDeceptive"}, SpecialClueRanks, false))
    case "CB" => Some(Effect(false, {"colorCluesTouchNothing"}, KeepClueRanks, false))
    case "NB" => Some(Effect(false, {"rankCluesTouchNothing"}, KeepClueRanks, false))
    case "TB" => Some(Effect(false, {"colorCluesTouchNothing", "rankCluesTouchNothing"}, KeepClueRanks, false))
    case "CM" => Some(Effect(false, {}, KeepClueRanks, true))
    case "NM" => Some(Effect(false, {}, SetClueRanks([]), false))
    case "AC" => Some(Effect(false, {"alternatingClues"}, KeepClueRanks, false))
    case "CS" => Some(Effect(false, {"clueStarved"}, KeepClueRanks, false))
    case "CP" => Some(Effect(false, {"cowPig"}, KeepClueRanks, false))
    case "Du" => Some(Effect(false, {"duck"}, KeepClueRanks, false))
    case "TH" => Some(Effect(false, {"throwItInHole"}, KeepClueRanks, false))
    case "UD" => Some(Effect(false, {"upOrDown", SHOW_SUIT_NAMES_KEY}, KeepClueRanks, false))
    case "Sy" => Some(Effect(false, {"synesthesia"}, SetClueRanks([]), false))
    case "C4" => Some(Effect(false, {"criticalFours"}, KeepClueRanks, false))
    case "OE" => Some(Effect(false, {"oddsAndEvens"}, SetClueRanks([1, 2]), false))
    case _ => None
  }

  /** `parseIntSafe` of the code's second character, with "not a number"
      read as 0. */
  function SpecialRankDigit(code: string): (rank: int)
    requires |code| >= 2
    ensures 0 <= rank <= 9
    ensures rank != 0 ==> '1' <= code[1] <= '9'
  {
    if '0' <= code[1] <= '9' then code[1] as int - '0' as int else 0
  }

  /** The assignments of one case of the `switch`, in the source's order. */
  function ApplyModifier(variant: VariantJson, code: string, effect: Effect, getSpecialClueRanks: int -> seq<int>)
    : (r: VariantJson)
    requires |code| >= 2
    ensures r.name == variant.name && r.id == variant.id
    ensures variant.fields.Keys <= r.fields.Keys
  {
    var specialRank := SpecialRankDigit(code);
    var f1 := if effect.setsSpecialRank then variant.fields[SPECIAL_RANK_KEY := JNum(specialRank)] else variant.fields;
    var f2 := f1 + map k | k in effect.flags :: JBool(true);
    var f3 := match effect.clueRanks
      case KeepClueRanks => f2
      case SpecialClueRanks => f2[CLUE_RANKS_KEY := NumberArray(getSpecialClueRanks(specialRank))]
      case SetClueRanks(ranks) => f2[CLUE_RANKS_KEY := NumberArray(ranks)];
    var f4 := if effect.muteClueColors then f3[CLUE_COLORS_KEY := JArr([])] else f3;
    variant.(fields := f4)
  }

  /** Whether the descriptor's `specialRank` is the 0 that the decoder treats
      as a parse failure. */
  predicate SpecialRankIsZero(variant: VariantJson) {
    SPECIAL_RANK_KEY in variant.fields && variant.fields[SPECIAL_RANK_KEY] == JNum(0)
  }

  /** The loop over the variant modifiers, left to right, each checked then
      applied; stops at the first failure. */
  function ApplyModifiers(variant: VariantJson, modifiers: seq<string>, newId: string,
                          getSpecialClueRanks: int -> seq<int>): (r: Result<VariantJson, DecodeError>)
    ensures r.Ok? ==> r.value.name == variant.name && r.value.id == variant.id
    ensures r.Ok? ==> variant.fields.Keys <= r.value.fields.Keys
    ensures r.Fatal? ==> r.error.ModifierTooShort? || r.error == SpecialRankUnparsed
    ensures r.Thrown? ==> r.error.UnknownModifier? && r.error.newId == newId
    decreases |modifiers|
  {
    if modifiers == [] then Ok(variant)
    else
      var code := modifiers[0];
      if |code| < 2 then Fatal(ModifierTooShort(code))
      else match ModifierEffect(code)
        case None => Thrown(UnknownModifier(code, newId))
        case Some(effect) =>
          var next := ApplyModifier(variant, code, effect, getSpecialClueRanks);
          if SpecialRankIsZero(next) then Fatal(SpecialRankUnparsed)
          else ApplyModifiers(next, modifiers[1..], newId, getSpecialClueRanks)
  }

  /** A key's value in a descriptor, if the key is present. */
  function Get(fields: map<string, Json>, key: string): Option<Json> {
    if key in fields then Some(fields[key]) else None
  }

  /** A newer write if there is one, else the older value. */
  function Overlay(newer: Option<Json>, older: Option<Json>): Option<Json> {
    if newer.Some? then newer else older
  }

  /** The value that modifier `code` assigns to descriptor key `key`, or
      `None` when its case of the `switch` leaves that key alone. */
  function Writes(code: string, key: string, getSpecialClueRanks: int -> seq<int>): Option<Json> {
    match ModifierEffect(code)
    case None => None
    case Some(effect) =>
      if key == SPECIAL_RANK_KEY then
        (if effect.setsSpecialRank then Some(JNum(SpecialRankDigit(code))) else None)
      else if key == CLUE_RANKS_KEY then
        (match effect.clueRanks
         case KeepClueRanks => None
         case SpecialClueRanks => Some(NumberArray(getSpecialClueRanks(SpecialRankDigit(code))))
         case SetClueRanks(ranks) => Some(NumberArray(ranks)))
      else if key == CLUE_COLORS_KEY then
        (if effect.muteClueColors then Some(JArr([])) else None)
      else if key in effect.flags then Some(JBool(true))
      else None
  }

  /** The value the last modifier that writes `key` assigns to it. */
  function LastWrite(modifiers: seq<string>, key: string, getSpecialClueRanks: int -> seq<int>): Option<Json>
    decreases |modifiers|
  {
    if modifiers == [] then None
    else Overlay(LastWrite(modifiers[1..], key, getSpecialClueRanks), Writes(modifiers[0], key, getSpecialClueRanks))
  }

  /** One case of the `switch` changes exactly the keys it writes. */
  lemma ApplyModifierWrites(variant: VariantJson, code: string, effect: Effect, getSpecialClueRanks: int -> seq<int>)
    requires ModifierEffect(code) == Some(effect)
    ensures ApplyModifier(variant, code, effect, getSpecialClueRanks).name == variant.name
    ensures ApplyModifier(variant, code, effect, getSpecialClueRanks).id == variant.id
    ensures forall key ::
      Get(ApplyModifier(variant, code, effect, getSpecialClueRanks).fields, key)
        == Overlay(Writes(code, key, getSpecialClueRanks), Get(variant.fields, key))
  {
    var after := ApplyModifier(variant, code, effect, getSpecialClueRanks);
    forall key
      ensures Get(after.fields, key) == Overlay(Writes(code, key, getSpecialClueRanks), Get(variant.fields, key))
    {
      if key in effect.flags {
        assert key !in DATA_KEYS;
      }
    }
  }

  /** Modifiers are applied in order and a later assignment to a key
      overwrites an earlier one: each key ends with the last value written to
      it, or keeps its initial value when no modifier writes it. */
  lemma {:induction false} ModifiersLastWriteWins(variant: VariantJson, modifiers: seq<string>, newId: string,
                                                  getSpecialClueRanks: int -> seq<int>)
    requires ApplyModifiers(variant, modifiers, newId, getSpecialClueRanks).Ok?
    ensures ApplyModifiers(variant, modifiers, newId, getSpecialClueRanks).value.name == variant.name
    ensures ApplyModifiers(variant, modifiers, newId, getSpecialClueRanks).value.id == variant.id
    ensures forall key ::
      Get(ApplyModifiers(variant, modifiers, newId, getSpecialClueRanks).value.fields, key)
        == Overlay(LastWrite(modifiers, key, getSpecialClueRanks), Get(variant.fields, key))
    decreases |modifiers|
  {
    if modifiers != [] {
      var code := modifiers[0];
      var effect := ModifierEffect(code).value;
      var next := ApplyModifier(variant, code, effect, getSpecialClueRanks);
      ApplyModifierWrites(variant, code, effect, getSpecialClueRanks);
      ModifiersLastWriteWins(next, modifiers[1..], newId, getSpecialClueRanks);
    }
  }

  /** A key is written by some modifier exactly when `LastWrite` finds a
      value, and that value is the one the last writer assigns. */
  lemma {:induction false} LastWriteIsLastWriter(modifiers: seq<string>, key: string, getSpecialClueRanks: int -> seq<int>)
    ensures LastWrite(modifiers, key, getSpecialClueRanks).Some? <==>
      exists j :: 0 <= j < |modifiers| && Writes(modifiers[j], key, getSpecialClueRanks).Some?
    ensures forall j ::
      (&& 0 <= j < |modifiers|
       && Writes(modifiers[j], key, getSpecialClueRanks).Some?
       && (forall i :: j < i < |modifiers| ==> Writes(modifiers[i], key, getSpecialClueRanks).None?))
      ==> LastWrite(modifiers, key, getSpecialClueRanks) == Writes(modifiers[j], key, getSpecialClueRanks)
    decreases |modifiers|
  {
    if modifiers != [] {
      var rest := modifiers[1..];
      LastWriteIsLastWriter(rest, key, getSpecialClueRanks);
      assert forall i :: 1 <= i < |modifiers| ==> modifiers[i] == rest[i - 1];
      if LastWrite(rest, key, getSpecialClueRanks).Some? {
        var i :| 0 <= i < |rest| && Writes(rest[i], key, getSpecialClueRanks).Some?;
        assert Writes(modifiers[i + 1], key, getSpecialClueRanks).Some?;
      }
    }
  }

  /** `specialRank` is absent or one of the two digits the table's rank
      codes carry. */
  predicate SpecialRankOneOrFive(variant: VariantJson) {
    SPECIAL_RANK_KEY in variant.fields ==>
      variant.fields[SPECIAL_RANK_KEY] == JNum(1) || variant.fields[SPECIAL_RANK_KEY] == JNum(5)
  }

  /** The modifier loop succeeds exactly when every code is in the table; in
      particular the "special rank is 0" fatal error cannot happen, because
      the only codes that set `specialRank` end in 1 or 5. */
  lemma {:induction false} ModifiersSucceedIff(variant: VariantJson, modifiers: seq<string>, newId: string,
                                               getSpecialClueRanks: int -> seq<int>)
    requires SpecialRankOneOrFive(variant)
    ensures ApplyModifiers(variant, modifiers, newId, getSpecialClueRanks).Ok? <==>
      forall j :: 0 <= j < |modifiers| ==> ModifierEffect(modifiers[j]).Some?
    ensures ApplyModifiers(variant, modifiers, newId, getSpecialClueRanks) != Fatal(SpecialRankUnparsed)
    ensures ApplyModifiers(variant, modifiers, newId, getSpecialClueRanks).Ok? ==>
      SpecialRankOneOrFive(ApplyModifiers(variant, modifiers, newId, getSpecialClueRanks).value)
    decreases |modifiers|
  {
    if modifiers != [] {
      var code := modifiers[0];
      assert forall i :: 1 <= i < |modifiers| ==> modifiers[i] == modifiers[1..][i - 1];
      if ModifierEffect(code).Some? {
        var effect := ModifierEffect(code).value;
        var next := ApplyModifier(variant, code, effect, getSpecialClueRanks);
        ApplyModifierKeepsOneOrFive(variant, code, effect, getSpecialClueRanks);
        assert !SpecialRankIsZero(next);
        assert ApplyModifiers(variant, modifiers, newId, getSpecialClueRanks)
            == ApplyModifiers(next, modifiers[1..], newId, getSpecialClueRanks);
        ModifiersSucceedIff(next, modifiers[1..], newId, getSpecialClueRanks);
      }
    }
  }

  /** One case of the `switch` leaves the special rank absent, 1 or 5. */
  lemma ApplyModifierKeepsOneOrFive(variant: VariantJson, code: string, effect: Effect, getSpecialClueRanks: int -> seq<int>)
    requires ModifierEffect(code) == Some(effect)
    requires SpecialRankOneOrFive(variant)
    ensures SpecialRankOneOrFive(ApplyModifier(variant, code, effect, getSpecialClueRanks))
    ensures !SpecialRankIsZero(ApplyModifier(variant, code, effect, getSpecialClueRanks))
  {
    var next := ApplyModifier(variant, code, effect, getSpecialClueRanks);
    ApplyModifierWrites(variant, code, effect, getSpecialClueRanks);
    assert Get(next.fields, SPECIAL_RANK_KEY) == Overlay(Writes(code, SPECIAL_RANK_KEY, getSpecialClueRanks), Get(variant.fields, SPECIAL_RANK_KEY));
  }

  /** The first modifier missing from the table decides the failure: a
      fatal error when it is shorter than two characters, otherwise a thrown
      error naming it and the whole ID. */
  lemma {:induction false} ModifiersFirstFailure(variant: VariantJson, modifiers: seq<string>, newId: string,
                                                 getSpecialClueRanks: int -> seq<int>, k: nat)
    requires SpecialRankOneOrFive(variant)
    requires k < |modifiers| && ModifierEffect(modifiers[k]).None?
    requires forall j :: 0 <= j < k ==> ModifierEffect(modifiers[j]).Some?
    ensures ApplyModifiers(variant, modifiers, newId, getSpecialClueRanks) ==
      if |modifiers[k]| < 2 then Fatal(ModifierTooShort(modifiers[k]))
      else Thrown(UnknownModifier(modifiers[k], newId))
    decreases k
  {
    if k > 0 {
      var code := modifiers[0];
      var effect := ModifierEffect(code).value;
      var next := ApplyModifier(variant, code, effect, getSpecialClueRanks);
      ApplyModifierKeepsOneOrFive(variant, code, effect, getSpecialClueRanks);
      assert !SpecialRankIsZero(next);
      assert ApplyModifiers(variant, modifiers, newId, getSpecialClueRanks)
          == ApplyModifiers(next, modifiers[1..], newId, getSpecialClueRanks);
      assert forall i :: 1 <= i < |modifiers| ==> modifiers[i] == modifiers[1..][i - 1];
      ModifiersFirstFailure(next, modifiers[1..], newId, getSpecialClueRanks, k - 1);
    }
  }

  /** The descriptor before any variant modifier is applied. */
  function InitialDescriptor(newId: string, suitNames: seq<string>, showSuitNames: bool): (v: VariantJson)
    ensures v.name == "" && v.id == 0
    ensures v.fields.Keys == {SUITS_KEY, NEW_ID_KEY} + (if showSuitNames then {SHOW_SUIT_NAMES_KEY} else {})
    ensures v.fields[SUITS_KEY] == StringArray(suitNames) && v.fields[NEW_ID_KEY] == JStr(newId)
    ensures showSuitNames ==> v.fields[SHOW_SUIT_NAMES_KEY] == JBool(true)
  {
    var fields := map[SUITS_KEY := StringArray(suitNames), NEW_ID_KEY := JStr(newId)];
    VariantJson("", 0, if showSuitNames then fields[SHOW_SUIT_NAMES_KEY := JBool(true)] else fields)
  }

  /** `getVariantFromNewID` as a function of its inputs. */
  function DecodeNewId(newId: string, suitsIdMap: map<string, SuitJson>, getSpecialClueRanks: int -> seq<int>)
    : (r: Result<VariantJson, DecodeError>)
    ensures r.Ok? ==> r.value.name == "" && r.value.id == 0
    ensures r.Ok? ==> SUITS_KEY in r.value.fields && NEW_ID_KEY in r.value.fields
    ensures r.Fatal? ==> r.error.UnknownSuitId? || r.error.UnknownSuitModifier? || r.error.ModifierTooShort?
                         || r.error == SpecialRankUnparsed
    ensures r.Thrown? ==> r.error.UnknownModifier? && r.error.newId == newId
  {
    var suitIdsWithModifiers := SuitTokens(newId);
    var suitNames :- GetSuitNamesFromSuitId(suitIdsWithModifiers, suitsIdMap);
    var variant := InitialDescriptor(newId, suitNames, AnySuitShowsName(suitIdsWithModifiers, suitsIdMap));
    ApplyModifiers(variant, VariantModifiers(newId), newId, getSpecialClueRanks)
  }

  /** The suit tokens: the text before the first `:`, split at `+`. */
  function SuitTokens(newId: string): seq<string> {
    Split(Split(newId, VARIANT_DELIMITER)[0], SUIT_DELIMITER)
  }

  /** The variant modifier codes: every `:`-separated part after the first. */
  function VariantModifiers(newId: string): seq<string> {
    Split(newId, VARIANT_DELIMITER)[1..]
  }

  /** `getVariantFromNewID`: builds the descriptor and updates it in place,
      modifier by modifier. */
  method GetVariantFromNewId(newId: string, suitsIdMap: map<string, SuitJson>, getSpecialClueRanks: int -> seq<int>)
    returns (r: Result<VariantJson, DecodeError>)
    ensures r == DecodeNewId(newId, suitsIdMap, getSpecialClueRanks)
  {
    var segments := Split(newId, VARIANT_DELIMITER);
    var suitsString, variantModifiers := segments[0], segments[1..];
    var suitIdsWithModifiers := Split(suitsString, SUIT_DELIMITER);
    assert suitIdsWithModifiers == SuitTokens(newId) && variantModifiers == VariantModifiers(newId);
    var suitNames := GetSuitNamesFromSuitId(suitIdsWithModifiers, suitsIdMap);
    if !suitNames.Ok? {
      return suitNames.PropagateFailure();
    }

    var variant := InitialDescriptor(newId, suitNames.value, false);
    var i := 0;
    while i < |suitIdsWithModifiers|
      invariant 0 <= i <= |suitIdsWithModifiers|
      invariant variant == InitialDescriptor(newId, suitNames.value, AnySuitShowsName(suitIdsWithModifiers[..i], suitsIdMap))
    {
      assert SuitNameFromSuitId(suitIdsWithModifiers[i], suitsIdMap).Ok?;
      var suitId := SplitSuitId(suitIdsWithModifiers[i])[0];
      var suit := suitsIdMap[suitId];
      AnySuitShowsNameStep(suitIdsWithModifiers, i, suitsIdMap);
      if suit.showSuitName == Some(true) {
        variant := variant.(fields := variant.fields[SHOW_SUIT_NAMES_KEY := JBool(true)]);
      }
      i := i + 1;
    }
    assert suitIdsWithModifiers[..i] == suitIdsWithModifiers;

    r := ApplyVariantModifiers(variant, variantModifiers, newId, getSpecialClueRanks);
  }

  /** The modifier loop of `getVariantFromNewID`: each code is checked, then
      its case of the `switch` updates the descriptor in place. */
  method ApplyVariantModifiers(variant0: VariantJson, variantModifiers: seq<string>, newId: string,
                               getSpecialClueRanks: int -> seq<int>)
    returns (r: Result<VariantJson, DecodeError>)
    ensures r == ApplyModifiers(variant0, variantModifiers, newId, getSpecialClueRanks)
  {
    var variant := variant0;
    var i := 0;
    while i < |variantModifiers|
      invariant 0 <= i <= |variantModifiers|
      invariant ApplyModifiers(variant, variantModifiers[i..], newId, getSpecialClueRanks)
             == ApplyModifiers(variant0, variantModifiers, newId, getSpecialClueRanks)
    {
      var variantModifier := variantModifiers[i];
      assert variantModifiers[i..][1..] == variantModifiers[i + 1..];
      if |variantModifier| < 2 {
        return Fatal(ModifierTooShort(variantModifier));
      }
      var effect := ModifierEffect(variantModifier);
      if effect.None? {
        return Thrown(UnknownModifier(variantModifier, newId));
      }
      variant := ApplyModifier(variant, variantModifier, effect.value, getSpecialClueRanks);
      if SpecialRankIsZero(variant) {
        return Fatal(SpecialRankUnparsed);
      }
      i := i + 1;
    }
    return Ok(variant);
  }

  // ---------------------------------------------------------------------
  // What a decoded ID looks like

  /** A key outside `DATA_KEYS` is only ever written with `true`. */
  lemma {:induction false} LastWriteOfFlag(modifiers: seq<string>, key: string, getSpecialClueRanks: int -> seq<int>)
    requires key !in DATA_KEYS
    ensures LastWrite(modifiers, key, getSpecialClueRanks) == None
         || LastWrite(modifiers, key, getSpecialClueRanks) == Some(JBool(true))
    decreases |modifiers|
  {
    if modifiers != [] {
      LastWriteOfFlag(modifiers[1..], key, getSpecialClueRanks);
    }
  }

  /** Decoding succeeds exactly when every suit token resolves and every
      variant modifier is in the table. */
  lemma DecodeNewIdSucceedsIff(newId: string, suitsIdMap: map<string, SuitJson>, getSpecialClueRanks: int -> seq<int>)
    ensures DecodeNewId(newId, suitsIdMap, getSpecialClueRanks).Ok? <==>
      && (forall i :: 0 <= i < |SuitTokens(newId)| ==> SuitNameFromSuitId(SuitTokens(newId)[i], suitsIdMap).Ok?)
      && (forall j :: 0 <= j < |VariantModifiers(newId)| ==> ModifierEffect(VariantModifiers(newId)[j]).Some?)
  {
    var names := GetSuitNamesFromSuitId(SuitTokens(newId), suitsIdMap);
    if names.Ok? {
      var variant := InitialDescriptor(newId, names.value, AnySuitShowsName(SuitTokens(newId), suitsIdMap));
      ModifiersSucceedIff(variant, VariantModifiers(newId), newId, getSpecialClueRanks);
    }
  }

  /** Suit tokens are checked before any modifier: the first bad suit token
      is a fatal error, and with all suits good the first modifier missing
      from the table is fatal when shorter than two characters and thrown,
      naming the modifier and the whole ID, otherwise. */
  lemma DecodeNewIdFailure(newId: string, suitsIdMap: map<string, SuitJson>, getSpecialClueRanks: int -> seq<int>)
    ensures forall k ::
      (&& 0 <= k < |SuitTokens(newId)|
       && !SuitNameFromSuitId(SuitTokens(newId)[k], suitsIdMap).Ok?
       && (forall i :: 0 <= i < k ==> SuitNameFromSuitId(SuitTokens(newId)[i], suitsIdMap).Ok?))
      ==> DecodeNewId(newId, suitsIdMap, getSpecialClueRanks)
          == Fatal(SuitNameFromSuitId(SuitTokens(newId)[k], suitsIdMap).error)
    ensures (forall i :: 0 <= i < |SuitTokens(newId)| ==> SuitNameFromSuitId(SuitTokens(newId)[i], suitsIdMap).Ok?)
      ==> forall k ::
        (&& 0 <= k < |VariantModifiers(newId)|
         && ModifierEffect(VariantModifiers(newId)[k]).None?
         && (forall j :: 0 <= j < k ==> ModifierEffect(VariantModifiers(newId)[j]).Some?))
        ==> DecodeNewId(newId, suitsIdMap, getSpecialClueRanks)
            == if |VariantModifiers(newId)[k]| < 2 then Fatal(ModifierTooShort(VariantModifiers(newId)[k]))
               else Thrown(UnknownModifier(VariantModifiers(newId)[k], newId))
  {
    var tokens, modifiers := SuitTokens(newId), VariantModifiers(newId);
    forall k | 0 <= k < |tokens| && !SuitNameFromSuitId(tokens[k], suitsIdMap).Ok?
      && (forall i :: 0 <= i < k ==> SuitNameFromSuitId(tokens[i], suitsIdMap).Ok?)
      ensures DecodeNewId(newId, suitsIdMap, getSpecialClueRanks) == Fatal(SuitNameFromSuitId(tokens[k], suitsIdMap).error)
    {
      SuitNamesFirstFailure(tokens, suitsIdMap, k);
    }
    var names := GetSuitNamesFromSuitId(tokens, suitsIdMap);
    if names.Ok? {
      var variant := InitialDescriptor(newId, names.value, AnySuitShowsName(tokens, suitsIdMap));
      forall k | 0 <= k < |modifiers| && ModifierEffect(modifiers[k]).None?
        && (forall j :: 0 <= j < k ==> ModifierEffect(modifiers[j]).Some?)
        ensures DecodeNewId(newId, suitsIdMap, getSpecialClueRanks)
          == if |modifiers[k]| < 2 then Fatal(ModifierTooShort(modifiers[k])) else Thrown(UnknownModifier(modifiers[k], newId))
      {
        ModifiersFirstFailure(variant, modifiers, newId, getSpecialClueRanks, k);
      }
    }
  }

  /** A decoded descriptor has an empty name, ID 0, the input as `newID`,
      and one suit name per suit token, in order. */
  lemma DecodedHeader(newId: string, suitsIdMap: map<string, SuitJson>, getSpecialClueRanks: int -> seq<int>)
    requires DecodeNewId(newId, suitsIdMap, getSpecialClueRanks).Ok?
    ensures var variant := DecodeNewId(newId, suitsIdMap, getSpecialClueRanks).value;
      && variant.name == "" && variant.id == 0
      && Get(variant.fields, NEW_ID_KEY) == Some(JStr(newId))
      && Get(variant.fields, SUITS_KEY) == Some(StringArray(GetSuitNamesFromSuitId(SuitTokens(newId), suitsIdMap).value))
      && |GetSuitNamesFromSuitId(SuitTokens(newId), suitsIdMap).value| == |SuitTokens(newId)|
  {
    var names := GetSuitNamesFromSuitId(SuitTokens(newId), suitsIdMap).value;
    var initial := InitialDescriptor(newId, names, AnySuitShowsName(SuitTokens(newId), suitsIdMap));
    ModifiersLastWriteWins(initial, VariantModifiers(newId), newId, getSpecialClueRanks);
    assert LastWrite(VariantModifiers(newId), NEW_ID_KEY, getSpecialClueRanks) == None by {
      LastWriteIsLastWriter(VariantModifiers(newId), NEW_ID_KEY, getSpecialClueRanks);
    }
    assert LastWrite(VariantModifiers(newId), SUITS_KEY, getSpecialClueRanks) == None by {
      LastWriteIsLastWriter(VariantModifiers(newId), SUITS_KEY, getSpecialClueRanks);
    }
  }

  /** In a decoded descriptor every property outside `DATA_KEYS` that is
      present is `true`, and `specialRank` is absent, 1 or 5. */
  lemma DecodedFlagsAreTrue(newId: string, suitsIdMap: map<string, SuitJson>, getSpecialClueRanks: int -> seq<int>)
    requires DecodeNewId(newId, suitsIdMap, getSpecialClueRanks).Ok?
    ensures var variant := DecodeNewId(newId, suitsIdMap, getSpecialClueRanks).value;
      && (forall key :: key in variant.fields && key !in DATA_KEYS ==> variant.fields[key] == JBool(true))
      && SpecialRankOneOrFive(variant)
  {
    var modifiers := VariantModifiers(newId);
    var names := GetSuitNamesFromSuitId(SuitTokens(newId), suitsIdMap).value;
    var initial := InitialDescriptor(newId, names, AnySuitShowsName(SuitTokens(newId), suitsIdMap));
    var variant := DecodeNewId(newId, suitsIdMap, getSpecialClueRanks).value;
    ModifiersLastWriteWins(initial, modifiers, newId, getSpecialClueRanks);
    ModifiersSucceedIff(initial, modifiers, newId, getSpecialClueRanks);
    forall key | key in variant.fields && key !in DATA_KEYS ensures variant.fields[key] == JBool(true) {
      LastWriteOfFlag(modifiers, key, getSpecialClueRanks);
      assert Get(variant.fields, key) == Overlay(LastWrite(modifiers, key, getSpecialClueRanks), Get(initial.fields, key));
    }
  }

  /** Of all the codes, only `UD` writes `showSuitNames`. */
  lemma OnlyUpOrDownShowsSuitNames(code: string, getSpecialClueRanks: int -> seq<int>)
    ensures Writes(code, SHOW_SUIT_NAMES_KEY, getSpecialClueRanks).Some? <==> code == "UD"
  {
  }

  /** `showSuitNames` is present exactly when a referenced suit has
      `showSuitName` set or a modifier is `UD`. */
  lemma DecodedShowSuitNames(newId: string, suitsIdMap: map<string, SuitJson>, getSpecialClueRanks: int -> seq<int>)
    requires DecodeNewId(newId, suitsIdMap, getSpecialClueRanks).Ok?
    ensures SHOW_SUIT_NAMES_KEY in DecodeNewId(newId, suitsIdMap, getSpecialClueRanks).value.fields <==>
      || AnySuitShowsName(SuitTokens(newId), suitsIdMap)
      || exists j :: 0 <= j < |VariantModifiers(newId)| && VariantModifiers(newId)[j] == "UD"
  {
    var modifiers := VariantModifiers(newId);
    var names := GetSuitNamesFromSuitId(SuitTokens(newId), suitsIdMap).value;
    var initial := InitialDescriptor(newId, names, AnySuitShowsName(SuitTokens(newId), suitsIdMap));
    var variant := DecodeNewId(newId, suitsIdMap, getSpecialClueRanks).value;
    ModifiersLastWriteWins(initial, modifiers, newId, getSpecialClueRanks);
    LastWriteIsLastWriter(modifiers, SHOW_SUIT_NAMES_KEY, getSpecialClueRanks);
    assert Get(variant.fields, SHOW_SUIT_NAMES_KEY)
        == Overlay(LastWrite(modifiers, SHOW_SUIT_NAMES_KEY, getSpecialClueRanks), Get(initial.fields, SHOW_SUIT_NAMES_KEY));
    forall j | 0 <= j < |modifiers|
      ensures Writes(modifiers[j], SHOW_SUIT_NAMES_KEY, getSpecialClueRanks).Some? <==> modifiers[j] == "UD"
    {
      OnlyUpOrDownShowsSuitNames(modifiers[j], getSpecialClueRanks);
    }
  }

  /** Rank-family codes set `specialRank` to their digit: it is present
      exactly when some modifier is a rank-family code, and it holds the
      digit of the last such code. */
  lemma DecodedSpecialRank(newId: string, suitsIdMap: map<string, SuitJson>, getSpecialClueRanks: int -> seq<int>)
    requires DecodeNewId(newId, suitsIdMap, getSpecialClueRanks).Ok?
    ensures var variant := DecodeNewId(newId, suitsIdMap, getSpecialClueRanks).value;
      var modifiers := VariantModifiers(newId);
      && (SPECIAL_RANK_KEY in variant.fields <==>
           exists j :: 0 <= j < |modifiers| && ModifierEffect(modifiers[j]).Some? && ModifierEffect(modifiers[j]).value.setsSpecialRank)
      && forall j :: 0 <= j < |modifiers| && ModifierEffect(modifiers[j]).Some? && ModifierEffect(modifiers[j]).value.setsSpecialRank
           && (forall i :: j < i < |modifiers| ==> ModifierEffect(modifiers[i]).Some? && !ModifierEffect(modifiers[i]).value.setsSpecialRank)
           ==> variant.fields[SPECIAL_RANK_KEY] == JNum(SpecialRankDigit(modifiers[j]))
  {
    var modifiers := VariantModifiers(newId);
    var names := GetSuitNamesFromSuitId(SuitTokens(newId), suitsIdMap).value;
    var initial := InitialDescriptor(newId, names, AnySuitShowsName(SuitTokens(newId), suitsIdMap));
    var variant := DecodeNewId(newId, suitsIdMap, getSpecialClueRanks).value;
    ModifiersLastWriteWins(initial, modifiers, newId, getSpecialClueRanks);
    LastWriteIsLastWriter(modifiers, SPECIAL_RANK_KEY, getSpecialClueRanks);
    assert Get(variant.fields, SPECIAL_RANK_KEY)
        == Overlay(LastWrite(modifiers, SPECIAL_RANK_KEY, getSpecialClueRanks), Get(initial.fields, SPECIAL_RANK_KEY));
  }

  /** `clueRanks` is what the last modifier that writes it assigned (the
      rank-family codes other than R and W, `NM`, `Sy` and `OE`), and is
      absent when none does. */
  lemma DecodedClueRanks(newId: string, suitsIdMap: map<string, SuitJson>, getSpecialClueRanks: int -> seq<int>)
    requires DecodeNewId(newId, suitsIdMap, getSpecialClueRanks).Ok?
    ensures var variant := DecodeNewId(newId, suitsIdMap, getSpecialClueRanks).value;
      var modifiers := VariantModifiers(newId);
      && (CLUE_RANKS_KEY in variant.fields <==>
           exists j :: 0 <= j < |modifiers| && Writes(modifiers[j], CLUE_RANKS_KEY, getSpecialClueRanks).Some?)
      && forall j :: 0 <= j < |modifiers| && Writes(modifiers[j], CLUE_RANKS_KEY, getSpecialClueRanks).Some?
           && (forall i :: j < i < |modifiers| ==> Writes(modifiers[i], CLUE_RANKS_KEY, getSpecialClueRanks).None?)
           ==> Some(variant.fields[CLUE_RANKS_KEY]) == Writes(modifiers[j], CLUE_RANKS_KEY, getSpecialClueRanks)
  {
    var modifiers := VariantModifiers(newId);
    var names := GetSuitNamesFromSuitId(SuitTokens(newId), suitsIdMap).value;
    var initial := InitialDescriptor(newId, names, AnySuitShowsName(SuitTokens(newId), suitsIdMap));
    var variant := DecodeNewId(newId, suitsIdMap, getSpecialClueRanks).value;
    ModifiersLastWriteWins(initial, modifiers, newId, getSpecialClueRanks);
    LastWriteIsLastWriter(modifiers, CLUE_RANKS_KEY, getSpecialClueRanks);
    assert Get(variant.fields, CLUE_RANKS_KEY)
        == Overlay(LastWrite(modifiers, CLUE_RANKS_KEY, getSpecialClueRanks), Get(initial.fields, CLUE_RANKS_KEY));
  }

  /** An ID whose last modifier is `OE` decodes with `oddsAndEvens` set and
      clue ranks exactly [1, 2], whatever came before. */
  lemma OddsAndEvensLast(newId: string, suitsIdMap: map<string, SuitJson>, getSpecialClueRanks: int -> seq<int>)
    requires DecodeNewId(newId, suitsIdMap, getSpecialClueRanks).Ok?
    requires |VariantModifiers(newId)| > 0 && VariantModifiers(newId)[|VariantModifiers(newId)| - 1] == "OE"
    ensures var variant := DecodeNewId(newId, suitsIdMap, getSpecialClueRanks).value;
      && Get(variant.fields, CLUE_RANKS_KEY) == Some(NumberArray([1, 2]))
      && Get(variant.fields, "oddsAndEvens") == Some(JBool(true))
  {
    var modifiers := VariantModifiers(newId);
    var names := GetSuitNamesFromSuitId(SuitTokens(newId), suitsIdMap).value;
    var initial := InitialDescriptor(newId, names, AnySuitShowsName(SuitTokens(newId), suitsIdMap));
    var variant := DecodeNewId(newId, suitsIdMap, getSpecialClueRanks).value;
    ModifiersLastWriteWins(initial, modifiers, newId, getSpecialClueRanks);
    OddsAndEvensWrites(getSpecialClueRanks);
    LastWriteOfLast(modifiers, CLUE_RANKS_KEY, getSpecialClueRanks);
    LastWriteOfLast(modifiers, "oddsAndEvens", getSpecialClueRanks);
    assert Get(variant.fields, CLUE_RANKS_KEY)
        == Overlay(LastWrite(modifiers, CLUE_RANKS_KEY, getSpecialClueRanks), Get(initial.fields, CLUE_RANKS_KEY));
    assert Get(variant.fields, "oddsAndEvens")
        == Overlay(LastWrite(modifiers, "oddsAndEvens", getSpecialClueRanks), Get(initial.fields, "oddsAndEvens"));
  }

  /** The `OE` case sets `oddsAndEvens` and sets the clue ranks to [1, 2]. */
  lemma OddsAndEvensWrites(getSpecialClueRanks: int -> seq<int>)
    ensures Writes("OE", CLUE_RANKS_KEY, getSpecialClueRanks) == Some(NumberArray([1, 2]))
    ensures Writes("OE", "oddsAndEvens", getSpecialClueRanks) == Some(JBool(true))
  {
    assert ModifierEffect("OE") == Some(Effect(false, {"oddsAndEvens"}, SetClueRanks([1, 2]), false));
  }

  /** A write by the last modifier is the last write. */
  lemma {:induction false} LastWriteOfLast(modifiers: seq<string>, key: string, getSpecialClueRanks: int -> seq<int>)
    requires |modifiers| > 0 && Writes(modifiers[|modifiers| - 1], key, getSpecialClueRanks).Some?
    ensures LastWrite(modifiers, key, getSpecialClueRanks) == Writes(modifiers[|modifiers| - 1], key, getSpecialClueRanks)
    decreases |modifiers|
  {
    if |modifiers| > 1 {
      LastWriteOfLast(modifiers[1..], key, getSpecialClueRanks);
    }
  }
}
