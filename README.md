# Variant catalog and leader hand-off, modelled in Dafny

This project models the part of the hanabi-live code base that turns the game's
variant catalog into the in-memory variant registry, on both the TypeScript and
the Go side, and the server command that passes table leadership to another
user. It has five parts:

- **Compact-ID decoder** (`new_id.dfy`, module `NewId`). Expands an ID such as
  `B+R/R:P5:OE` into a variant descriptor:
  - the text before the first `:` lists suit codes separated by `+`;
  - each suit code may carry `/`-separated suit modifiers, of which only `R`
    (reversed) exists;
  - every later `:`-separated part is a variant modifier code, applied left to
    right, and later assignments overwrite earlier ones.
- **TypeScript catalog compiler** (`variants_init.dfy`, module `VariantsInit`).
  Validates each JSON descriptor against the colour and suit tables and
  resolves it into a `Variant`. The variants are collected in a JavaScript
  `Map` keyed by name (`js_maps.dfy`). Every rejection is a thrown error.
- **TypeScript registry** (`game_data.dfy`, module `GameData`). Holds the
  name-keyed map and a second map keyed by variant ID, built by a loop over
  the first. Its lookups return the entry or throw.
- **Go catalog loader** (`go_variants.dfy`, module `GoVariants`). A `Manager`
  whose name map, ID map, name list and default-variant field are filled in
  place, one descriptor at a time. After the loop it checks that the IDs
  0 to n-1 are all present and that the default variant was seen. Every
  rejection is fatal.
- **Leader hand-off** (`table_set_leader.dfy`, module `TableSetLeader`). The
  `/setleader` command checks the request and finds the named spectator or
  player. It then makes that user the table's owner and, on the pregame screen,
  swaps the old and new leaders' seats in place.

Shared pieces:

- `wrappers.dfy`: `Option`, and `Result` with two failure kinds. `Fatal` is a
  process-ending `fatalError` or `logger.Fatal`; `Thrown` is an exception.
- `strings.dfy`: JavaScript's `split` and its inverse.
- `seqs.dfy`: order-preserving de-duplication, and the "convert each item,
  stop at the first failure" loop.
- `clue_colors.dfy`: the clue colours both compilers derive from the suits
  when a descriptor lists none. The two loops are the same, so they share one
  definition that sees a suit through two accessors.
- `data_types.dfy`: JSON values, descriptors and compiled variants of the
  TypeScript side.

Behaviour of other parts of the system is taken as parameters:

- Constants whose values live elsewhere are declared without a value: the
  reversed-suit suffix, the START card rank, the default variant name, the
  points per stack, and the default card and clue ranks of the TypeScript
  package.
- Helper functions that live elsewhere are function-typed parameters:
  `getSpecialClueRanks`, `getSuitAbbreviationsForVariant`,
  `getIdentityNotePatternForVariant`, `isNameUpOrDown`, `normalizeString` and
  `GetPlayerIndexFromID`.

Behaviour of the source that a reader may not expect, which the model
follows:

- An empty catalog is a thrown `Error` in `variantsInit.ts` (lines 21-25), not
  a fatal abort.
- The decoder's table only has rank codes ending in `1` or `5`. Any other digit
  falls to the `default` case and is thrown as an unknown modifier. So the
  "special rank is 0" fatal check (`newID.ts` lines 242-244) can never fire;
  `NewId.ModifiersSucceedIff` proves it.
- The TypeScript compiler does not reject two variants with the same name.
  The later one replaces the earlier one in the map and keeps its place. The
  Go loader rejects it.
- The Go loader's check for skipped IDs is live code, although its comment
  says it is commented out.

## Model

| member | source | states |
|---|---|---|
| NewId.SplitSuitId | packages/data/src/createVariants/newID.ts:278-280 | splitting a suit token at `/` gives at least one part, no part contains `/`, and joining the parts with `/` gives the token back |
| NewId.FirstUnknownSuitModifier | packages/data/src/createVariants/newID.ts:265-271 | no unknown modifier is found exactly when every suit modifier is `R`; one that is found is in the list and is not `R` |
| NewId.SuitNameFromSuitId | packages/data/src/createVariants/newID.ts:254-275 | a token resolves exactly when its code is in the suit table and all its modifiers are `R`; the name is the suit's name plus the reversed suffix exactly when `R` is present; failures are fatal, never thrown |
| NewId.GetSuitNamesFromSuitId | packages/data/src/createVariants/newID.ts:250-276 | succeeds exactly when every token resolves, giving one name per token in order; failures are fatal |
| NewId.SuitNamesFirstFailure | packages/data/src/createVariants/newID.ts:254-263 | when tokens fail, the error is that of the first failing token |
| NewId.AnySuitShowsName | packages/data/src/createVariants/newID.ts:36-50 | whether some suit token names a suit whose `showSuitName` is true; `AnySuitShowsNameStep` ties it to the loop one token at a time |
| NewId.AnySuitShowsNameStep | packages/data/src/createVariants/newID.ts:36-50 | scanning one more token sets "some suit shows its name" exactly when that token's suit has `showSuitName` true |
| NewId.ModifierEffect | packages/data/src/createVariants/newID.ts:63-240 | every code in the table has two characters; the codes that set the special rank end in 1 or 5; no code writes a flag over the suits, ID, special rank, clue ranks or clue colours |
| NewId.SpecialRankDigit | packages/data/src/createVariants/newID.ts:57-61 | the special rank read from a code is 0 to 9, and non-zero only when the second character is a digit 1-9 |
| NewId.ApplyModifier | packages/data/src/createVariants/newID.ts:63-240 | one case of the switch keeps the name and ID and removes no key; `ApplyModifierWrites` gives exactly which keys it changes and to what |
| NewId.ApplyModifierWrites | packages/data/src/createVariants/newID.ts:63-240 | one case of the switch keeps the name and ID and changes exactly the keys that code writes, to the values it writes |
| NewId.ApplyModifierKeepsOneOrFive | packages/data/src/createVariants/newID.ts:57-244 | applying any code of the table leaves a special rank that was absent, 1 or 5 still absent, 1 or 5, so never 0 |
| NewId.ModifiersLastWriteWins | packages/data/src/createVariants/newID.ts:52-245 | after the modifier loop every key holds the value of the last modifier that writes it, or its value before the loop when none does |
| NewId.LastWriteIsLastWriter | packages/data/src/createVariants/newID.ts:52-245 | a key is written exactly when some modifier writes it, and the value is the one assigned by the last such modifier |
| NewId.LastWriteOfLast | packages/data/src/createVariants/newID.ts:52-245 | when the last modifier writes a key, its write is the key's final value |
| NewId.ModifiersSucceedIff | packages/data/src/createVariants/newID.ts:52-245 | the modifier loop succeeds exactly when every code is in the table; it never fails with "special rank is 0"; afterwards the special rank is absent, 1 or 5 |
| NewId.ModifiersFirstFailure | packages/data/src/createVariants/newID.ts:52-245 | the first code not in the table decides the failure: fatal when shorter than two characters, otherwise thrown, naming the code and the whole ID |
| NewId.GetVariantFromNewId | packages/data/src/createVariants/newID.ts:17-248 | the method, with its loops and in-place updates, computes `DecodeNewId` |
| NewId.ApplyVariantModifiers | packages/data/src/createVariants/newID.ts:52-245 | the modifier loop that updates the descriptor in place computes `ApplyModifiers` |
| NewId.LastWriteOfFlag | packages/data/src/createVariants/newID.ts:63-233 | any key other than the suits, ID, special rank, clue ranks and clue colours is only ever written with `true` |
| NewId.ApplyModifiers | packages/data/src/createVariants/newID.ts:52-245 | the modifier loop keeps the name, ID and every key already present; a fatal failure is a too-short code or an unparsed special rank, a thrown one an unknown code named with the whole ID; `ModifiersSucceedIff` and `ModifiersLastWriteWins` give when it succeeds and what it writes |
| NewId.InitialDescriptor | packages/data/src/createVariants/newID.ts:29-34 | the descriptor before any modifier: empty name, ID 0, the suit names and the ID as `newID`, and `showSuitNames` true exactly when asked for, and no other key |
| NewId.DecodeNewId | packages/data/src/createVariants/newID.ts:17-248 | a decoded descriptor has an empty name, ID 0, the suits and the ID; a fatal failure is a bad suit token, a too-short code or an unparsed special rank, and a thrown one an unknown modifier named with the whole ID; `DecodeNewIdSucceedsIff` and `DecodeNewIdFailure` give exactly when |
| NewId.DecodeNewIdSucceedsIff | packages/data/src/createVariants/newID.ts:17-248 | decoding succeeds exactly when every suit token resolves and every modifier code is in the table |
| NewId.DecodeNewIdFailure | packages/data/src/createVariants/newID.ts:17-248 | suit tokens are checked first and the first bad one is a fatal error; with all suits good, the first unknown modifier is fatal if shorter than two characters and thrown otherwise |
| NewId.DecodedHeader | packages/data/src/createVariants/newID.ts:29-34 | a decoded descriptor has an empty name, ID 0, the input as `newID`, and one suit name per token, in order |
| NewId.DecodedFlagsAreTrue | packages/data/src/createVariants/newID.ts:63-244 | in a decoded descriptor every flag present is `true`, and the special rank is absent, 1 or 5 |
| NewId.OnlyUpOrDownShowsSuitNames | packages/data/src/createVariants/newID.ts:208-213 | of all the codes, only `UD` writes `showSuitNames` |
| NewId.DecodedShowSuitNames | packages/data/src/createVariants/newID.ts:36-213 | `showSuitNames` is present exactly when some referenced suit has `showSuitName` set or some modifier is `UD` |
| NewId.DecodedSpecialRank | packages/data/src/createVariants/newID.ts:57-145 | the special rank is present exactly when some code of a rank family is used, and it holds the digit of the last such code |
| NewId.DecodedClueRanks | packages/data/src/createVariants/newID.ts:63-233 | the clue ranks are present exactly when some modifier writes them, and they hold what the last such modifier wrote |
| NewId.OddsAndEvensWrites | packages/data/src/createVariants/newID.ts:228-233 | the `OE` code writes `oddsAndEvens` as `true` and the clue ranks as [1, 2] |
| NewId.OddsAndEvensLast | packages/data/src/createVariants/newID.ts:229-233 | an ID whose last modifier is `OE` decodes with `oddsAndEvens` true and clue ranks exactly [1, 2], whatever came before |
| Seqs.MapResult | packages/data/src/variantsInit.ts:57-72 | converting each item succeeds exactly when every item converts, giving each converted value in order; a fatal or thrown failure comes from an item that failed in that way |
| Seqs.MapResultFirstFailure | packages/data/src/variantsInit.ts:57-72 | the first item that fails decides the error |
| Seqs.MapResultLoop | packages/data/src/variantsInit.ts:57-72 | the loop that pushes each converted item computes `MapResult` |
| Seqs.AppendNewSpec | packages/data/src/variantsInit.ts:109-121 | appending only new elements keeps the earlier list as a prefix, adds exactly the new elements, and adds no repeats |
| Seqs.AppendNewConcat | packages/data/src/variantsInit.ts:109-121 | appending two runs one after the other is the same as appending their concatenation |
| Seqs.DedupSnoc | packages/data/src/variantsInit.ts:109-121 | one more element is appended to the de-duplicated list exactly when it is not already there |
| Seqs.DedupSpec | packages/data/src/variantsInit.ts:109-121 | the de-duplicated list has no repeats, holds exactly the input's elements, and keeps them in order of first occurrence |
| ClueColors.Derive | packages/data/src/variantsInit.ts:107-122 | the clue colours both compilers derive suit by suit; `DeriveIsDedup` and `Derived` state what they are (the Go loop at server/pkg/variants/variants_init.go lines 78-90 is the same) |
| ClueColors.DeriveIsDedup | packages/data/src/variantsInit.ts:107-122 | the derived clue colours are the de-duplicated clue colours of the suits not touched by every colour (the Go loop at server/pkg/variants/variants_init.go lines 78-90 is the same) |
| ClueColors.EligibleMembers | packages/data/src/variantsInit.ts:109-121 | a colour is a candidate exactly when some suit not touched by every colour has it among its clue colours |
| ClueColors.Derived | server/pkg/variants/variants_init.go:74-91 | the derived clue colours have no repeats, contain exactly the colours of some suit not touched by every colour, and keep first-seen order |
| ClueColors.DeriveLoop | server/pkg/variants/variants_init.go:78-90 | the nested loop, with `continue` for suits touched by every colour and an `includes`/`StringInSlice` test before each append, computes the derived clue colours (the TypeScript loop at packages/data/src/variantsInit.ts lines 109-121 is the same) |
| VariantsInit.ResolveSuit | packages/data/src/variantsInit.ts:57-72 | a failing suit entry is thrown, never fatal |
| VariantsInit.ResolveColor | packages/data/src/variantsInit.ts:91-106 | a failing clue-colour entry is thrown, never fatal |
| VariantsInit.CheckClueRank | packages/data/src/variantsInit.ts:133-139 | a clue-rank entry that is not a number is thrown, never fatal |
| VariantsInit.ClueColorsOf | packages/data/src/variantsInit.ts:81-122 | a failing clue-colour list is thrown, never fatal |
| VariantsInit.ClueRanksOf | packages/data/src/variantsInit.ts:124-141 | a failing clue-rank list is thrown, never fatal |
| VariantsInit.RanksOf | packages/data/src/variantsInit.ts:74-79 | the ranks start with the default ranks, and have one more rank, the START rank, exactly when the name starts with "Up or Down" |
| VariantsInit.SpecialRankOf | packages/data/src/variantsInit.ts:167-182 | the special rank is accepted exactly when absent or a number from 1 to 5; it is then -1 when absent and otherwise that number; a non-number or an out-of-range number is thrown, naming the variant, and nothing is fatal |
| VariantsInit.CompileVariant | packages/data/src/variantsInit.ts:27-330 | compiling one descriptor never fails fatally |
| VariantsInit.CompileFlags | packages/data/src/variantsInit.ts:143-330 | checking the optional properties never fails fatally |
| VariantsInit.CheckFlags | packages/data/src/variantsInit.ts:143-293 | a run of `true`-only properties passes exactly when each is absent or `true`; otherwise the first one that is not is thrown, naming the key and the variant |
| VariantsInit.CompileFlagsOkIff | packages/data/src/variantsInit.ts:143-278 | the optional properties pass exactly when each `true`-only flag is absent or `true` and the special rank is absent or a number from 1 to 5 |
| VariantsInit.CompileFlagsFields | packages/data/src/variantsInit.ts:143-293 | each flag is true exactly when present; the special rank is -1 exactly when absent and otherwise the descriptor's own number, 1 to 5; suit names are shown when asked for or when a suit is reversed; maximum score is 5 per suit; corner elements are offset exactly when a suit has several clue colours; the abbreviations and identity-note pattern come from the helpers |
| VariantsInit.SuitsResolveIff | packages/data/src/variantsInit.ts:57-72 | the suits resolve exactly when each entry is a string naming a suit of the table |
| VariantsInit.ClueColorsOkIff | packages/data/src/variantsInit.ts:81-106 | the clue colours are read without error exactly when they are absent or an array of strings naming colours of the table |
| VariantsInit.ClueRanksOkIff | packages/data/src/variantsInit.ts:124-141 | the clue ranks are read without error exactly when they are absent or an array of numbers |
| VariantsInit.CompileVariantAcceptsIff | packages/data/src/variantsInit.ts:27-278 | a descriptor compiles exactly when its name is non-empty, its ID non-negative, its suits a non-empty array of known suit names, its clue colours (if any) an array of known colour names, its clue ranks (if any) an array of numbers, and its optional properties acceptable |
| VariantsInit.CompiledVariantFields | packages/data/src/variantsInit.ts:27-293 | a compiled variant has the descriptor's name and ID, its suits looked up in order, the ranks of `RanksOf`, the listed clue colours resolved in order or else the derived ones, the listed clue ranks or else the defaults, and the optional properties applied to those lists: the special rank given (-1 when absent), suit names shown when asked for or a suit is reversed, maximum score 5 per suit |
| VariantsInit.CompileVariantJson | packages/data/src/variantsInit.ts:27-331 | the loop body, with its loops, computes `CompileVariant` |
| VariantsInit.CompileAll | packages/data/src/variantsInit.ts:27-332 | the map built by the loop is well formed: each key once, and the ordered keys are exactly the map's keys |
| VariantsInit.CompileCatalog | packages/data/src/variantsInit.ts:14-335 | a compiled catalog is a well-formed map |
| VariantsInit.CompileAllSucceedsIff | packages/data/src/variantsInit.ts:27-332 | the loop succeeds exactly when every descriptor compiles |
| VariantsInit.CompileAllNeverFatal | packages/data/src/variantsInit.ts:27-332 | when no descriptor fails fatally, the loop does not fail fatally |
| VariantsInit.CompileAllFirstFailure | packages/data/src/variantsInit.ts:27-332 | the first descriptor that fails decides the loop's error |
| VariantsInit.CompileAllKeys | packages/data/src/variantsInit.ts:331 | the map's keys are the descriptors' names, each once, in order of first appearance |
| VariantsInit.CompileAllLastWins | packages/data/src/variantsInit.ts:331 | each name maps to the variant compiled from the last descriptor with that name |
| VariantsInit.CatalogAcceptsIff | packages/data/src/variantsInit.ts:14-335 | the catalog is accepted exactly when it is non-empty and every descriptor is acceptable; a rejection is always thrown |
| VariantsInit.CatalogFirstFailure | packages/data/src/variantsInit.ts:21-332 | a rejected catalog reports the error of its first unacceptable descriptor |
| VariantsInit.CatalogContents | packages/data/src/variantsInit.ts:19-335 | an accepted catalog lists each name once in order of first appearance, and maps it to the variant compiled from the last descriptor with that name |
| VariantsInit.VariantsInit | packages/data/src/variantsInit.ts:14-335 | the compiler's loop over the catalog computes `CompileCatalog` |
| JsMaps.JsMap.Get | packages/data/src/gameData.ts:44 | a lookup finds a value exactly when the key is present, and it is the stored value |
| JsMaps.JsMap.Set | packages/data/src/variantsInit.ts:331 | setting keeps the map well formed, stores the value, leaves other keys alone, and appends the key to the order only when it is new |
| GameData.IndexById | packages/data/src/gameData.ts:23-30 | the by-ID map is well formed |
| GameData.IndexByIdKeys | packages/data/src/gameData.ts:23-30 | the by-ID map's keys are the variants' IDs, each once, in order of first appearance |
| GameData.IndexByIdLastWins | packages/data/src/gameData.ts:23-30 | each ID maps to the last variant with that ID |
| GameData.IndexByIdCovers | packages/data/src/gameData.ts:23-30 | every variant's ID is in the by-ID map, with an entry of that ID |
| GameData.IndexByIdDistinct | packages/data/src/gameData.ts:23-30 | with distinct IDs, the by-ID map gives back each variant exactly |
| GameData.BuildVariantsById | packages/data/src/gameData.ts:23-30 | the loop over the name map's values builds `IndexById` of those values in order |
| GameData.InitRegistry | packages/data/src/gameData.ts:11-30 | a built registry has a well-formed name map and a by-ID map built from it |
| GameData.GetSuit | packages/data/src/gameData.ts:32-41 | returns the suit exactly when the name is in the suit table, and otherwise throws naming the suit |
| GameData.GetVariant | packages/data/src/gameData.ts:43-52 | returns the variant exactly when the name is in the map, and otherwise throws naming the variant |
| GameData.GetVariantById | packages/data/src/gameData.ts:54-63 | returns the variant exactly when the ID is in the by-ID map, and otherwise throws naming the ID |
| GameData.GetDefaultVariant | packages/data/src/gameData.ts:65-67 | succeeds exactly when the default variant's name exists, returning its entry, and otherwise throws naming it |
| GameData.GetVariantNames | packages/data/src/gameData.ts:69-71 | the listed names are the name map's keys in insertion order, with no repeats, and are exactly the names that exist |
| GameData.GetCharacter | packages/data/src/gameData.ts:77-86 | returns the character exactly when the ID is in the table, and otherwise throws naming the ID |
| GameData.DoesVariantExist | packages/data/src/gameData.ts:73-75 | a name exists when the name map has it; `DoesVariantExistIff` ties this to the lookup and to the listed names |
| GameData.DoesVariantExistIff | packages/data/src/gameData.ts:43-75 | a name exists exactly when looking it up does not throw, and exactly when it is among the listed names |
| GameData.VariantByIdAgrees | packages/data/src/gameData.ts:23-63 | a variant found by name is also found by its ID, with that ID; when IDs are distinct it is the same variant |
| GameData.VariantIdsListed | packages/data/src/gameData.ts:23-30 | in a built registry the by-ID keys are the variants' IDs, each once, in name order |
| GameData.InitRegistryContents | packages/data/src/gameData.ts:11-75 | in a registry built from a catalog, the listed names are the catalog's names each once in order of first appearance, a name exists exactly when the catalog has it, and looking it up gives the variant compiled from the last descriptor with that name |
| GoVariants.ResolveSuit | server/pkg/variants/variants_init.go:53-63 | an unknown suit is fatal, never thrown |
| GoVariants.CheckColor | server/pkg/variants/variants_init.go:94-102 | an unknown clue colour is fatal, never thrown |
| GoVariants.RanksOf | server/pkg/variants/variants_init.go:65-72 | the ranks are 1 to 5, plus the START rank as a sixth exactly when the name starts with "Up or Down" |
| GoVariants.SpecialRankOf | server/pkg/variants/variants_init.go:113-117 | the special rank is never 0: a given non-zero rank is kept |
| GoVariants.ClueColorsOf | server/pkg/variants/variants_init.go:74-103 | succeeds exactly when every listed clue colour is in the colour table (always when none are listed), giving the listed colours or else the derived ones; failures are fatal |
| GoVariants.CompileVariant | server/pkg/variants/variants_init.go:43-136 | failures are fatal; a compiled variant keeps the descriptor's name and ID |
| GoVariants.CompileVariantSucceedsIff | server/pkg/variants/variants_init.go:43-103 | a descriptor compiles exactly when it has a suit, every suit is in the suit table, and every listed clue colour is in the colour table |
| GoVariants.CompiledVariant | server/pkg/variants/variants_init.go:43-136 | a compiled variant has its suits looked up in order, the ranks of `RanksOf`, the listed or derived clue colours, the listed clue ranks or 1 to 5, special rank -1 when 0, the flags copied, and maximum score of one full stack per suit |
| GoVariants.AddVariant | server/pkg/variants/variants_init.go:28-153 | every failure of one pass is fatal |
| GoVariants.AddVariantSucceedsIff | server/pkg/variants/variants_init.go:28-153 | a pass succeeds exactly when the name is non-empty and new, the ID non-negative and new, and the descriptor compiles; it then records the compiled variant |
| GoVariants.Record | server/pkg/variants/variants_init.go:137-153 | the variant is stored under its name and its ID, its name is appended to the list, and it becomes the default variant exactly when it has the default name |
| GoVariants.RecordKeepsOthers | server/pkg/variants/variants_init.go:137-153 | recording a variant adds only its name and ID as keys and leaves every other name and ID mapped as before |
| GoVariants.AddVariantKeepsInvariant | server/pkg/variants/variants_init.go:137-153 | a successful pass keeps the loop invariant: the names processed in order without repeats, the name and ID maps keyed by exactly those names and IDs with each variant under its own name and ID, and the default variant set exactly when its name was seen |
| GoVariants.AddAllInvariant | server/pkg/variants/variants_init.go:27-154 | a successful loop ends in the loop invariant |
| GoVariants.AddAll | server/pkg/variants/variants_init.go:27-154 | every failure of the loop over the descriptors is fatal, never thrown; `AddAllSucceedsIff`, `AddAllEntries` and `AddAllFirstFailure` give when it succeeds, what it stores and which error it reports |
| GoVariants.AddAllSucceedsIff | server/pkg/variants/variants_init.go:27-154 | the loop succeeds exactly when each descriptor has a non-empty name and non-negative ID and compiles, and no name and no ID repeats |
| GoVariants.AddVariantKeepsCompiled | server/pkg/variants/variants_init.go:119-150 | after a successful pass each processed descriptor's compiled variant is stored under its name and under its ID |
| GoVariants.AddAllEntries | server/pkg/variants/variants_init.go:27-154 | after a successful loop each descriptor's compiled variant is stored under its name and under its ID |
| GoVariants.AddAllFirstFailure | server/pkg/variants/variants_init.go:27-154 | the first pass that fails ends the loop with that pass's fatal error |
| GoVariants.FirstMissingId | server/pkg/variants/variants_init.go:158-165 | no ID is reported exactly when every ID in the range is present; a reported ID is the smallest missing one |
| GoVariants.CheckLoaded | server/pkg/variants/variants_init.go:156-170 | the checks after the loop pass exactly when every ID below the number of variants is present and the default variant was seen; a pass keeps the catalog; a failure is fatal |
| GoVariants.LoadCatalog | server/pkg/variants/variants_init.go:26-170 | every rejection is fatal |
| GoVariants.LoadedCatalog | server/pkg/variants/variants_init.go:26-170 | after a successful load the names are distinct and in catalog order; each variant is under its name; the IDs are exactly 0 to n-1, with each variant under its ID; and the default variant is present and recorded |
| GoVariants.LoadCatalogSucceedsIff | server/pkg/variants/variants_init.go:26-170 | the load succeeds exactly when every descriptor compiles with a non-empty name and non-negative ID, names and IDs are distinct, the IDs cover 0 to n-1, and the default variant is among the names |
| GoVariants.Manager.BuildVariant | server/pkg/variants/variants_init.go:43-136 | the loop body's checks and loops compute `CompileVariant` |
| GoVariants.Manager.AddVariantJson | server/pkg/variants/variants_init.go:28-153 | one pass of the loop over the manager's fields leaves the catalog `AddVariant` describes, or reports its fatal error; the colour and suit tables are unchanged |
| GoVariants.Manager.AddVariantsJson | server/pkg/variants/variants_init.go:27-154 | the loop over the descriptors leaves the catalog `AddAll` describes, or reports its fatal error |
| GoVariants.Manager.CheckLoadedJson | server/pkg/variants/variants_init.go:156-170 | the loops over the IDs and the default-variant check report the fatal error `CheckLoaded` gives, and change nothing |
| GoVariants.Manager.VariantsInit | server/pkg/variants/variants_init.go:26-170 | the manager ends holding the catalog `LoadCatalog` describes, or reports its fatal error |
| TableSetLeader.FirstMatch | server/src/command_table_set_leader.go:45-68 | the search finds nothing exactly when no name normalises to the target; otherwise it finds the first one that does |
| TableSetLeader.Decide | server/src/command_table_set_leader.go:26-78 | the request checks never report a caller without a seat, which only the pregame seat swap can find; `DecideLeader` gives each rejection and the found leader |
| TableSetLeader.FindLeader | server/src/command_table_set_leader.go:45-68 | in a replay the leader is the first matching spectator, with index -1; otherwise the first matching player, with that player's seat; nothing is found exactly when nobody matches |
| TableSetLeader.DecideLeader | server/src/command_table_set_leader.go:26-78 | a missing name, a solo replay and naming oneself are each rejected exactly in their case; the lead passes exactly when someone of that name is at the table, and the new leader answers to that name and is not the caller |
| TableSetLeader.Swap | server/src/command_table_set_leader.go:93 | the two seats are exchanged and every other seat is unchanged |
| TableSetLeader.SwapPermutes | server/src/command_table_set_leader.go:89-93 | the swap is a permutation of the players, and swapping again restores the seats |
| TableSetLeader.Table.SearchPlayers | server/src/command_table_set_leader.go:57-67 | the loop over the players finds the leader `FindLeader` describes |
| TableSetLeader.Table.SearchSpectators | server/src/command_table_set_leader.go:46-56 | the loop over the spectators finds the leader `FindLeader` describes |
| TableSetLeader.Table.SetLeader | server/src/command_table_set_leader.go:83-102 | the owner becomes the new leader; in the pregame the caller's and the new leader's seats are swapped in place; otherwise the seats are unchanged |
| TableSetLeader.Table.CommandSetLeader | server/src/command_table_set_leader.go:17-102 | a rejected request changes nothing and reports the outcome `Decide` gives; an accepted one sets the owner and, in the pregame, swaps the seats |

## Left out

- Reading `variants.json` and unmarshalling it (`variants_init.go` lines 13-24, and the JSON import in `variantsInit.ts`): the catalog is an input sequence of descriptors.
- Floating-point numbers: JSON numbers are integers here. A fractional `specialRank` or clue rank is not modelled.
- Error message text: errors are kinds that keep the offending variant, suit, colour, key, code or ID.
- The helpers and constants defined in other files are parameters or constants without a value. The properties proved hold for every choice of them.
- `NewId.SpecialRankDigit`: `parseIntSafe` is not part of this model. A decimal digit is read as its value, and anything else as "not a number", which the decoder turns into 0.
- `GoVariants.Manager.AddVariantJson`, `GoVariants.Manager.VariantsInit`: after a fatal error the Go process exits, so the state the manager is left in is not described.
- `GoVariants.Manager.VariantsInit`: requires a manager with no variants yet, which is what the server builds before calling it.
- `VariantsInit.CompileVariant`: a descriptor's `name` is taken to be a string and its `id` an integer. The compiler reads the JSON untyped: a missing `id` passes the `id < 0` check (line 38) and is stored, and a missing or non-string `name` passes the `name === ""` check (line 30) and fails with a `TypeError` at `name.startsWith` (line 76), after the suit checks. The model does not describe these descriptors.
- `NewId.ApplyModifiers`: strings are sequences of Unicode scalar values, not of UTF-16 code units. Lengths and indexing differ on text outside the Basic Multilingual Plane: a variant modifier made of one such character has JavaScript length 2, so `newID.ts` (line 53) lets it through to the `default` case and throws "unknown modifier", where `NewId.ApplyModifiers` reports it as too short (fatal).
- Variants, suits and players are values, not references. Aliasing between the name map, the ID map and `noVariant` is not modelled.
- `TableSetLeader.Table.CommandSetLeader`:
  - table lookup and locking (`getTableAndLock`, `t.Unlock`) are not modelled;
  - the warnings, the error message, the replay-leader and player-change notifications and the chat message (lines 18-24, 27, 32, 40, 70-76, 87, 97, 100-101) are not modelled;
  - a caller without a seat in the pregame (an out-of-range index, a run-time panic in Go) is reported as the `CallerNotSeated` outcome with the owner already changed.
- `server/pkg/tables/requests.go`: the goroutine and channel request loop is concurrency machinery and is not part of this model.
- `src/commandGameRestart.go`: orchestration of command handlers and sessions that are not shown; not part of this model.
- `src/characterDefinitions.go`: a static data table with no behaviour; the character table is an input of `GameData.InitRegistry`.
