# Symbol randomizer and badge level cap, modelled in Dafny

This project models the randomizer scripts of a Pokémon FireRed/LeafGreen ROM hack and the hack's badge-based level cap.

The randomizer rewrites the C and assembly sources of the game. It finds every `SPECIES_…`, `ABILITY_…` and `ITEM_…` constant in the listed files and replaces it with another constant of the same kind. Rewriting can be limited to the lines between `// RANDOMIZER_START` and `// RANDOMIZER_END`.

The current randomizer (`randomizer/randomizer.py`) has four parts:

- **Catalogs.** It builds species and ability catalogs from `#define` lines. It builds item pools from the item records, split into key items and regular items.
- **BST map.** It builds a map from species to base stat total (BST), from a stats table or else from the base stats header.
- **Swap pools.** For each species it collects the species whose BST is within 75 of its own.
- **Starter map and resolver.** It fixes a replacement for each of the three original starters once. Each token then goes through a fixed resolver chain: starter map, protected species, swap pool, flat fallback pool, unchanged.

The older randomizer at the repository root (`randomizer.py`) has a single-tier resolver: an excluded species stays, anything else becomes a random catalog member.

`GetCurrentLevelCap` (`src/level_cap.c`) returns the cap for the highest gym badge held. The caps come from `include/level_cap.h`.

Conventions of the model:

- **Randomness.** A call of `random.choice(pool)` is an injected chooser `choose: nat -> nat` plus a draw counter. The n-th draw picks `pool[choose(n) % |pool|]`. Every property is stated for all choosers. Properties say which replacements are allowed. The `…Reaches` lemmas show that every allowed replacement is produced by some chooser.
- **Text.** A file's content is a string. Tokens are found by a scan that mirrors `re.sub(r"\bPREFIX\w+\b", …)`. `Tokens.Conforms` says that an output keeps every character of the input outside tokens, and that each token was replaced as the resolver's "allowed" relation permits.
- **Files.** The project tree is a map from full paths to contents. A path missing from the map is a file that does not exist.
- **Inputs.** The tables that `pandas` and `json` would load are inputs: rows `(Name, Total)` and item records. So is the list of discovered `scripts.inc` files. Each of the three randomizer phases (species, abilities, items) is a method from one tree to the next.

Modules:

- `Text`: character classes, substring search, `str.replace` and `str.upper`, line splitting, string order.
- `Tokens`: the chooser, the token scan, substitution and conformance.
- `Regions`: the marker loop.
- `Files`: the tree and the per-file loop.
- `Dicts`: Python dicts in insertion order.
- `Names`: `format_name_to_species_constant`.
- `Bst`: the two BST loaders.
- `Pools`: swap pools.
- `Catalog`: `#define` catalogs.
- `Paths`: file lists.
- `Species`, `Abilities`, `Items`: the three phases of the current randomizer.
- `Legacy`: the older randomizer.
- `LevelCap`: the level cap lookup.

## Model

| member | source | states |
|---|---|---|
| Names.FormatName | randomizer/randomizer.py:72-82 | the result starts with `SPECIES_`; the five special names are tested in source order and each gives its fixed constant; otherwise the result has no space, `-`, `.` or `'` |
| Names.UnderscoredClean | randomizer/randomizer.py:80-81 | after the replacement chain no space, hyphen, full stop or apostrophe is left |
| Names.NoSpecialName | randomizer/randomizer.py:74-78 | a name without `♀`, `♂`, `'` or `.` matches none of the five special cases |
| Text.ReplaceCharRemoves | randomizer/randomizer.py:81 | replacing a character by text without it leaves no occurrence, and keeps out one already absent |
| Text.Upper | randomizer/randomizer.py:82 | upper-casing keeps the length and maps each character by ASCII `upper` |
| Text.SplitLines | randomizer.py:79 | `splitlines(keepends=True)`: joining the lines gives back the content, no line is empty, no line holds a `\n` before its last character, and every line but the last ends with `\n` |
| Text.ConcatAppend | randomizer.py:94 | `"".join` of two line lists is the concatenation of their joins |
| Text.LessTransitive | randomizer.py:124 | Python's string order is transitive |
| Text.LessTotal | randomizer.py:124 | any two different strings are ordered one way or the other |
| Tokens.Choice | randomizer/randomizer.py:162 | a draw from a non-empty pool is a member of the pool |
| Tokens.ChoicePick | randomizer/randomizer.py:162 | every position of the pool is drawn by some chooser |
| Tokens.WordEnd | randomizer.py:62 | the end of the maximal run of word characters |
| Tokens.ScanStep | randomizer.py:62 | a token is matched exactly where `\bSPECIES_\w+\b` matches; it is the maximal word run there, the prefix plus at least one word character, and the scan resumes after it |
| Tokens.ScanRender | randomizer.py:79-98 | the pieces of the scan render back to the scanned text: no character is lost or added |
| Tokens.ScanTokensValid | randomizer/randomizer.py:155 | every matched token is the prefix followed by at least one more word character |
| Tokens.SplitRender | randomizer.py:98 | the pieces of a whole text render back to it |
| Tokens.SubPiecesCorrespond | randomizer/randomizer.py:178 | substitution keeps every character and replaces every token by a value the resolver allows |
| Tokens.SubstituteConforms | randomizer/randomizer.py:178 | `pattern.sub(resolver, text)` conforms to what the resolver allows |
| Tokens.NoTokenUnchanged | randomizer.py:98 | a text without tokens is left byte-identical |
| Regions.FlagAfterIsOpenRegion | randomizer.py:83-87 | the flag after line `i` is on iff some line up to `i` has START and no later line up to `i` has END |
| Regions.BeforeFirstStartPassesThrough | randomizer.py:81-92 | lines before the first START are not rewritten |
| Regions.AfterEndPassesThrough | randomizer.py:86-92 | lines from an END up to the next START are not rewritten |
| Regions.InsideRegionRewritten | randomizer.py:89-90 | a line after an open START, itself neither START nor END, is rewritten |
| Regions.MarkerLinesPassThrough | randomizer.py:84-92 | START and END lines are not rewritten |
| Regions.RewriteMarked | randomizer/randomizer.py:170-175 | one output line per input line; rewritten lines conform to the resolver, all others are byte-identical |
| Regions.RewriteContent | randomizer/randomizer.py:168-178 | with START anywhere, the joined per-line result; without it, the whole content conforms, END markers or not |
| Files.RewriteFiles | randomizer/randomizer.py:314-315 | every listed existing file is rewritten as `RewriteContent` promises; missing files are skipped; no file is created, removed, or changed off the list |
| Files.FirstMissing | randomizer/randomizer.py:166-180 | the position of the first listed file that does not exist, if any |
| Files.RewriteFilesAsWritten | randomizer/randomizer.py:166-180 | as written, the loop stops at the first missing file; the files before it are rewritten and the rest are untouched |
| Files.MissingIngameTradesStopsRun | randomizer.py:72-104 | a concrete run of the as-written loop under any resolver. The tree lacks `src/data/ingame_trades.h`, the first of the manual files, and no discovered file sorts before it. The loop stops at position 0 and the tree comes back unchanged, so the listed `src/data/trainer_parties.h` is never rewritten |
| Dicts.Put | randomizer/randomizer.py:100 | `d[k] = v`: `k` now maps to `v`, other keys keep their values, a new key goes last |
| Dicts.BuildLookup | randomizer/randomizer.py:96-100 | a dict filled by a loop of assignments maps each key to the value of its last entry |
| Dicts.BuildKeys | randomizer/randomizer.py:96-100 | a key is present iff some entry had it |
| Dicts.LastForNone | randomizer/randomizer.py:96-100 | no value is found for a key iff no entry has it |
| Dicts.LastForSome | randomizer/randomizer.py:96-100 | the value found for a key is that of its last entry |
| Dicts.CollectNone | randomizer/randomizer.py:117-126 | filtering entries keeps a key iff some element produced it |
| Dicts.CollectLast | randomizer/randomizer.py:117-126 | the value kept is the one of the last element that produced the key |
| Dicts.BuildCollectStep | randomizer/randomizer.py:96-100 | one more element either assigns its entry or leaves the dict as it was |
| Bst.CsvBst | randomizer/randomizer.py:84-105 | `None` iff the table is missing or the species catalog is empty; otherwise the dict built from the rows whose formatted name is in the catalog |
| Bst.CsvKeys | randomizer/randomizer.py:96-100 | a species gets a total iff it is in the catalog and some row's name formats to it |
| Bst.CsvLastRowWins | randomizer/randomizer.py:96-100 | the total of a species is that of its last row |
| Bst.FindStatFirst | randomizer/randomizer.py:122 | `re.search` finds the first match of `\.STAT\s*=\s*(\d+)`, and finds none only when there is none |
| Bst.BlockNameValid | randomizer/randomizer.py:115 | each block name is a `SPECIES_` token |
| Bst.BlocksNamed | randomizer/randomizer.py:115-118 | every block found by `finditer` is named by a `SPECIES_` token |
| Bst.FoundAll | randomizer/randomizer.py:121-126 | all six stats were found iff each stat's search succeeds |
| Bst.SumStats | randomizer/randomizer.py:120-125 | the inner loop gives the sum of the stats found and their number |
| Bst.HeaderBst | randomizer/randomizer.py:107-128 | `None` iff the header is missing; otherwise the dict built from the blocks in file order |
| Bst.HeaderKeys | randomizer/randomizer.py:115-126 | a species gets a total iff it is not excluded and one of its blocks has all six stats |
| Bst.HeaderLastBlockWins | randomizer/randomizer.py:115-126 | the total is the six-stat sum of the last complete block of that species |
| Pools.SwapPools | randomizer/randomizer.py:130-137 | every key of the BST map, and nothing else, gets a pool |
| Pools.PoolMember | randomizer/randomizer.py:134 | a species is in the pool for a BST iff its own BST is within the range |
| Pools.SwapPoolMember | randomizer/randomizer.py:133-135 | `b` is in the pool of `a` iff `|bst(a) - bst(b)| <= range` |
| Pools.SelfInPool | randomizer/randomizer.py:133-135 | with a non-negative range every species is in its own pool |
| Pools.PoolSymmetric | randomizer/randomizer.py:133-135 | `b` is in the pool of `a` iff `a` is in the pool of `b` |
| Pools.PoolInMapOrder | randomizer/randomizer.py:134 | each pool is a subsequence of the BST map's keys, in map order |
| Catalog.DefineNameValid | randomizer/randomizer.py:144-148 | each name matched by `#define (PREFIX\w+)\s` is a token of the prefix |
| Catalog.LoadCatalog | randomizer/randomizer.py:139-152 | a missing header gives `[]`; otherwise the kept names of its lines (also the loaders at randomizer/randomizer.py:185-197 and randomizer.py:40-54) |
| Catalog.CatalogMember | randomizer.py:40-54 | a name is in the catalog iff some line defines it and it is not excluded |
| Catalog.CatalogAppend | randomizer.py:46-51 | the catalog of two consecutive parts of a file is the concatenation of their catalogs: file order, duplicates kept |
| Catalog.CatalogTokens | randomizer/randomizer.py:144-148 | every catalog entry is a token of its prefix |
| Species.UnownFormsListed | randomizer/randomizer.py:28-30 | both `OLD_UNOWN_x` and `UNOWN_x` are listed for every letter from B to Z |
| Species.PoolExclusionsContents | randomizer/randomizer.py:27-32 | the exclusions have 55 entries: the protected species, plain Unown, the 50 lettered forms, `!` and `?` |
| Species.SpeciesStepAllowed | randomizer/randomizer.py:156-164 | each answer of the resolver chain is allowed, and at most one draw is made |
| Species.SpeciesResolverRespects | randomizer/randomizer.py:156-164 | the resolver only answers what the chain allows: starters first, protected next, then swap pool or fallback pool |
| Species.SpeciesStepReaches | randomizer/randomizer.py:160-164 | every allowed answer is the one some chooser produces |
| Species.SpeciesKeptCases | randomizer/randomizer.py:159-164 | a non-starter stays when it is protected, when pools exist but its pool is absent or empty, and when there is neither pool nor fallback |
| Species.SetupNeverDrawsExcluded | randomizer/randomizer.py:27-32 | after any set-up, a species the resolver replaces never becomes one of the pool exclusions. It holds on the table path, the header path and the fallback path |
| Species.BstMapNotExcluded | randomizer/randomizer.py:99-100 | every species with a total in the BST map is outside the pool exclusions: on the table path because it is a catalog member (randomizer/randomizer.py:147), on the header path because the block loop skips excluded names (randomizer/randomizer.py:119) |
| Species.PoolStarters | randomizer/randomizer.py:291-294 | each original starter is mapped to a member of its non-empty pool, or to itself |
| Species.RandomStarters | randomizer/randomizer.py:300 | every original starter is mapped to a member of the fallback pool |
| Species.LoadBstMap | randomizer/randomizer.py:283-287 | the CSV map, or the header map when the CSV one is `None` |
| Species.SetupSpecies | randomizer/randomizer.py:280-300 | a non-empty BST map gives its swap pools, no fallback and starters from their pools; otherwise no pools, the catalog as fallback, and starters from it |
| Species.RandomizeSpecies | randomizer/randomizer.py:302-318 | with a starter map, every existing species file conforms to one resolver configuration, so a starter becomes the same species in every file; without one, nothing changes |
| Abilities.AbilityResolverRespects | randomizer/randomizer.py:202-205 | a protected ability stays; any other becomes a member of the pool |
| Abilities.AbilityStepReaches | randomizer/randomizer.py:204-205 | every pool member is produced by some chooser |
| Abilities.NeverDrawsProtected | randomizer/randomizer.py:192-205 | with the catalog as the pool, a replaced ability is never a protected one |
| Abilities.RandomizeAbilities | randomizer/randomizer.py:321-324 | with a non-empty catalog, the whole data file conforms, with no marker handling; every other file is unchanged |
| Items.GetAllItems | randomizer/randomizer.py:213-245 | a missing, malformed or item-less source gives two empty pools; otherwise the key-pocket ids and the other kept ids, in record order |
| Items.PoolsPartitionKept | randomizer/randomizer.py:239-242 | the two pools together hold each kept record's id exactly once |
| Items.KeptInItsPool | randomizer/randomizer.py:239-242 | a kept id is in the pool of its pocket |
| Items.PoolsClean | randomizer/randomizer.py:236-237 | no pool holds an empty id, an excluded id or an `ITEM_HM` id |
| Items.SkippedRecord | randomizer/randomizer.py:233-237 | non-object records and records without an id add nothing |
| Items.ItemResolverRespects | randomizer/randomizer.py:249-257 | `ITEM_NONE` and unknown ids stay; an id in the regular list becomes a regular item, even if also a key item; a key-only id becomes a key item |
| Items.ItemStepReaches | randomizer/randomizer.py:254-257 | every allowed answer is produced by some chooser |
| Items.UnknownItemsKept | randomizer/randomizer.py:236-257 | excluded and `ITEM_HM` ids are never replaced |
| Items.RandomizeItems | randomizer/randomizer.py:326-349 | with a non-empty pool, every existing file of the item list conforms to the item resolver; all other files are unchanged |
| Paths.JoinAll | randomizer.py:115 | every manual path is joined to the project root |
| Paths.SortedDistinct | randomizer.py:124 | a strictly sorted list has no duplicates |
| Paths.InsertElements | randomizer.py:124 | insertion adds exactly the new element |
| Paths.InsertSorted | randomizer.py:124 | insertion keeps the list strictly sorted |
| Paths.SortedUniqueCorrect | randomizer.py:124 | `sorted(list(set(xs)))` is strictly sorted and holds exactly the elements of `xs` |
| Paths.Without | randomizer/randomizer.py:338 | the filter keeps exactly the files that are not excluded |
| Paths.SpeciesFileListCorrect | randomizer.py:115-124 | the file list is sorted, has no duplicates, and holds every manual and every discovered file and nothing else |
| Paths.ItemFileListCorrect | randomizer/randomizer.py:328-338 | the item file list is sorted, has no duplicates, and holds exactly the non-excluded manual and discovered files |
| Legacy.LegacyResolverRespects | randomizer.py:64-69 | an excluded species stays; any other token becomes a member of the species list |
| Legacy.LegacyStepReaches | randomizer.py:64-69 | every member of the species list is produced by some chooser |
| Legacy.NeverNoneOrEgg | randomizer.py:64-69 | with the catalog as the list, a replaced species is never `SPECIES_NONE` or `SPECIES_EGG` |
| Legacy.RunLegacy | randomizer.py:110-132 | with a non-empty catalog every existing listed file conforms to the single-tier resolver; files off the list, and the whole tree when the catalog is empty, are unchanged |
| LevelCap.GetCurrentLevelCap | src/level_cap.c:5-26 | the result is one of the nine caps, so between 14 and 63 |
| LevelCap.EighthBadgeDominates | src/level_cap.c:8-9 | with the eighth badge the cap is `LEVEL_CAP_BADGE_8`, whatever the other flags |
| LevelCap.NoBadgeCap | src/level_cap.c:25 | with no badge the cap is `LEVEL_CAP_NO_BADGES` |
| LevelCap.HighestBadgeCap | src/level_cap.c:7-23 | the cap is that of the highest badge held; lower flags have no effect |
| LevelCap.HighestBadge | src/level_cap.c:7-23 | the highest badge held: that flag is set and no higher one is |
| LevelCap.CapOfHighestBadge | src/level_cap.c:7-25 | the cap is the entry for the highest badge held |
| LevelCap.MoreBadgesNeverLower | src/level_cap.c:7-23 | holding more badges never gives a lower cap |
| LevelCap.EarnBadgeNeverLowers | src/level_cap.c:7-23 | setting one more badge flag never lowers the cap |
| LevelCap.CapsCount | include/level_cap.h:4-15 | there are `GYM_BADGE_COUNT + 1` caps, one per badge count from 0 to 8 |
| LevelCap.CapsNonDecreasing | include/level_cap.h:7-15 | the caps never decrease from no badges to eight |
| LevelCap.OnlyFourthAndFifthEqual | include/level_cap.h:11-12 | the fourth and fifth caps are the only equal neighbours; every other step increases |
| LevelCap.CapsFitU8 | include/level_cap.h:7-18 | every cap fits the `u8` return type |

## Findings

| source | as written | input that shows it | evidently intended | confidence | as-written member | corrected member |
|---|---|---|---|---|---|---|
| randomizer/randomizer.py:166-180 (also randomizer/randomizer.py:259-273 and randomizer.py:72-104) | The file is opened before `relative_path` is assigned. The `FileNotFoundError` handler then reads `relative_path`, raises `UnboundLocalError`, and no handler catches it. The run stops at the first listed file that is missing. | A tree without `src/data/ingame_trades.h`, the first of the manual files, where no discovered file sorts before it: the run stops before any file is rewritten. | The handler's message says "Skipping": the file should be skipped and the loop should go on. | high; not executed | Files.RewriteFilesAsWritten, Files.MissingIngameTradesStopsRun | Files.RewriteFiles, Species.RandomizeSpecies, Items.RandomizeItems, Legacy.RunLegacy |

## Left out

- File-system access (`open`, `os.walk`, `os.path.relpath`, `os.path.normpath`) is not modelled. The tree is a map, and the discovered `scripts.inc` paths are an input. `os.path.join` is modelled as joining with one `/`.
- `pandas.read_csv` and `json.load` are foreign libraries. Their results are inputs: rows with a string `Name` and an integer `Total`, and records with an optional string `itemId` and `pocket`. Non-string ids or pockets, a JSON top level that is not an object, and an `items` value that is not a list are not modelled.
- The random generator is an injected chooser. No claim about uniformity is made.
- Every `print` is left out, and so are the blanket `except Exception` paths.
- Abilities.AbilityStep and Legacy.LegacyStep require a non-empty pool. `choice([])` would raise there, but `__main__` only calls them with a non-empty catalog.
- Legacy.RunLegacy requires the species header to exist. The older `get_all_species` does not catch a missing header, and the script then stops with an error.
- Species.RandomizeSpecies models the skip-missing file loop of Files.RewriteFiles, not the crash at the first missing listed file that the code as written has (see "## Findings"). After such a crash the later files and phases would not run.
- Items.RandomizeItems models the skip-missing file loop of Files.RewriteFiles, not the crash at the first missing listed file that the code as written has (see "## Findings").
- Legacy.RunLegacy models the skip-missing file loop of Files.RewriteFiles, not the crash at the first missing listed file that the code as written has (see "## Findings").
- Files are opened in text mode, which turns `\r\n` into `\n` on reading. The tree holds text after that decoding. So "unchanged" and "byte-identical" mean unchanged after decoding: on POSIX a file with CRLF line ends is written back with LF ends. On Windows the text-mode write turns `\n` back into `\r\n`.
- `\w`, `\s` and `\d` are restricted to ASCII. So is `str.upper`. `splitlines` and `for line in f` split only at `\n`.
- Names.FormatName does not state the full output of the general path. It states the prefix, the special cases and the absence of the characters the replacement chain removes.
- Pools.SwapPools is a map. The order of the pools dict itself is never used, only the order inside each pool.
- The species, ability and item phases are modelled as three methods, each taking the tree the previous one returns. Running them in that order is not modelled as a single method. The text printed for the starter map is not modelled.
- `USE_BST_RANDOMIZATION` is the parameter `useBst` of Species.SetupSpecies and Species.RandomizeSpecies. Both of its values are modelled.
- `FlagGet` and the event flags are inputs: eight booleans, one per badge.
