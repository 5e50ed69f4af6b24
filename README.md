# Region inference and template merge of `make_csvs.py`

This project models the in-memory core of `make_csvs.py`. That script builds localisation templates for a Crusader Kings II mod (SWMH). It has five parts, and each is a module here.

- **Region seeding** (`Regions`). This is `process_regions`. Each top-level `world_X` node of the geographical region file that has no `regions` child maps every duchy in its `duchies` list to the region `X`. A later declaration overwrites an earlier one. A malformed declaration aborts the run.
- **Landed-title walk and region inference** (`Inference`, `LandedTitles`). This is `process_landed_titles` with its inner `recurse` and `rerecurse`. One recursive pass over the title files does three things:
  - It records each codename title's attribute dictionary. The dictionary starts with the title's own name and its adjective, both empty, then holds the recorded children.
  - It appends each title to its liege's vassal list.
  - It fills the title → region map in post-order. A duchy hands `title_region.get(duchy)` down to its vassal subtrees. A kingdom or empire takes Python's `min` over the `collections.Counter` of its mapped direct vassals, with key `(-count, region)`, and fills itself with the winner. `rerecurse` never overwrites an entry.

  The walk is given twice:
  - as functions over a `State` value (`WalkPairs`, `Fill`, `TierStep`), about which the lemmas are proved;
  - as the class `Titles`, whose fields are the dictionaries and whose recursive methods update them in place. Each method is proved to agree with the function.
- **Localisation routing** (`Localisation`). This is `process_localisation`, a fold over the `(key, value)` rows with a set of keys already seen. Only the first row for each key counts. Each key is routed by its shape:
  - A title key goes into the attributes of its base title.
  - A `PROV<n>` key goes to the title its province maps to, or, when the province is unmapped, to the list of other province entries.
  - Every other key is dropped.

  The regular expressions are written out as string predicates, including `re.match`'s greedy groups.
- **Merge and sort** (`Sorting`). This is the block of `main` at lines 186-193 together with `attrs_sort_key`.
  - Previous-revision keys are merged in with empty values, and current values win.
  - Each title's items are sorted by the two-tier `attrs_sort_key`.
  - Other province entries are merged the same way, then sorted stably by the number after their `PROV` prefix.
- **Output rows** (`Output`). This is the row building of `write_output`.
  - There is one table per region. A title with no region, or with the empty region name, goes to `titular`.
  - Each table starts with its header row and holds `[title, key, previous value or '', value]` rows in title order.
  - The other-province table holds `[key, previous value or '', value]` rows.

The game-script tree is the datatype `Common.Pair`/`Common.Value`. A scalar is an `Atom`, a brace list of scalars is a `List`, and a brace block of pairs is a `Block`; empty braces are `Block([])`. Python exceptions become `Result.Fail` with a `Common.Error`.

Four behaviours of the code are easy to misread. The model follows the code each time:
- `attrs_sort_key` (lines 114-125) has two tiers, not three. The non-landed-title keys (`False`) come first and the landed-title keys (`True`) come last. Culture keys and adjective keys are not separate tiers: they share the first tier and differ only in the rank string. The `retval` list is unused.
- The duchy step (lines 65-68) hands down `title_region.get(d)` even when the duchy has no region. The vassal subtrees then receive "no region" (Python's `None`) entries, and because `rerecurse` never overwrites, those entries block any later assignment.
- The kingdom vote (lines 70-74) ranks "no region" like any other entry. Python's `min` scans the Counter's entries in first-occurrence order and compares each one's key `(-count, region)` with the best so far. On equal counts where exactly one of the two is "no region", that comparison puts `None` against a string and raises a `TypeError`; the model gives `Fail(VoteTypeError)` there.
  - A tie for the most votes between "no region" and a region name always raises (`Inference.TieWithNoneFails`).
  - A tie below the top raises too, when it meets the running best: the votes None, a, b, b fail (`Inference.VoteExampleLowTieFails`).
  - So the outcome depends on the vassal order: the votes b, b, None, a elect b (`Inference.VoteExampleOrderMatters`).
- `rerecurse(k, winner)` (line 75) changes nothing when the kingdom is mapped already. The winner is not pushed down past an existing entry.

## Model

| member | source | states |
|---|---|---|
| Regions.SeedSpec | make_csvs.py:37-46 | the seeding succeeds iff every top-level node is well-formed; a duchy is seeded iff some leaf-region declaration lists it, and its region is the name minus `world_` of the last such declaration |
| Regions.SeedFromLast | make_csvs.py:42-43 | a later declaration of a duchy overwrites an earlier one |
| Regions.MalformedDeclarationFails | make_csvs.py:38-46 | a `world_` node without `regions` aborts the run when its value is a scalar, or it has no children or two or more (line 39), or its one child is not a `duchies` list (line 42) |
| Regions.AssignDuchies | make_csvs.py:42-43 | the inner loop maps every listed duchy to the region over the map built so far |
| Regions.ProcessRegions | make_csvs.py:33-47 | the loop over the top-level nodes computes exactly the seeding (or its failure) |
| Inference.Fill | make_csvs.py:77-81 | `rerecurse` keeps every existing entry unchanged, so the key set only grows |
| Inference.RerecurseSpec | make_csvs.py:77-81 | `rerecurse(t, r)` changes no existing entry; it adds exactly the titles reachable from t through titles unmapped at call time, and maps all of them to r |
| Inference.FillAllSpec | make_csvs.py:80-81 | the loop over a vassal list does the same for titles reachable from any vassal in it |
| Inference.DuchyStepSpec | make_csvs.py:65-68 | the duchy step changes no existing entry, the duchy's own included; it maps the titles reachable from its vassals to the duchy's entry, and to "no region" when the duchy is unmapped |
| Inference.Known | make_csvs.py:70-71 | an entry is in the Counter's input exactly when some mapped direct vassal carries it |
| Inference.KnownConcat | make_csvs.py:70-71 | the Counter's input follows the vassal list: the entries of a concatenation are the two parts' entries in turn, one per mapped vassal |
| Inference.KnownCount | make_csvs.py:70-71 | each entry occurs in the Counter's input once per mapped vassal carrying it |
| Inference.CountSpec | make_csvs.py:70-71 | the Counter lists every entry of its input once, ordered by each entry's first occurrence in the input, with its number of occurrences |
| Common.DistinctSpec | make_csvs.py:70-71 | the distinct entries are exactly the input's entries, each once, non-empty for a non-empty input, ordered by first occurrence in the input |
| Common.DistinctAppend | make_csvs.py:61 | taking first occurrences of a first-occurrence list followed by more names is taking first occurrences of the whole, which is how the ordered dictionary's key order grows |
| Inference.WinnerSpec | make_csvs.py:72-74 | a successful vote elects an entry of maximal count, and among those the smallest region name; "no region" wins only when it alone has the maximal count; without "no region" votes the vote cannot fail |
| Inference.TieWithNoneFails | make_csvs.py:73-74 | a tie for the most votes between "no region" and a region name raises a TypeError |
| Inference.VoteExampleMajority | make_csvs.py:73-74 | votes a, a, b elect a |
| Inference.VoteExampleTie | make_csvs.py:73-74 | votes b, a elect a, the smaller name |
| Inference.VoteExampleNone | make_csvs.py:73-74 | votes None, None, b elect None |
| Inference.VoteExampleTypeError | make_csvs.py:73-74 | votes b, None make the vote fail |
| Inference.VoteExampleLowTieFails | make_csvs.py:73-74 | votes None, a, b, b make the vote fail although b has the most votes |
| Inference.VoteExampleOrderMatters | make_csvs.py:73-74 | votes b, b, None, a elect b |
| Inference.TopTierStepSpec | make_csvs.py:69-75 | with no mapped vassal nothing changes; otherwise the vote's failure aborts, or the winner is filled in from the kingdom itself, which leaves a mapped kingdom unchanged |
| LandedTitles.InitialSpec | make_csvs.py:83-84 | the starting state keeps the walk's invariants: recorded titles and definition order agree, and every region entry is a seeded region |
| LandedTitles.CollectAttrsSpec | make_csvs.py:53-60 | a title's dictionary holds its name, its adjective and every child whose name is an attribute key, and nothing else; each such key has the text of its last child; an unrecorded default stays ''; collection fails iff a recorded child holds a nested block |
| LandedTitles.CollectAttrsLoop | make_csvs.py:53-60 | the loop over the children computes exactly the collection |
| LandedTitles.RegisterSpec | make_csvs.py:61-63 | registering adds the title to the recorded ones, keeps each recorded title once in the definition order with its name and adjective keys, and only appends to the order and the vassal lists |
| LandedTitles.TierStepSpec | make_csvs.py:65-75 | the region step changes only the region map, only adds to it, and adds no value outside the region values already present and "no region" |
| LandedTitles.WalkPairsExtends | make_csvs.py:50-75 | a walk never changes a region entry, never forgets a title, only appends to the order and to vassal lists, keeps the dictionary shape, records exactly the codename titles it visits, and introduces no new region value |
| LandedTitles.WalkPairsVassals | make_csvs.py:62-64 | walking a block under a liege appends exactly its direct codename titles, in source order, to that liege's list and changes no unvisited title's list |
| LandedTitles.StepSeesVassals | make_csvs.py:62-68 | post-order: when a title's region step runs, its vassal list already ends with its direct codename children in source order |
| LandedTitles.WalkFilesExtends | make_csvs.py:85-86 | walking file after file keeps the same invariants |
| LandedTitles.RecordLast | make_csvs.py:61 | of several definitions of one title, the last one's dictionary is the one kept |
| LandedTitles.WalkPairsRecords | make_csvs.py:50-64 | a walk registers its definitions in pre-order: the order gains the unseen titles in the order of their first definitions, each definition's dictionary replaces the title's earlier one, and each definition's collection succeeds |
| LandedTitles.WalkFilesRecords | make_csvs.py:85-86 | the same over file after file, with the files' definitions listed in turn |
| LandedTitles.LastDefinitions | make_csvs.py:61-64 | over a whole run, the definition order is the first occurrences in the pre-order listing of all files, and each title's dictionary is the collection of its last definition |
| LandedTitles.LandedTitlesSpec | make_csvs.py:49-87 | end to end: the result records exactly the codename titles of the files, each once, in the order of their first definitions in the pre-order listing of all files, with the dictionary its last definition collects; every seeded duchy keeps its region; every entry is a seeded region or "no region" |
| LandedTitles.WalkExample | make_csvs.py:50-81 | a kingdom holding a seeded duchy holding a county: the duchy hands its region to the county, then the kingdom's vote gives it the same region; the order is kingdom, duchy, county, with the matching vassal lists |
| LandedTitles.Titles.constructor | make_csvs.py:83-84 | the object starts in the initial state |
| LandedTitles.Titles.Rerecurse | make_csvs.py:77-81 | the recursive method changes the region map exactly as `Fill` describes |
| LandedTitles.Titles.RerecurseVassals | make_csvs.py:80-81 | the loop over a title's vassals changes the region map exactly as `FillAll` describes |
| LandedTitles.Titles.RegisterTitle | make_csvs.py:61-63 | the method changes the dictionaries exactly as `Register` describes |
| LandedTitles.Titles.RegionStep | make_csvs.py:65-75 | the method's duchy loop and vote do exactly the region step, failing exactly when it fails |
| LandedTitles.Titles.Recurse | make_csvs.py:50-75 | the recursive method leaves the object in the walk's result state, or reports the walk's error |
| LandedTitles.Titles.WalkFilesLoop | make_csvs.py:85-86 | the loop over the files leaves the object in the state the walk over all files gives, or reports its error |
| LandedTitles.ProcessLandedTitles | make_csvs.py:49-87 | a fresh object is left in the state `LandedTitles` computes, or the run reports its error |
| Localisation.AdjBase | make_csvs.py:98-99 | a title key's base is the longest head such that `_adj` follows it and then `_`, the end, or a final newline; a key without such a head is its own base |
| Localisation.AdjSuffixStripped | make_csvs.py:98-99 | `X_adj` belongs to title X |
| Localisation.AdjBaseCultureExample | make_csvs.py:98-99 | `k_test_adj_norse` belongs to `k_test` |
| Localisation.RouteMappedProvExample | make_csvs.py:100-102 | `PROV12` goes to the title its province maps to |
| Localisation.RouteUnmappedProvExample | make_csvs.py:100-105 | `PROV12` of an unmapped province goes to the other entries |
| Localisation.RouteDropExample | make_csvs.py:97-107 | `PROVINCE` is neither a title key nor a province key and is dropped |
| Localisation.RouteAdjExample | make_csvs.py:97-99 | `k_test_adj` goes to the title `k_test` |
| Localisation.LocaliseSpec | make_csvs.py:89-112 | the set of titles never changes; an attribute is written exactly for the keys whose first row routes to that title, with that row's value, and otherwise left as it was; the other entries are exactly the first rows of unmapped PROV keys, each key once, in the order of the rows |
| Localisation.LocFromOtherOrder | make_csvs.py:104 | the other entries a fold appends come in the order of their rows |
| Localisation.DuplicateRowIgnored | make_csvs.py:95-96 | a row whose key appeared in an earlier row has no effect at all |
| Localisation.ProcessLocalisation | make_csvs.py:89-112 | the loop updates the title dictionaries in place and returns the other entries exactly as the fold computes them |
| Sorting.MergePrev | make_csvs.py:187-188 | the merged keys are the previous and current keys; current values win; previous-only keys get '' |
| Sorting.MergeAll | make_csvs.py:186-188 | every previous title is merged into the current title of the same name, and no other title changes |
| Sorting.MergeKeepsCurrent | make_csvs.py:186-188 | no current value is lost or changed |
| Sorting.UnlistedOrder | make_csvs.py:192 | the current entries whose keys the previous list lacks keep their current order |
| Sorting.MergeOtherSpec | make_csvs.py:192 | the merged province entries have distinct keys, which are the previous and the current keys; every current entry is kept; the others get ''; previous keys come first, in their order, and the new current keys follow in their current order |
| Sorting.AdjRekey | make_csvs.py:122-124 | `X_adj_S` is rewritten to `X_S_adj` at the last `_adj_` split of a newline-free key; any other key is unchanged |
| Sorting.AdjRekeyCultureExample | make_csvs.py:122-124 | `k_test_adj_norse` ranks as `k_test_norse_adj` |
| Sorting.AdjRekeyPlainExample | make_csvs.py:122-124 | a bare `k_test_adj` ranks as itself |
| Sorting.KeyLessStrictTotal | make_csvs.py:117-125 | the comparison of sort keys is a strict total order on distinct items |
| Sorting.TierOrder | make_csvs.py:117-118 | every non-landed-title key sorts before every landed-title key |
| Sorting.LandedKeysByItem | make_csvs.py:117-118 | landed-title items are ordered by (key, value) |
| Sorting.CultureKeyRank | make_csvs.py:119-125 | against any non-landed item, a culture key c sorts first exactly when `title_c` is the smaller rank, or the ranks are equal and its item is smaller, and second in the mirror case; the other item ranks as `title_` plus its key if it is a culture key, by its rewrite otherwise |
| Sorting.SortItems | make_csvs.py:190-191 | the sorted list is strictly ordered by the key and holds exactly the dictionary's items, once each |
| Sorting.SortedUnique | make_csvs.py:190-191 | two strictly sorted lists of the same items are equal, so the result does not depend on the dictionary's order |
| Sorting.SortTitles | make_csvs.py:189-191 | every title's dictionary is replaced by its sorted items |
| Sorting.SortOtherSpec | make_csvs.py:193 | the province sort is ordered by number, a permutation of its input, and stable: the entries with any one number keep their relative order |
| Sorting.SortOtherExample | make_csvs.py:193 | PROV9 sorts before PROV10 |
| Sorting.ProvNumberExample | make_csvs.py:193 | `int(key[4:])` gives 10 for `PROV10` and 9 for `PROV9` |
| Sorting.MergeAndSort | make_csvs.py:186-193 | the merge and sort of main: each title's sorted items are the merged dictionary's; the province entries are the merged ones, sorted by number, stably |
| Output.BucketName | make_csvs.py:156 | a table is named after its region, and is `titular` exactly when the region is none, empty or itself `titular` |
| Output.RowsOfTitle | make_csvs.py:150-152 | one row `[title, key, previous or '', value]` per sorted item, in order |
| Output.RowsForSpec | make_csvs.py:146-152 | a region's table holds exactly the rows of the items of the titles mapped to that region |
| Output.RowsForWidth | make_csvs.py:146-152 | every title row has the four columns of the header |
| Output.AppendTitle | make_csvs.py:150-152 | the inner loop appends one title's rows to its table |
| Output.TitleTables | make_csvs.py:146-152 | the tables are exactly those of the titles' regions; each is the header followed by its titles' rows in title order |
| Output.AddTitle | make_csvs.py:148-152 | one pass of the title loop extends the tables from the first i titles to the first i + 1 |
| Output.OtherTable | make_csvs.py:161-164 | the header, then one row `[key, previous or '', value]` per province entry, in order |

## Left out

- Parsing, globbing and files. `ck2parser`, `parser.files` and `parse_files` are left out, along with CSV reading and writing, the temporary directory and the replacement of `shv/templates` (lines 153-170), and `print_time`.
  - The parsed tree and the localisation rows are inputs.
  - The rows arrive already in the order that `reverse=True` file iteration gives.
  - A localisation row with fewer than two columns, which makes the unpacking on line 94 raise, is not modelled.
- `ck2parser.is_codename` and `get_cultures` are external. The codename test is a parameter. The culture set and the landed-title key set are parameters. The walk collects the keys `lt_keys | cultures`.
- `process_provinces` and `read_prev` (lines 13-31, 127-142) are file-name splitting and CSV reading. Their results are inputs: the province → title map, the previous title dictionaries, and the previous province entries as an ordered list. The previous files are written as `zz~_SHV_provinces_other.csv` (line 160), while `read_prev` looks for `other_provinces` (line 134). That mismatch is a file-name matter and is not modelled.
- Output.BucketName: writing the tables to files is not modelled. In the original, the tables for "no region", for the empty region name and for a region named `titular` would all be written to the same file, and the last one written wins. The model only names that collision.
- `collections.defaultdict` inserts an empty list on every read of a missing title. Only the reads are modelled, because the inserted lists are never observed. The same holds for `prev_title_attrs[title]` in `write_output`.
- The `print(n.val)` on line 45, which names the malformed region declaration before the `KeyError` propagates, is console output and is not modelled; the failure itself is.
- Localisation.IsProvKey and Sorting.ProvNumber treat `\d` and `int()` as ASCII only. Sorting.MergeAndSort requires every province key's suffix to be ASCII digits (line 193 raises otherwise), which is stricter than Python's `int()`: that function also accepts surrounding whitespace, a sign, underscores between digits and non-ASCII decimal digits.
- Sorting.MergeAll requires every previous title to exist in the current dictionaries, because line 187 raises `KeyError` otherwise. This is a precondition, not a modelled error.
- A parsed value that is not a block where the walk iterates one (a title, a region declaration) is `Fail(NotABlock)`. A codename with no first character is `Fail(EmptyCodename)`. Both are exceptions in the original.
- The order in which the original writes the region tables (first appearance of each region) is not modelled: tables are a map from region to rows.
