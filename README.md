# Fashion editor and milestone list, modelled in Dafny

This project models two pieces of the DIM (Destiny Item Manager) web app. It proves properties of both.

- **The loadout fashion editor.** Its state is `modsByBucket`: a map from armour bucket hash to the shader and ornament plug hashes chosen for that bucket. The editor's buttons rewrite this map: pick a plug, use what is equipped, sync shaders, sync ornaments, clear shaders or ornaments, reset. Each armour slot then shows at most one plug per cosmetic socket: none when the socket has no default plug or the slot has no example item. The model is `fashion.dfy`:
  - The state lives in the class `Fashion.FashionEditor`. Its methods update the state in place.
  - What each handler computes is a function, so the handlers' properties can be proved as lemmas.
  - The source rewrites buckets one by one in a `for … in` loop (`handleClearType`). The model does the same in a `while` loop over the pending bucket keys.
  - The per-socket plug choice is a method with a `for` loop over the sockets.
- **The milestone list of the progress page.** It has three stages:
  - two filters, for profile-wide milestones and for the character's own, each followed by a stable sort on `order`;
  - a merge that keeps one milestone per hash;
  - a grouping of the resulting pursuit items by the power bonus of their first qualifying reward, with the groups ordered by descending bonus.

  It is pure code, modelled in `milestones.dfy` as functions and lemmas.

`seqs.dfy` holds the collection operations both parts use, each stated by what its result means:
- `filter` and `flatMap`;
- lodash `groupBy`, `maxBy` over group sizes (`MostCommon`), a stable `sortBy` and `uniqBy`;
- `Object.values` of integer-keyed objects and `Object.fromEntries`.

Manifest lookups and store data become parameters:
- `isShader`: whether a plug's category is the shader category;
- `groupOf`: an ornament's collectible parent presentation node;
- `setOf`: the ornaments of a presentation node;
- `unlocked`: the set of unlocked plugs;
- `defOf`: a milestone definition;
- `toItems`: `milestoneToItems`;
- `bonus`: `getEngramPowerBonus`.

Some of the source's JavaScript behaviour is written out explicitly:
- **Enumeration order.** `Object.values` runs over integer keys in ascending order.
- **Truthiness.** A hash of 0 is falsy in `_.compact`, `if (matchingMod)` and `if (defaultHash)`. A present array is truthy even when it is empty.
- **`undefined` values.** An entry whose value is `undefined` in `Object.fromEntries` is modelled as an absent key.

The key order of `Object.keys(milestonesByPower)` follows from JavaScript's rules:
- Non-negative integer keys come first in ascending order. The other keys follow in insertion order.
- The comparator then sorts by `-(bonus)` and ranks `'undefined'` as -1, so integer bonuses with different values never tie.
- The only tie left is `'undefined'` against `-1`. Neither is an index key, so they keep insertion order.

So, for integer bonuses, listing the keys in first-appearance order and then sorting stably by the comparator key gives the same result. That is how `OrderedPowerKeys` is defined.

## Model

| member | source | states |
|---|---|---|
| Fashion.Keep | src/app/loadout/fashion/FashionDrawer.tsx:68-69 | the result keeps exactly the entries of the chosen classification, in order, and is no longer than the input |
| Fashion.KeepIsFilter | src/app/loadout/fashion/FashionDrawer.tsx:68-69 | `Keep` is `Seqs.Filter` with the predicate `isShader(x) == shader` |
| Fashion.KeepPartition | src/app/loadout/fashion/FashionDrawer.tsx:67-69 | shaders and non-shaders together have the input's length and exactly its multiset of entries |
| Fashion.KeepIdempotent | src/app/loadout/fashion/FashionDrawer.tsx:191 | filtering a bucket by one classification twice gives the same list as once |
| Fashion.CountKeep | src/app/loadout/fashion/FashionDrawer.tsx:129 | filtering to shaders does not change how often any shader occurs |
| Fashion.ModHashes | src/app/loadout/fashion/FashionDrawer.tsx:67 | the flattened list contains every entry of every bucket and nothing else |
| Fashion.ModHashesRemove | src/app/loadout/fashion/FashionDrawer.tsx:67 | taking any one bucket out of the map removes exactly that bucket's entries from the flattened multiset, so each entry occurs as often as it does across the buckets, whatever the key order |
| Fashion.Shaders | src/app/loadout/fashion/FashionDrawer.tsx:68 | exactly the shader entries of the buckets, each shader as often as in the flattened list |
| Fashion.Ornaments | src/app/loadout/fashion/FashionDrawer.tsx:69 | exactly the non-shader entries of the buckets, each as often as in the flattened list |
| Fashion.ShadersOrnamentsPartition | src/app/loadout/fashion/FashionDrawer.tsx:67-69 | `shaders` and `ornaments` partition the flattened mod list: lengths add up, multisets add up |
| Fashion.Without | src/app/loadout/fashion/FashionDrawer.tsx:105-107 | keeps exactly the bucket's entries that are not plugs of the socket, in order |
| Fashion.WithoutIsFilter | src/app/loadout/fashion/FashionDrawer.tsx:105-107 | `Without` is `Seqs.Filter` with the predicate "not a plug of the socket" |
| Fashion.WithoutIdempotent | src/app/loadout/fashion/FashionDrawer.tsx:105-107 | clearing a socket's plugs twice is clearing them once |
| Fashion.SelectPlug | src/app/loadout/fashion/FashionDrawer.tsx:103-114 | the bucket gains a key if it was missing and every other bucket is unchanged; the new list is the old entries outside the socket's plug set, in order, followed by the new plug once; no other plug of that socket remains |
| Fashion.SelectPlugIdempotent | src/app/loadout/fashion/FashionDrawer.tsx:103-114 | picking the same plug of a socket twice leaves the same map as picking it once |
| Fashion.EquippedIds | src/app/loadout/fashion/FashionDrawer.tsx:54 | exactly the ids of the loadout entries marked equipped |
| Fashion.Armor | src/app/loadout/fashion/FashionDrawer.tsx:55-57 | exactly the items that are equipped in the loadout and sit in a lockable bucket |
| Fashion.KeyByBucket | src/app/loadout/fashion/FashionDrawer.tsx:59-62 | keys are exactly the armour buckets, and each maps to an armour item of that bucket |
| Fashion.KeyByBucketLast | src/app/loadout/fashion/FashionDrawer.tsx:59-62 | the item kept for a bucket is the last armour item of that bucket |
| Fashion.PluggedCosmetics | src/app/loadout/fashion/FashionDrawer.tsx:119-122 | the result has no zero hash; every entry is some socket's plugged hash; every non-zero plugged hash is kept |
| Fashion.PluggedCosmeticsAppend | src/app/loadout/fashion/FashionDrawer.tsx:122 | `compact(map(...))` over `a + b` is the result for `a` followed by the result for `b`, so socket order and repeated hashes are kept |
| Fashion.EquippedMods | src/app/loadout/fashion/FashionDrawer.tsx:117-126 | one entry per lockable bucket holding equipped loadout armour; each entry lists the plugged cosmetics of such an item; no zero hashes |
| Fashion.EquippedModsLast | src/app/loadout/fashion/FashionDrawer.tsx:117-123 | each bucket gets exactly the cosmetics of the last equipped armour piece in that bucket |
| Seqs.FilterHead | src/app/loadout/fashion/FashionDrawer.tsx:279 | `armor[0]` is the first item satisfying the armour filter |
| Fashion.ClassType | src/app/loadout/fashion/FashionDrawer.tsx:275-281 | the loadout's own class if known; otherwise the class of the first equipped armour item; otherwise Unknown |
| Fashion.ShaderWinner | src/app/loadout/fashion/FashionDrawer.tsx:129-135 | None exactly when no bucket holds a shader; otherwise a shader that some bucket holds and that occurs at least as often as every other shader |
| Fashion.ShaderWinnerMost | src/app/loadout/fashion/FashionDrawer.tsx:131-132 | the largest `groupBy` group has a count at least that of every shader in the flattened list |
| Fashion.ApplyShader | src/app/loadout/fashion/FashionDrawer.tsx:137-144 | the keys are exactly the lockable buckets; each is its old non-shader entries followed by the winning shader |
| Fashion.SyncShaders | src/app/loadout/fashion/FashionDrawer.tsx:128-145 | with no shader the map is unchanged; otherwise it is the per-bucket result above |
| Fashion.SyncShadersOneShader | src/app/loadout/fashion/FashionDrawer.tsx:139-142 | after a sync, every lockable bucket holds exactly one shader: the winner |
| Fashion.SyncedWinnerStays | src/app/loadout/fashion/FashionDrawer.tsx:128-145 | in a synced map the winner is the only shader, so it wins again |
| Fashion.SyncShadersIdempotent | src/app/loadout/fashion/FashionDrawer.tsx:128-145 | syncing shaders twice gives the same map as syncing once |
| Fashion.GroupIds | src/app/loadout/fashion/FashionDrawer.tsx:154-157 | the resolved groups are exactly the groups of ornaments whose group resolves |
| Fashion.GroupSizeIsCount | src/app/loadout/fashion/FashionDrawer.tsx:154-157 | a group's size in `_.groupBy` equals that group's count among the resolved groups |
| Fashion.GroupIdsEmpty | src/app/loadout/fashion/FashionDrawer.tsx:158-165 | no group resolves (after the `'undefined'` group is deleted) iff no ornament's group resolves |
| Fashion.OrnamentWinner | src/app/loadout/fashion/FashionDrawer.tsx:150-165 | None iff no ornament's group resolves; otherwise the group of some ornament, at least as large as every other group |
| Fashion.OrnamentEntries | src/app/loadout/fashion/FashionDrawer.tsx:173-181 | one entry per lockable bucket, in order, with distinct keys |
| Fashion.ApplyOrnamentSet | src/app/loadout/fashion/FashionDrawer.tsx:171-183 | only lockable buckets remain. Bucket i with an unlocked i-th ornament becomes its shaders plus that ornament. Any other bucket keeps its old value, or stays absent. |
| Fashion.SyncOrnaments | src/app/loadout/fashion/FashionDrawer.tsx:147-184 | with no resolvable group the map is unchanged; otherwise it is the per-bucket result above for the winning group's set |
| Fashion.SyncOrnamentsOnlyUnlocked | src/app/loadout/fashion/FashionDrawer.tsx:174-180 | an ornament sync adds no plug that is neither unlocked nor already in the bucket |
| Fashion.ClearedOfType | src/app/loadout/fashion/FashionDrawer.tsx:186-200 | no bucket is added; a bucket stays iff something of the other type remains; a bucket that stays holds its filtered list |
| Fashion.ClearedOfTypeMeaning | src/app/loadout/fashion/FashionDrawer.tsx:189-196 | a remaining bucket is non-empty and holds nothing of the cleared type; a bucket stays exactly when it held something of the other type |
| Fashion.ClearedOfTypeUnique | src/app/loadout/fashion/FashionDrawer.tsx:189-197 | any map that deletes and reassigns buckets as the loop does equals the cleared map |
| Fashion.ClearedOfTypeIdempotent | src/app/loadout/fashion/FashionDrawer.tsx:186-200 | clearing a type twice gives the same map as clearing it once |
| Fashion.FirstMatch | src/app/loadout/fashion/FashionDrawer.tsx:363-365 | None iff no selected mod is among the socket's plugs; otherwise a selected mod that is |
| Fashion.FirstMatchIsFirst | src/app/loadout/fashion/FashionDrawer.tsx:363-365 | the match is the first fitting mod: every earlier mod does not fit |
| Fashion.SocketPlug | src/app/loadout/fashion/FashionDrawer.tsx:363-381 | the shown plug is never 0. It is the truthy match if there is one; else the default shader for a shader socket; else the socket's truthy default plug; else nothing. |
| Fashion.PlugsBySocketIndex | src/app/loadout/fashion/FashionDrawer.tsx:359-382 | every key is the index of a socket that shows that plug; with distinct indexes, a socket's index is present iff the socket shows a plug, and it maps to that plug |
| Fashion.FashionEditor.constructor | src/app/loadout/fashion/FashionDrawer.tsx:64 | the state starts as the loadout's saved map, or empty |
| Fashion.FashionEditor.HandlePlugSelected | src/app/loadout/fashion/FashionDrawer.tsx:94-115 | the new state is `SelectPlug` of the old |
| Fashion.FashionEditor.HandleUseEquipped | src/app/loadout/fashion/FashionDrawer.tsx:117-126 | the new state is the equipped cosmetics |
| Fashion.FashionEditor.HandleSyncShader | src/app/loadout/fashion/FashionDrawer.tsx:128-145 | the new state is `SyncShaders` of the old; it is unchanged when there is no shader |
| Fashion.FashionEditor.HandleSyncOrnament | src/app/loadout/fashion/FashionDrawer.tsx:147-184 | the new state is `SyncOrnaments` of the old; it is unchanged when no group resolves |
| Fashion.FashionEditor.HandleClearType | src/app/loadout/fashion/FashionDrawer.tsx:186-200 | the in-place delete-or-reassign loop leaves exactly `ClearedOfType` of the old state |
| Fashion.FashionEditor.Reset | src/app/loadout/fashion/FashionDrawer.tsx:245 | the state becomes the empty map |
| Seqs.Values | src/app/progress/Milestones.tsx:118-120 | `Object.values` has one value per key and holds exactly the map's values |
| Seqs.ValuesUnfold | src/app/progress/Milestones.tsx:118-120 | `Object.values` of a non-empty map lists the value of the least (integer) key first, then the values of the rest: the values in ascending key order |
| Seqs.Filter | src/app/progress/Milestones.tsx:122-128 | keeps exactly the elements satisfying the predicate and is no longer than the input |
| Seqs.FilterAppend | src/app/progress/Milestones.tsx:122-128 | filtering `a + b` is filtering `a` followed by filtering `b`, so the input order is kept |
| Seqs.FilterCount | src/app/progress/Milestones.tsx:122-128 | an element satisfying the predicate occurs as often in the result as in the input; any other does not occur |
| Seqs.SortBy | src/app/progress/Milestones.tsx:130 | `_.sortBy` returns a permutation of its input, ascending by key |
| Seqs.SortByStable | src/app/progress/Milestones.tsx:130 | `_.sortBy` is stable: elements with equal keys keep their input order |
| Seqs.UniqBy | src/app/progress/Milestones.tsx:51-53 | keys are distinct; each kept element is the first of its key; every key of the input is represented; the kept elements are in the order in which their keys first occur in the input (`FirstIndex`) |
| Seqs.FirstIndexPrefix | src/app/progress/Milestones.tsx:52 | a key first occurs within the prefix `a` of `a + b` exactly when `a` has an element of that key |
| Seqs.FirstWithKeyAppend | src/app/progress/Milestones.tsx:52 | the first element of a key in `a + b` comes from `a` when `a` has that key, else from `b` |
| Seqs.FlatMap | src/app/progress/Milestones.tsx:54 | the result holds exactly the images of the input's elements |
| Seqs.FlatMapAppend | src/app/progress/Milestones.tsx:54 | `flatMap` distributes over concatenation |
| Seqs.FlatMapOne | src/app/progress/Milestones.tsx:54 | `flatMap` over one element is that element's image; with `FlatMapAppend` this fixes the result as the images concatenated in input order, with their multiplicities |
| Seqs.GroupBy | src/app/progress/Milestones.tsx:56-63 | one non-empty group per key that occurs, each group being the elements of that key (`WithKey`) |
| Seqs.WithKey | src/app/progress/Milestones.tsx:56-63 | a group holds exactly the elements of its key and is no longer than the input |
| Seqs.WithKeyAppend | src/app/progress/Milestones.tsx:56-63 | the group of `a + b` is the group of `a` followed by the group of `b`, so input order is kept |
| Seqs.WithKeyKeepsBefore | src/app/progress/Milestones.tsx:56-63 | two elements of one key keep their relative order in that key's group |
| Seqs.WithKeyBeforeReflects | src/app/progress/Milestones.tsx:56-63 | an order between two elements of a group was already their order in the input |
| Seqs.WithKeyCount | src/app/progress/Milestones.tsx:56-63 | an element of the group's key occurs in the group as often as in the input |
| Seqs.Flatten | src/app/loadout/fashion/FashionDrawer.tsx:67 | `flat()` holds exactly the entries of the lists |
| Seqs.FlattenAppend | src/app/loadout/fashion/FashionDrawer.tsx:67 | `flat()` distributes over concatenation |
| Seqs.FlattenOne | src/app/loadout/fashion/FashionDrawer.tsx:67 | `flat()` of one list is that list; with `FlattenAppend` this fixes the result as the lists concatenated in order |
| Seqs.CountIsMultiplicity | src/app/loadout/fashion/FashionDrawer.tsx:131-132 | the occurrence count used for group sizes is the multiplicity in the list's multiset |
| Seqs.MostCommon | src/app/loadout/fashion/FashionDrawer.tsx:131-132 | None iff the list is empty; otherwise an element that occurs at least as often as every other |
| Seqs.FromEntries | src/app/loadout/fashion/FashionDrawer.tsx:138-143 | `Object.fromEntries`: every key of the result comes from some entry |
| Seqs.FromEntriesDistinct | src/app/loadout/fashion/FashionDrawer.tsx:138-143 | with distinct keys, an entry's key is present iff its value is defined, and then it maps to that value |
| Milestones.AllMilestones | src/app/progress/Milestones.tsx:117-120 | empty when the dictionary is missing; otherwise one element per key, holding exactly its values (their order, ascending by key, is `Seqs.ValuesUnfold`) |
| Milestones.MilestonesForProfile | src/app/progress/Milestones.tsx:112-131 | exactly the input milestones that pass the profile filter; a permutation of the filtered list; ascending by `order`; ties in input order |
| Milestones.MilestonesForCharacter | src/app/progress/Milestones.tsx:136-163 | exactly the input milestones that pass the character filter; a permutation of the filtered list; ascending by `order`; ties in input order |
| Milestones.ProfileAndCharacterFilters | src/app/progress/Milestones.tsx:124-152 | a milestone with quests is never profile-wide; a profile-wide milestone whose definition shows it passes the character filter too |
| Milestones.MergedMilestones | src/app/progress/Milestones.tsx:51-53 | one milestone per hash, every hash represented; the character's first copy wins; failing that, the profile's first copy; milestones are in order of their hash's first occurrence in `character + profile`, so every hash the character has comes before every profile-only hash |
| Milestones.MilestoneItems | src/app/progress/Milestones.tsx:51-54 | exactly the items of the merged milestones (by `Seqs.FlatMapOne` and `Seqs.FlatMapAppend`, each milestone's items in turn, in merged order) |
| Milestones.PowerBonus | src/app/progress/Milestones.tsx:57-62 | None iff no reward has a bonus; otherwise the bonus of the first reward that has one |
| Milestones.MilestonesByPower | src/app/progress/Milestones.tsx:56-63 | every item is in the group of its own bonus; groups are non-empty and hold only items with that bonus; each group is exactly the items of its bonus, in item order and with their multiplicities (`WithKey`) |
| Milestones.SortPowerBonusRank | src/app/progress/Milestones.tsx:65-67 | the comparator key of `sortPowerBonus`: a key sorts before another exactly when its bonus is larger; `'undefined'` ranks with -1 |
| Milestones.PowerKeys | src/app/progress/Milestones.tsx:88 | every item's bonus exactly once and nothing else, listed in order of first appearance among the items (`FirstIndex`); only the stable sort that follows depends on that order |
| Milestones.UniqKeys | src/app/progress/Milestones.tsx:88 | `uniqBy` with the identity key lists each key once, nothing else, in order of first occurrence |
| Milestones.FirstBonusIndex | src/app/progress/Milestones.tsx:56-63 | a bonus first occurs in the list of bonuses at the index of the first item with that bonus |
| Milestones.KeysOfGroups | src/app/progress/Milestones.tsx:88 | the first-appearance keys are exactly the group keys, each once |
| Milestones.OrderedPowerKeys | src/app/progress/Milestones.tsx:88-89 | every group key exactly once, sorted by the comparator key; the sort is stable: for each comparator key, the keys with that key appear in the same order as in the first-appearance list `PowerKeys` |
| Milestones.PowerKeyOrder | src/app/progress/Milestones.tsx:56-67 | a larger bonus comes first; `'undefined'` comes after every non-negative bonus and before every bonus below -1; between -1 and `'undefined'`, the key whose first item comes first among the items is listed first |
| Milestones.PowerKeyTie | src/app/progress/Milestones.tsx:56-63 | keys the comparator ties stay in the order in which their first items appear |
| Milestones.PowerSections | src/app/progress/Milestones.tsx:88-98 | one section per ordered key. Each section is non-empty and holds only items with its key. Every item appears in the section of its own bonus. Each section's list is that key's `milestonesByPower` group. |

## Left out

- JSX and rendering: `Sheet`, icons, CSS modules, i18n strings, the phone-portrait layout and the `disabled` flags of the buttons. None of it changes the state.
- React and Redux plumbing: `useState`, `useSelector`, `produce` and the accept button that reports the map to the caller. The editor state is a class field. The updater callbacks read the same state as the handler. The case where a handler computes its winner from a render-time snapshot that differs from the state the updater receives is not modelled.
- Manifest and store lookups are parameters: `isShader`, `groupOf`, `setOf`, `unlocked`, `defOf`, `toItems`, `bonus`. `getSocketsByCategoryHash` is taken as already applied: `Item.cosmeticSockets` holds the armour cosmetic sockets. `getDefaultPlugHash` is the socket's `defaultPlug`.
- A shader socket is a socket whose type whitelists the shader category. This is the flag `Socket.acceptsShader`.
- `LockableBucketHashes` and `DEFAULT_SHADER` are defined in files that are not part of this model. Their values are written out as constants.
- `FashionItem`'s choice of an example item when no armour is equipped (FashionDrawer.tsx:342-350) needs the whole inventory. The model starts from the chosen item's sockets.
- Fashion.ShaderWinner: `_.maxBy` over the groups in key order picks the first largest group. The model promises only some largest group, not which of several ties.
- Fashion.OrnamentWinner: the same holds for ties between ornament groups.
- Fashion.ApplyOrnamentSet: `Object.fromEntries` creates a key with value `undefined` for a lockable bucket that had no entry and whose ornament is locked or missing from the set (FashionDrawer.tsx:180). The model leaves that key absent. The source then differs from the model in later operations:
  - `handleClearType` calls `mods.filter` on that value without `?? []` (FashionDrawer.tsx:189-191), so in the source it would throw; the model's `ClearedOfType` never sees the key.
  - `Object.values(...).flat()` (FashionDrawer.tsx:67, 129, 150) keeps `undefined` as an element, and `ornaments` counts it because it is not a shader; the model's `ModHashes` has no such element.
  - `handlePlugSelected` and the sync handlers read the bucket with `?? []`, where the two agree.
- Seqs.UniqBy: `uniqBy` comes from a utility module that is not part of this model. It is modelled as keeping the first element of each key.
- Milestones.PowerBonus: bonuses are integers. A fractional bonus would tie with the integer that `parseInt` truncates it to, and that case is not modelled.
- `sortPursuits`, which orders the items inside a section, is not part of this model. Sections keep item order.
- `getCharacterProgressions` is not part of this model. The two filters take their milestone dictionaries as separate inputs.
- The season, season-pass and progression widgets of the milestone page are rendering only.
- The loadout drawer (LoadoutDrawer2.tsx) is not modelled.
