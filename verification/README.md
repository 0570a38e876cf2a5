# Storage weights and pod clipboards, modelled in Dafny

This project models two RimWorld mods from one repository. It proves properties of the models.

**MoreStoragePriority** refines where haulers put items:

- **Weight model.** Every storage gets an extended settings object. It holds two sparse maps of integer weights in [-3, 3]: one keyed by item-def name, one keyed by category-def name. Every write clamps, and writing 0 deletes the key. The effective priority of an item is the host's priority rank (0..5) plus the item's own weight. When the item has no weight of its own, the clamped sum of its categories' weights is used instead (`ExtendedSettings`).
- **Registry.** A process-wide registry maps each storage-settings object to its model (`SettingsManager`):
  - models are created lazily and dropped when the storage is destroyed;
  - a save keeps only the customised entries;
  - a load zips two parallel lists.
- **Resolver.** A post-pass on the host's search for a better storage place (`StoreUtilityPatch`). It runs when the destination the host found has weights. It re-scores every candidate group and picks the best by score (descending), then squared distance (ascending), then list order. It then takes that group's nearest good cell.

**OneKeyFillingin** keeps two clipboards for transport pods:

- **Loadouts** are keyed by (map, group) (`LoadoutClipboard`). A lookup tries three tiers: the exact key, then the most recently used list on the same map, then a global fallback. Lists unused for thirty days are evicted.
- **Named presets** live in three dictionaries (`PresetClipboard`):
  - persisted lines of def name and count;
  - resolved items, filled lazily against the definition database;
  - last-used times.

  Presets are listed latest-used first.

Supporting modules:

- `Optional`: the null / present distinction.
- `OrderedDict`: a .NET `Dictionary` whose enumeration order the code depends on. Overwriting a key keeps its place, adding a key appends it, and removing a key drops it.
- `Seqs`: small sequence facts.
- `Argmax`: the "keep the first strictly better" scan shared by the resolver, the cell search and the same-map loadout fallback, with its declarative characterisation.

Host state becomes explicit inputs:

- the host's answers (a storage's current priority, whether it accepts the item, whether a cell is a good store cell);
- the clock;
- the definition database lookup.

Object identity of storage settings is a natural number. Methods that mutate shared state in the source become functions that take a state and return the new one.

## Model


| member | source | states |
|---|---|---|
| ExtendedSettings.New | MoreStoragePriority/Source/MoreStoragePriority/ExtendedStorageSettings.cs:26-29 | a new model is attached to the given settings and has no override and a count of 0 |
| ExtendedSettings.Clamp | MoreStoragePriority/Source/MoreStoragePriority/ExtendedStorageSettings.cs:59 | the result lies in [min, max], equals the value inside the band and the nearer end outside it |
| ExtendedSettings.WriteClamped | MoreStoragePriority/Source/MoreStoragePriority/ExtendedStorageSettings.cs:59-67 | after a write the key is present iff the clamped value is non-zero, holds that value, every other key is untouched, and the sparse in-band invariant is kept |
| ExtendedSettings.GetPriority | MoreStoragePriority/Source/MoreStoragePriority/ExtendedStorageSettings.cs:98-102 | a null def or an absent key reads 0; on a valid model the result is in [-3, 3] and non-zero iff the key is stored |
| ExtendedSettings.GetCategoryPriority | MoreStoragePriority/Source/MoreStoragePriority/ExtendedStorageSettings.cs:104-108 | the same for category weights |
| ExtendedSettings.SetPriority | MoreStoragePriority/Source/MoreStoragePriority/ExtendedStorageSettings.cs:55-74 | a null def changes nothing; otherwise reading back gives the clamped value, the key is stored iff that value is non-zero, other item keys and all category keys are unchanged, validity is kept |
| ExtendedSettings.SetCategoryPriority | MoreStoragePriority/Source/MoreStoragePriority/ExtendedStorageSettings.cs:76-93 | the same for categories, leaving item weights unchanged |
| ExtendedSettings.AdjustPriority | MoreStoragePriority/Source/MoreStoragePriority/ExtendedStorageSettings.cs:34-42 | a null def changes nothing; otherwise the new weight is clamp(old + delta) and nothing else changes |
| ExtendedSettings.AdjustCategoryPriority | MoreStoragePriority/Source/MoreStoragePriority/ExtendedStorageSettings.cs:44-50 | the same for categories |
| ExtendedSettings.ResetPriority | MoreStoragePriority/Source/MoreStoragePriority/ExtendedStorageSettings.cs:113-122 | a null def changes nothing; otherwise exactly that key leaves the item map and it reads 0 |
| ExtendedSettings.ResetCategoryPriority | MoreStoragePriority/Source/MoreStoragePriority/ExtendedStorageSettings.cs:124-133 | the same for the category map |
| ExtendedSettings.ResetAllPriorities | MoreStoragePriority/Source/MoreStoragePriority/ExtendedStorageSettings.cs:138-143 | afterwards there is no override, the count is 0, every def reads 0, the attachment is kept |
| ExtendedSettings.GetBasePriority | MoreStoragePriority/Source/MoreStoragePriority/ExtendedStorageSettings.cs:148-154 | an unattached model has base 5; otherwise the base is the rank of the host's current priority, always in 0..5 |
| ExtendedSettings.CategorySum | MoreStoragePriority/Source/MoreStoragePriority/ExtendedStorageSettings.cs:165-172 | on a valid model the sum over n categories lies in [-3n, 3n], null entries counting 0 |
| ExtendedSettings.EffectiveWeight | MoreStoragePriority/Source/MoreStoragePriority/ExtendedStorageSettings.cs:161-174 | on a valid model: a stored item weight is applied as is, whatever the categories say; without one, the clamped sum of the category weights is applied, or 0 when the def has no category list; a null def gets 0; the result is always in [-3, 3] |
| ExtendedSettings.GetEffectivePriority | MoreStoragePriority/Source/MoreStoragePriority/ExtendedStorageSettings.cs:159-184 | on a valid model the result lies within 3 of the base priority |
| ExtendedSettings.GetEffectivePriorityForThing | MoreStoragePriority/Source/MoreStoragePriority/ExtendedStorageSettings.cs:203-207 | a null item or def gives the base priority, which is what the def-based lookup gives for no def |
| ExtendedSettings.CopyTo | MoreStoragePriority/Source/MoreStoragePriority/ExtendedStorageSettings.cs:228-245 | a null target stays null; otherwise the target gets both maps of the source, keeps its own attachment, and the counts agree |
| ExtendedSettings.Prune | MoreStoragePriority/Source/MoreStoragePriority/ExtendedStorageSettings.cs:267-294 | the pruned map holds exactly the entries whose key resolves, with their values |
| ExtendedSettings.PostLoadInit | MoreStoragePriority/Source/MoreStoragePriority/ExtendedStorageSettings.cs:250-296 | a map missing from the save becomes empty; the attachment is kept |
| ExtendedSettings.SetThenGet | MoreStoragePriority/Source/MoreStoragePriority/ExtendedStorageSettings.cs:55-108 | set then get gives clamp(v, -3, 3), and the key is stored iff that is non-zero, for items and categories |
| ExtendedSettings.AdjustIsClampedSet | MoreStoragePriority/Source/MoreStoragePriority/ExtendedStorageSettings.cs:34-42 | adjusting by k is setting the current weight plus k: the clamp inside the adjustment is redundant, since the write clamps again; a null def is a no-op on both sides |
| ExtendedSettings.AdjustCategoryIsClampedSet | MoreStoragePriority/Source/MoreStoragePriority/ExtendedStorageSettings.cs:44-50 | the same for categories |
| ExtendedSettings.StepsSaturate | MoreStoragePriority/Source/MoreStoragePriority/ExtendedStorageSettings.cs:34-42 | n steps of +1 from weight w reach clamp(w + n) |
| ExtendedSettings.SevenStepsGiveThree | MoreStoragePriority/Source/MoreStoragePriority/ExtendedStorageSettings.cs:34-42 | seven +1 steps from no override give 3 |
| ExtendedSettings.ItemOverrideWins | MoreStoragePriority/Source/MoreStoragePriority/ExtendedStorageSettings.cs:159-176 | with an item weight, the effective priority is base plus that weight whatever the category weights are |
| ExtendedSettings.CategoryFallback | MoreStoragePriority/Source/MoreStoragePriority/ExtendedStorageSettings.cs:159-176 | without an item weight, the effective priority is base plus the clamped category sum, or the base when the def has no category list; the total is not clamped |
| ExtendedSettings.StackedCategoriesClamp | MoreStoragePriority/Source/MoreStoragePriority/ExtendedStorageSettings.cs:165-176 | two categories at +2 give weight 3, and on a Critical storage the total is 8 |
| ExtendedSettings.CountMatchesHasAny | MoreStoragePriority/Source/MoreStoragePriority/ExtendedStorageSettings.cs:212-223 | about `HasAnyCustomPriority` and `GetCustomPriorityCount`: the count is the sum of the two map sizes, and it is positive iff there is an override |
| ExtendedSettings.ToListPriorityIsRank | MoreStoragePriority/Source/MoreStoragePriority/ExtendedStorageSettings.cs:186-198 | Unstored..Critical map to 0..5 in declaration order, strictly increasing |
| ExtendedSettings.ToListPriority | MoreStoragePriority/Source/MoreStoragePriority/ExtendedStorageSettings.cs:186-198 | every priority maps into 0..5 |
| ExtendedSettings.ResetTouchesOnlyItsKey | MoreStoragePriority/Source/MoreStoragePriority/ExtendedStorageSettings.cs:113-133 | a reset leaves every other entry of both maps unchanged |
| ExtendedSettings.PruneProperties | MoreStoragePriority/Source/MoreStoragePriority/ExtendedStorageSettings.cs:266-294 | pruning keeps a valid map valid, changes nothing when every key resolves, and is idempotent |
| OrderedDict.Put | MoreStoragePriority/Source/MoreStoragePriority/StorageSettingsManager.cs:30 | the indexer write: the value is set; an existing key keeps its place, a new key goes last |
| OrderedDict.Remove | MoreStoragePriority/Source/MoreStoragePriority/StorageSettingsManager.cs:48 | the key is gone and the others keep their order |
| OrderedDict.PutEachRebuilds | OnekeyFillingin/Assemblies/OnkeyFillinginMain.cs:349-353 | putting a dictionary's entries back into an empty one, in its enumeration order, rebuilds it exactly |
| Argmax.OutranksIsStrictOrder | MoreStoragePriority/Source/MoreStoragePriority/Patches/Patch_StorageUtility.cs:121-130 | "better" (higher score, or equal score and nearer) is irreflexive, asymmetric and transitive |
| Argmax.ScanStep | MoreStoragePriority/Source/MoreStoragePriority/Patches/Patch_StorageUtility.cs:121-138 | one loop step replaces the pick only for a qualifying entry that is strictly better, or when there is no pick yet |
| Argmax.ScanIsFirstBest | MoreStoragePriority/Source/MoreStoragePriority/Patches/Patch_StorageUtility.cs:100-141 | the loop's pick is the first among the best qualifying entries, and there is none iff nothing qualifies |
| Argmax.FirstBestIsUnique | MoreStoragePriority/Source/MoreStoragePriority/Patches/Patch_StorageUtility.cs:100-141 | there is at most one first-best entry |
| Argmax.FirstBestIsMaximal | MoreStoragePriority/Source/MoreStoragePriority/Patches/Patch_StorageUtility.cs:100-141 | the first-best has the top score, the least distance at that score, and no earlier entry ties with it |
| SettingsManager.GetExtendedSettings | MoreStoragePriority/Source/MoreStoragePriority/StorageSettingsManager.cs:19-39 | null gives null and no change; a known key gives its model; an unknown key gets a fresh empty model attached to it, appended; attachment is kept |
| SettingsManager.RemoveExtendedSettings | MoreStoragePriority/Source/MoreStoragePriority/StorageSettingsManager.cs:44-55 | null or unknown keys change nothing; otherwise exactly that key is gone and the surviving keys keep their order |
| SettingsManager.Clear | MoreStoragePriority/Source/MoreStoragePriority/StorageSettingsManager.cs:60-64 | the registry is empty and every lookup then creates a fresh model |
| SettingsManager.CustomisedKeys | MoreStoragePriority/Source/MoreStoragePriority/StorageSettingsManager.cs:100-108 | exactly the keys whose model has an override, in order, without duplicates |
| SettingsManager.SaveSnapshot | MoreStoragePriority/Source/MoreStoragePriority/StorageSettingsManager.cs:97-111 | two aligned lists holding exactly the customised entries, each key once |
| SettingsManager.RemoveUncustomised | MoreStoragePriority/Source/MoreStoragePriority/StorageSettingsManager.cs:101-108 | the backwards removal loop keeps the two lists aligned and ends with the customised entries in order |
| SettingsManager.Save | MoreStoragePriority/Source/MoreStoragePriority/StorageSettingsManager.cs:94-111 | the save branch writes exactly the snapshot of customised entries in enumeration order |
| SettingsManager.LoadPairs | MoreStoragePriority/Source/MoreStoragePriority/StorageSettingsManager.cs:127-134 | a registry built from pairs has every model attached to its key |
| SettingsManager.LoadedKeysCoverPairs | MoreStoragePriority/Source/MoreStoragePriority/StorageSettingsManager.cs:127-134 | every pair below min(len) whose key and value are non-null leaves its key loaded |
| SettingsManager.LoadedEntriesComeFromPairs | MoreStoragePriority/Source/MoreStoragePriority/StorageSettingsManager.cs:127-134 | every loaded entry comes from such a pair, re-attached to its key |
| SettingsManager.Load | MoreStoragePriority/Source/MoreStoragePriority/StorageSettingsManager.cs:115-137 | a missing list leaves the registry untouched; otherwise every earlier entry is dropped: each pair below the shorter length with a non-null key and value leaves its key loaded, and every loaded entry is the model of such a pair, re-attached to its key |
| SettingsManager.LoadPairsLastWins | MoreStoragePriority/Source/MoreStoragePriority/StorageSettingsManager.cs:127-134 | a key holds the model of the last pair that carries it with a non-null model, re-attached to the key |
| SettingsManager.LoadLastWins | MoreStoragePriority/Source/MoreStoragePriority/StorageSettingsManager.cs:115-137 | after a load each key holds the model of its last non-null pair, re-attached to the key |
| SettingsManager.Customised | MoreStoragePriority/Source/MoreStoragePriority/StorageSettingsManager.cs:100-108 | the registry restricted to its customised entries, order kept |
| SettingsManager.SaveLoadRoundTrip | MoreStoragePriority/Source/MoreStoragePriority/StorageSettingsManager.cs:92-137 | loading what a save wrote gives exactly the customised part of the saved registry, whatever was loaded before |
| SettingsManager.GetIsIdempotent | MoreStoragePriority/Source/MoreStoragePriority/StorageSettingsManager.cs:27-38 | a second lookup returns the same model and adds nothing |
| SettingsManager.RemoveIsIdempotent | MoreStoragePriority/Source/MoreStoragePriority/StorageSettingsManager.cs:44-55 | removing twice is removing once |
| SettingsManager.RemoveThenGetIsFresh | MoreStoragePriority/Source/MoreStoragePriority/StorageSettingsManager.cs:27-55 | after a remove the next lookup yields a fresh model with no override |
| SettingsManager.CopyFromHookAsWritten | MoreStoragePriority/Source/MoreStoragePriority/Patches/Patch_StorageSettings.cs:118-132 | the CopyFrom hook as written; a disabled session changes nothing |
| SettingsManager.SelfCopyWipesWeights | MoreStoragePriority/Source/MoreStoragePriority/Patches/Patch_StorageSettings.cs:118-132 | copying a customised storage's settings onto itself leaves it with no override |
| SettingsManager.CopyFromHook | MoreStoragePriority/Source/MoreStoragePriority/Patches/Patch_StorageSettings.cs:118-132 | the hook with a self-copy as a no-op; a disabled session changes nothing; attachment is kept |
| SettingsManager.CopyFromHookCopiesWeights | MoreStoragePriority/Source/MoreStoragePriority/Patches/Patch_StorageSettings.cs:118-132 | the target ends with the source's weights and its own attachment |
| SettingsManager.CopyFromHookTouchesOnlyTarget | MoreStoragePriority/Source/MoreStoragePriority/Patches/Patch_StorageSettings.cs:118-132 | no other storage's model changes |
| SettingsManager.DestroyHook | MoreStoragePriority/Source/MoreStoragePriority/Patches/Patch_StorageSettings.cs:86-97 | after a destroy the storage's settings get a fresh model on the next lookup, and no other model changes; the registry order loses only that key |
| SettingsManager.SetDisallowAllHook | MoreStoragePriority/Source/MoreStoragePriority/Patches/Patch_StorageSettings.cs:102-113 | the model shown in the filter panel loses all weights and keeps its attachment; everything else and the order are unchanged |
| StoreUtilityPatch.DistSquared | MoreStoragePriority/Source/MoreStoragePriority/Patches/Patch_StorageUtility.cs:118 | the squared horizontal distance is zero iff x and z agree |
| StoreUtilityPatch.GetStorageSettings | MoreStoragePriority/Source/MoreStoragePriority/Patches/Patch_StorageUtility.cs:184-195 | settings only come from an existing destination |
| StoreUtilityPatch.GetDestinationPosition | MoreStoragePriority/Source/MoreStoragePriority/Patches/Patch_StorageUtility.cs:200-211 | a building's position, a zone's first cell (the origin when empty), the invalid cell otherwise |
| StoreUtilityPatch.SettingsOf | MoreStoragePriority/Source/MoreStoragePriority/Patches/Patch_StorageUtility.cs:147-162 | a group that `IsValidStorageFor` accepts has a parent whose settings accept the item |
| StoreUtilityPatch.OnlyCreatedTrans | MoreStoragePriority/Source/MoreStoragePriority/StorageSettingsManager.cs:27-38 | registries that only gained empty models compose |
| StoreUtilityPatch.ScoreStable | MoreStoragePriority/Source/MoreStoragePriority/Patches/Patch_StorageUtility.cs:167-179 | creating empty models changes no candidate's score |
| StoreUtilityPatch.EffectivePriorityAt | MoreStoragePriority/Source/MoreStoragePriority/Patches/Patch_StorageUtility.cs:167-179 | the lookup's score (`Score`) is the model's effective priority when customised and the host's rank otherwise, and the key is then registered |
| StoreUtilityPatch.ScoreOfCustomised | MoreStoragePriority/Source/MoreStoragePriority/Patches/Patch_StorageUtility.cs:167-179 | a customised candidate scores rank + effective weight, within 3 of the rank |
| StoreUtilityPatch.Flags | MoreStoragePriority/Source/MoreStoragePriority/Patches/Patch_StorageUtility.cs:102-114 | a group qualifies iff it is valid for the item and scores at least the threshold |
| StoreUtilityPatch.BestIsUnique | MoreStoragePriority/Source/MoreStoragePriority/Patches/Patch_StorageUtility.cs:100-141 | the winning group is unique |
| StoreUtilityPatch.BestIsArgmax | MoreStoragePriority/Source/MoreStoragePriority/Patches/Patch_StorageUtility.cs:100-141 | the winner qualifies, has the top score, the least distance at that score, and beats every earlier group with that score |
| StoreUtilityPatch.ScanFindsBest | MoreStoragePriority/Source/MoreStoragePriority/Patches/Patch_StorageUtility.cs:100-141 | the scan's pick is the winner, and there is none iff no group qualifies |
| StoreUtilityPatch.LookupOnlyCreates | MoreStoragePriority/Source/MoreStoragePriority/Patches/Patch_StorageUtility.cs:169 | a lookup only adds an empty model |
| StoreUtilityPatch.LookupKeepsAttached | MoreStoragePriority/Source/MoreStoragePriority/Patches/Patch_StorageUtility.cs:169 | a lookup keeps every model attached |
| StoreUtilityPatch.TouchedOnlyCreates | MoreStoragePriority/Source/MoreStoragePriority/Patches/Patch_StorageUtility.cs:100-110 | the scan's lookups only add empty models |
| StoreUtilityPatch.TouchedKeepsAttached | MoreStoragePriority/Source/MoreStoragePriority/Patches/Patch_StorageUtility.cs:100-110 | the scan's lookups keep every model attached |
| StoreUtilityPatch.TouchedScore | MoreStoragePriority/Source/MoreStoragePriority/Patches/Patch_StorageUtility.cs:110 | a lookup in the middle of the scan gives the score the starting registry gives |
| StoreUtilityPatch.FindBestStorage | MoreStoragePriority/Source/MoreStoragePriority/Patches/Patch_StorageUtility.cs:81-142 | the result is the unique winner, or none iff no group qualifies; the registry only gains empty attached models |
| StoreUtilityPatch.ScanGroups | MoreStoragePriority/Source/MoreStoragePriority/Patches/Patch_StorageUtility.cs:100-139 | the loop computes the declarative scan and the threaded registry |
| StoreUtilityPatch.FindBestCellInGroup | MoreStoragePriority/Source/MoreStoragePriority/Patches/Patch_StorageUtility.cs:213-233 | a null group or no good cell gives the invalid cell; otherwise the nearest good cell, first on ties |
| StoreUtilityPatch.NearestIsClosest | MoreStoragePriority/Source/MoreStoragePriority/Patches/Patch_StorageUtility.cs:213-233 | the chosen cell is good, no good cell is nearer, and every earlier good cell is strictly farther |
| StoreUtilityPatch.FoundModel | MoreStoragePriority/Source/MoreStoragePriority/Patches/Patch_StorageUtility.cs:47 | the found destination's model comes from get-or-create, which only adds an empty model |
| StoreUtilityPatch.BestParent | MoreStoragePriority/Source/MoreStoragePriority/Patches/Patch_StorageUtility.cs:134 | every winner is the same existing group |
| StoreUtilityPatch.CellIn | MoreStoragePriority/Source/MoreStoragePriority/Patches/Patch_StorageUtility.cs:61-64 | the cell becomes the group's nearest good cell (first on ties) when that cell is valid; it stays when the nearest good cell is invalid or the group has no good cell |
| StoreUtilityPatch.NearestIsTaken | MoreStoragePriority/Source/MoreStoragePriority/Patches/Patch_StorageUtility.cs:61-64 | taking the cell search's answer when it is valid takes the nearest good cell, and keeps the old cell when there is no good cell |
| StoreUtilityPatch.Reconsider | MoreStoragePriority/Source/MoreStoragePriority/Patches/Patch_StorageUtility.cs:52-70 | nothing changes when no group qualifies; otherwise the destination becomes the winner's; when that differs from the current one the cell becomes the winner's nearest good cell if valid; the cell changes only with the destination |
| StoreUtilityPatch.Postfix | MoreStoragePriority/Source/MoreStoragePriority/Patches/Patch_StorageUtility.cs:23-76 | every fast exit and an override-free found model leave destination and cell alone; otherwise the winner's destination is taken, and on a move the cell becomes the winner's nearest good cell from the hauler (or the item) when valid; the cell changes only with the destination |
| LoadoutClipboard.KeyEqualsIsIdentity | OnekeyFillingin/Assemblies/OnkeyFillinginMain.cs:92-97 | `KeyEquals` holds of two keys iff they are the same key, i.e. both ids agree |
| LoadoutClipboard.Initial | OnekeyFillingin/Assemblies/OnkeyFillinginMain.cs:111-120 | the clipboard starts with no lists, no times and an empty global copy |
| LoadoutClipboard.ExpiredKeys | OnekeyFillingin/Assemblies/OnkeyFillinginMain.cs:240-249 | exactly the keys last used before now minus thirty days |
| LoadoutClipboard.CleanOldLoadouts | OnekeyFillingin/Assemblies/OnkeyFillinginMain.cs:236-256 | exactly the expired keys leave both dictionaries; the rest keep their values and order; the global copy stays |
| LoadoutClipboard.CleanIsIdempotent | OnekeyFillingin/Assemblies/OnkeyFillinginMain.cs:236-256 | evicting twice at the same time is evicting once |
| LoadoutClipboard.CleanNothing | OnekeyFillingin/Assemblies/OnkeyFillinginMain.cs:236-256 | with nothing expired, eviction changes nothing |
| LoadoutClipboard.SaveLoadout | OnekeyFillingin/Assemblies/OnkeyFillinginMain.cs:125-152 | a null map or list changes nothing; otherwise the group's list and the global copy become the items, stamped now, then old lists are evicted; the group key keeps its place in the dictionary or is appended, the rest keep their order minus the evicted keys, and every other surviving key keeps its last-use time |
| LoadoutClipboard.SaveKeepsRecentLists | OnekeyFillingin/Assemblies/OnkeyFillinginMain.cs:125-152 | a save keeps exactly the other lists that have not expired, unchanged |
| LoadoutClipboard.OnMap | OnekeyFillingin/Assemblies/OnkeyFillinginMain.cs:171-172 | which stored keys lie on the map, in enumeration order |
| LoadoutClipboard.MostRecentOnMap | OnekeyFillingin/Assemblies/OnkeyFillinginMain.cs:171-179 | the fallback pick is a stored key on the map |
| LoadoutClipboard.MostRecentIsLatest | OnekeyFillingin/Assemblies/OnkeyFillinginMain.cs:171-179 | the pick exists iff some key is on the map, and it is the latest used there, first in enumeration order on ties |
| LoadoutClipboard.GetLoadout | OnekeyFillingin/Assemblies/OnkeyFillinginMain.cs:157-190 | a null map gives an empty list; then the exact key (stamped now), then the same-map pick, then a non-empty global copy, else an empty list |
| LoadoutClipboard.SaveThenGet | OnekeyFillingin/Assemblies/OnkeyFillinginMain.cs:125-168 | a save is read back through the exact key |
| LoadoutClipboard.NoDataMeansEmpty | OnekeyFillingin/Assemblies/OnkeyFillinginMain.cs:195-211 | when `HasData` is false the lookup returns an empty list |
| LoadoutClipboard.HasDataDoesNotPromiseItems | OnekeyFillingin/Assemblies/OnkeyFillinginMain.cs:195-211 | a group whose own list is empty reports data through another group, yet its lookup returns the empty list |
| LoadoutClipboard.ClearLoadout | OnekeyFillingin/Assemblies/OnkeyFillinginMain.cs:216-231 | a null map changes nothing; otherwise only that key leaves both dictionaries, the surviving lists keep their order, and the global copy stays |
| LoadoutClipboard.ClearThenGetFallsBack | OnekeyFillingin/Assemblies/OnkeyFillinginMain.cs:216-231 | after a clear the lookup changes nothing and returns the map's most recently used other list, or else the global copy |
| LoadoutClipboard.CleanKeepsSynced | OnekeyFillingin/Assemblies/OnkeyFillinginMain.cs:236-256 | eviction keeps lists and times on the same keys |
| LoadoutClipboard.SaveKeepsSynced | OnekeyFillingin/Assemblies/OnkeyFillinginMain.cs:125-152 | a save keeps lists and times on the same keys |
| LoadoutClipboard.GetKeepsSynced | OnekeyFillingin/Assemblies/OnkeyFillinginMain.cs:157-190 | a lookup keeps lists and times on the same keys |
| LoadoutClipboard.ClearKeepsSynced | OnekeyFillingin/Assemblies/OnkeyFillinginMain.cs:216-231 | a clear keeps lists and times on the same keys |
| PresetClipboard.LoadFromSettings | OnekeyFillingin/Assemblies/OnkeyFillinginMain.cs:343-354 | missing settings or a missing list give the empty store; nothing is resolved after a load; the clock is read once per record |
| PresetClipboard.LoadedStoreIsConsistent | OnekeyFillingin/Assemblies/OnkeyFillinginMain.cs:349-353 | a loaded store times exactly the names it persists |
| PresetClipboard.LoadedNames | OnekeyFillingin/Assemblies/OnkeyFillinginMain.cs:349-353 | a loaded store persists exactly the records' names |
| PresetClipboard.LoadedLastWins | OnekeyFillingin/Assemblies/OnkeyFillinginMain.cs:349-353 | a name holds the items of its last record, an empty list when they are missing |
| PresetClipboard.LoadedTimes | OnekeyFillingin/Assemblies/OnkeyFillinginMain.cs:349-353 | each name is stamped with the clock reading taken for its last record |
| PresetClipboard.Snapshot | OnekeyFillingin/Assemblies/OnkeyFillinginMain.cs:356-368 | one record per persisted preset, in enumeration order |
| PresetClipboard.SnapshotRoundTrip | OnekeyFillingin/Assemblies/OnkeyFillinginMain.cs:343-368 | loading what was written restores the persisted presets exactly, in order |
| PresetClipboard.ResolveLine | OnekeyFillingin/Assemblies/OnkeyFillinginMain.cs:388-392 | one line gives at most one item |
| PresetClipboard.ResolveAppend | OnekeyFillingin/Assemblies/OnkeyFillinginMain.cs:386-393 | resolution goes line by line: resolving a concatenation concatenates the results |
| PresetClipboard.ResolveItems | OnekeyFillingin/Assemblies/OnkeyFillinginMain.cs:386-393 | resolution yields at most one item per line |
| PresetClipboard.ResolvedComeFromLines | OnekeyFillingin/Assemblies/OnkeyFillinginMain.cs:386-393 | every resolved item comes from a line whose name resolves to its def, with the line's count |
| PresetClipboard.ToLines | OnekeyFillingin/Assemblies/OnkeyFillinginMain.cs:402 | the persisted form keeps each item's def name and count, in order |
| PresetClipboard.ResolveRoundTrip | OnekeyFillingin/Assemblies/OnkeyFillinginMain.cs:380-402 | persisting items and resolving them again gives them back when their defs are still loaded |
| PresetClipboard.EnsureResolved | OnekeyFillingin/Assemblies/OnkeyFillinginMain.cs:380-396 | a resolved preset is kept as is; otherwise its lines (none when not persisted) are resolved and remembered; nothing else changes |
| PresetClipboard.SavePreset | OnekeyFillingin/Assemblies/OnkeyFillinginMain.cs:398-406 | an empty name or missing list changes nothing; otherwise the name holds the items, their persisted lines and now; every other name keeps its membership and its values in all three dictionaries; a known name keeps its place in the persisted and timed orders, a new one is appended |
| PresetClipboard.GetPreset | OnekeyFillingin/Assemblies/OnkeyFillinginMain.cs:408-418 | an empty or unpersisted name gives an empty list and no change; otherwise the resolved items, which are remembered for the name, stamping the name now; the timed order is kept, or the name appended if it had no time |
| PresetClipboard.SaveThenGetPreset | OnekeyFillingin/Assemblies/OnkeyFillinginMain.cs:398-418 | a saved preset reads back as saved |
| PresetClipboard.PresetSurvivesReload | OnekeyFillingin/Assemblies/OnkeyFillinginMain.cs:343-418 | a saved preset survives writing the settings and loading them again when its defs are still loaded |
| PresetClipboard.DeletePreset | OnekeyFillingin/Assemblies/OnkeyFillinginMain.cs:420-428 | an empty name changes nothing; otherwise the name leaves all three dictionaries and every other name keeps its membership and its values in all three, and the persisted and timed orders lose only the name |
| PresetClipboard.Insert | OnekeyFillingin/Assemblies/OnkeyFillinginMain.cs:374-377 | inserting adds one name |
| PresetClipboard.InsertIsPermutation | OnekeyFillingin/Assemblies/OnkeyFillinginMain.cs:374-377 | insertion only adds the name |
| PresetClipboard.SortIsPermutation | OnekeyFillingin/Assemblies/OnkeyFillinginMain.cs:374-377 | the sort only reorders |
| PresetClipboard.SortByRecency | OnekeyFillingin/Assemblies/OnkeyFillinginMain.cs:374-377 | the sort keeps the number of names |
| PresetClipboard.SortedTail | OnekeyFillingin/Assemblies/OnkeyFillinginMain.cs:374-377 | the tail of a latest-first list is latest-first and bounded by its head |
| PresetClipboard.SortedCons | OnekeyFillingin/Assemblies/OnkeyFillinginMain.cs:374-377 | a name no earlier than all of a latest-first list may go in front |
| PresetClipboard.InsertKeepsBound | OnekeyFillingin/Assemblies/OnkeyFillinginMain.cs:374-377 | insertion keeps an upper bound on the times |
| PresetClipboard.InsertKeepsOrder | OnekeyFillingin/Assemblies/OnkeyFillinginMain.cs:374-377 | insertion keeps a list latest-first |
| PresetClipboard.SortIsByRecency | OnekeyFillingin/Assemblies/OnkeyFillinginMain.cs:374-377 | the sort yields a latest-first list |
| PresetClipboard.StampedAtAppend | OnekeyFillingin/Assemblies/OnkeyFillinginMain.cs:374-377 | selecting the names with one time distributes over concatenation |
| PresetClipboard.NoneStampedLater | OnekeyFillingin/Assemblies/OnkeyFillinginMain.cs:374-377 | a latest-first list whose head is earlier than t has no name stamped t |
| PresetClipboard.InsertIsStable | OnekeyFillingin/Assemblies/OnkeyFillinginMain.cs:374-377 | insertion puts a name after every name with the same time |
| PresetClipboard.SortIsStable | OnekeyFillingin/Assemblies/OnkeyFillinginMain.cs:374-377 | names with equal times keep their relative order |
| PresetClipboard.GetPresetNames | OnekeyFillingin/Assemblies/OnkeyFillinginMain.cs:372-378 | one listed name per timed preset |
| PresetClipboard.PresetNamesAreByRecency | OnekeyFillingin/Assemblies/OnkeyFillinginMain.cs:372-378 | the listing is a permutation of the timed names, latest first, in enumeration order among equal times |
| PresetClipboard.HasAnyIffListed | OnekeyFillingin/Assemblies/OnkeyFillinginMain.cs:370-378 | in a consistent store `HasAny` holds iff the listing is non-empty |
| PresetClipboard.SaveKeepsConsistent | OnekeyFillingin/Assemblies/OnkeyFillinginMain.cs:398-406 | a save keeps persisted and timed names equal and resolved names among them |
| PresetClipboard.GetKeepsConsistent | OnekeyFillingin/Assemblies/OnkeyFillinginMain.cs:408-418 | a get keeps the store consistent |
| PresetClipboard.DeleteKeepsConsistent | OnekeyFillingin/Assemblies/OnkeyFillinginMain.cs:420-428 | a delete keeps the store consistent |

## Left out

- Logging, the settings window and `GetStatistics`: these are output only. `GetTimeDescription` and the description and tooltip builders are left out as well, since they format dates and localised strings.
- Scribe persistence and `WriteSettings` disk I/O. Saving and loading are modelled on the lists the code hands to Scribe.
- `SaveSettings`' early return when the mod instance or its settings object is missing. `Snapshot` is the list it writes when it does write.
- UI code: the priority boxes, the filter-panel drawing, the session toggle button, and the pod-loading dialogs, gizmos and reflection helpers. The session switch is an input of the resolver and of the CopyFrom hook.
- ExtendedSettings.AdjustPriority: integers are unbounded, so the int32 wrap-around of `current + delta` (ExtendedStorageSettings.cs:39) is not modelled. It shows only when |delta| is near 2^31 or when a weight read back from a save (ExposeData, ExtendedStorageSettings.cs:250-270, which does not clamp) sits near the int32 limits: a weight of 2147483647 plus one gives clamp(int.MinValue) = -3 in C#, while the model gives 3. The settings panel only ever adjusts by ±1 (UI_PriorityBox.cs:67, 72, 139, 144). The same holds for ExtendedSettings.AdjustCategoryPriority (:48) and ExtendedSettings.StepsSaturate.
- ExtendedSettings.CategorySum: the running `sum += GetCategoryPriority(cat)` (ExtendedStorageSettings.cs:171) is unbounded here rather than int32; it can wrap only when category weights loaded from a save lie far outside the ±3 band.
- Floating-point distances are integer squared distances. The sentinels `int.MinValue` and `float.MaxValue` that seed the searches become "no pick yet". This is equivalent because every candidate compares strictly better than the sentinels.
- `DateTime.Now` is a tick-count parameter, and `DateTime.MinValue` is tick 0. The 30-day window is 30 × 864,000,000,000 ticks. Before 30 days have passed the threshold would be negative: nothing is evicted, which is the same outcome as the source, whose `AddDays` throws there and the exception is caught. Preset loading reads the clock once per record; the model passes the readings in as a function of the record's position.
- LoadoutClipboard.SaveLoadout: takes one `now` where the source reads `DateTime.Now` three times (OnkeyFillinginMain.cs:142, :146 and :240, the last inside CleanOldLoadouts); the readings differ by at most the time the save takes, which the model treats as zero.
- The catch-all around the resolver post-pass (Patch_StorageUtility.cs:33-75). In the source a host fault is swallowed there: a null map, or `IsGoodStoreCell` throwing after the destination has been replaced, which leaves the new destination with the old cell. In the model the host's answers are total functions, so this path cannot occur. StoreUtilityPatch.Postfix therefore promises nothing about that partial outcome.
- Object identity of `StorageSettings` is a number, and the host's answers are functions. These answers are the current priority, `AllowedToAccept` and `IsGoodStoreCell`.
- `DefDatabase` lookups: a lookup function for presets and "resolves" predicates for load-time pruning.
- The .NET dictionary's reuse of freed slots: after a removal, a newly added key may enumerate in the freed slot rather than last. The model always appends. This affects only tie orders (same-map fallback, preset listing) and the order of a saved registry.
- Null preset names and null defs inside items: the source would throw on them. An empty name stands for the null-or-empty branch.
- List aliasing: `GetLoadout` returns the stored list itself rather than a copy. Later mutation through that reference is not modelled.
- `ToListPriority`'s default branch: the enum is modelled with exactly its six values.
- The loadout key's hash code: only its equality matters to the dictionary.
- ExtendedSettings.GetEffectivePriority: states only the ±3 band around the base. The exact composition is stated by ItemOverrideWins and CategoryFallback.
- ExtendedSettings.PostLoadInit: states only the missing-map and attachment cases. Pruning itself is stated by Prune and PruneProperties.
- StoreUtilityPatch.EffectivePriorityAt: the registry effect of the lookup is stated by LookupOnlyCreates and LookupKeepsAttached.
- LoadoutClipboard.MostRecentOnMap: states only that the pick lies on the map. MostRecentIsLatest states which entry it is.
- PresetClipboard.GetPresetNames: states only the length. Order, stability and permutation are in PresetNamesAreByRecency.
- PresetClipboard.Insert: states only the length. InsertIsPermutation, InsertKeepsOrder and InsertIsStable carry the rest.
- PresetClipboard.ResolveLine: states only the size bound. ResolveAppend and ResolvedComeFromLines state what resolution keeps.
- PresetClipboard.ResolveItems: states only the size bound, for the same reason.
- PresetClipboard.SortByRecency: states only the length. SortIsPermutation, SortIsByRecency and SortIsStable carry the rest.
- ExtendedSettings.ToListPriority: states only the range. ToListPriorityIsRank states the table.

## Findings

| source | as written | input that shows it | evidently intended | confidence | as-written member | corrected member |
|---|---|---|---|---|---|---|
| MoreStoragePriority/Source/MoreStoragePriority/Patches/Patch_StorageSettings.cs:118-132 | the CopyFrom hook calls `source.CopyTo(target)` even when both are the same model; `CopyTo` clears the target's maps before reading the source's, so it reads maps it has just emptied | copying a storage whose item map is {Steel: 2} onto itself | copying a storage's settings onto itself keeps its weights | not executed | SettingsManager.SelfCopyWipesWeights | SettingsManager.CopyFromHookCopiesWeights |
