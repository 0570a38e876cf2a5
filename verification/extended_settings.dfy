/** The per-storage weight model of MoreStoragePriority: two sparse maps of
    integer weights in [-3, 3], one keyed by item-def name and one keyed by
    category-def name, on top of the host's six-step storage priority. */
module ExtendedSettings {
  import opened Optional

  const MinPriority: int := -3
  const MaxPriority: int := 3
  const DefaultPriority: int := 0

  /** The host's storage priority enum, in declaration order. */
  datatype StoragePriority = Unstored | Low | Normal | Preferred | Important | Critical

  /** Identity of a host storage-settings object. */
  type SettingsId = nat

  datatype CategoryDef = CategoryDef(defName: string)

  /** An item definition; the host may leave its category list null and may
      put null entries in it. */
  datatype ThingDef = ThingDef(defName: string, thingCategories: Option<seq<Option<CategoryDef>>>)

  /** The extended settings attached to one storage. `itemWeights` is keyed by
      item-def name, `categoryWeights` by category-def name. */
  datatype ExtendedStorageSettings = ExtendedStorageSettings(
    baseSettings: Option<SettingsId>,
    itemWeights: map<string, int>,
    categoryWeights: map<string, int>)

  /** A freshly constructed model: no overrides. */
  function New(baseSettings: Option<SettingsId>): (e: ExtendedStorageSettings)
    ensures e.baseSettings == baseSettings
    ensures !HasAnyCustomPriority(e) && GetCustomPriorityCount(e) == 0
  {
    ExtendedStorageSettings(baseSettings, map[], map[])
  }

  /** `Mathf.Clamp` on integers. */
  function Clamp(value: int, min: int, max: int): (r: int)
    requires min <= max
    ensures min <= r <= max
    ensures min <= value <= max ==> r == value
    ensures value < min ==> r == min
    ensures value > max ==> r == max
  {
    if value < min then min else if value > max then max else value
  }

  function ClampWeight(value: int): (r: int)
    ensures MinPriority <= r <= MaxPriority
  {
    Clamp(value, MinPriority, MaxPriority)
  }

  predicate InBand(v: int) {
    MinPriority <= v <= MaxPriority
  }

  /** Every stored weight is in the band and non-zero. */
  predicate SparseInBand(m: map<string, int>) {
    forall n | n in m :: InBand(m[n]) && m[n] != DefaultPriority
  }

  /** The representation invariant every setter keeps: a key is stored only
      with a non-zero in-band value. */
  predicate Valid(e: ExtendedStorageSettings) {
    SparseInBand(e.itemWeights) && SparseInBand(e.categoryWeights)
  }

  /** The single write chokepoint: clamp, then store or delete. */
  function WriteClamped(m: map<string, int>, key: string, value: int): (r: map<string, int>)
    ensures key in r <==> ClampWeight(value) != DefaultPriority
    ensures key in r ==> r[key] == ClampWeight(value)
    ensures r - {key} == m - {key}
    ensures SparseInBand(m) ==> SparseInBand(r)
  {
    var v := ClampWeight(value);
    if v == DefaultPriority then m - {key} else m[key := v]
  }

  function Lookup(m: map<string, int>, key: string): int {
    if key in m then m[key] else DefaultPriority
  }

  function GetPriority(e: ExtendedStorageSettings, def: Option<ThingDef>): (r: int)
    ensures def.None? ==> r == DefaultPriority
    ensures def.Some? && def.value.defName !in e.itemWeights ==> r == DefaultPriority
    ensures Valid(e) ==> InBand(r)
    ensures Valid(e) && def.Some? ==> (def.value.defName in e.itemWeights <==> r != DefaultPriority)
  {
    if def.None? then DefaultPriority else Lookup(e.itemWeights, def.value.defName)
  }

  function GetCategoryPriority(e: ExtendedStorageSettings, cat: Option<CategoryDef>): (r: int)
    ensures cat.None? ==> r == DefaultPriority
    ensures cat.Some? && cat.value.defName !in e.categoryWeights ==> r == DefaultPriority
    ensures Valid(e) ==> InBand(r)
    ensures Valid(e) && cat.Some? ==> (cat.value.defName in e.categoryWeights <==> r != DefaultPriority)
  {
    if cat.None? then DefaultPriority else Lookup(e.categoryWeights, cat.value.defName)
  }

  function SetPriority(e: ExtendedStorageSettings, def: Option<ThingDef>, value: int): (r: ExtendedStorageSettings)
    ensures def.None? ==> r == e
    ensures def.Some? ==> GetPriority(r, def) == ClampWeight(value)
    ensures def.Some? ==> (def.value.defName in r.itemWeights <==> ClampWeight(value) != DefaultPriority)
    ensures def.Some? ==> r.itemWeights - {def.value.defName} == e.itemWeights - {def.value.defName}
    ensures r.categoryWeights == e.categoryWeights && r.baseSettings == e.baseSettings
    ensures Valid(e) ==> Valid(r)
  {
    if def.None? then e
    else e.(itemWeights := WriteClamped(e.itemWeights, def.value.defName, value))
  }

  function SetCategoryPriority(e: ExtendedStorageSettings, cat: Option<CategoryDef>, value: int): (r: ExtendedStorageSettings)
    ensures cat.None? ==> r == e
    ensures cat.Some? ==> GetCategoryPriority(r, cat) == ClampWeight(value)
    ensures cat.Some? ==> (cat.value.defName in r.categoryWeights <==> ClampWeight(value) != DefaultPriority)
    ensures cat.Some? ==> r.categoryWeights - {cat.value.defName} == e.categoryWeights - {cat.value.defName}
    ensures r.itemWeights == e.itemWeights && r.baseSettings == e.baseSettings
    ensures Valid(e) ==> Valid(r)
  {
    if cat.None? then e
    else e.(categoryWeights := WriteClamped(e.categoryWeights, cat.value.defName, value))
  }

  /** One +delta step from the UI; the step saturates at the band's ends. */
  function AdjustPriority(e: ExtendedStorageSettings, def: Option<ThingDef>, delta: int): (r: ExtendedStorageSettings)
    ensures def.None? ==> r == e
    ensures def.Some? ==> GetPriority(r, def) == ClampWeight(GetPriority(e, def) + delta)
    ensures def.Some? ==> r.itemWeights - {def.value.defName} == e.itemWeights - {def.value.defName}
    ensures r.categoryWeights == e.categoryWeights && r.baseSettings == e.baseSettings
    ensures Valid(e) ==> Valid(r)
  {
    if def.None? then e
    else SetPriority(e, def, ClampWeight(GetPriority(e, def) + delta))
  }

  function AdjustCategoryPriority(e: ExtendedStorageSettings, cat: Option<CategoryDef>, delta: int): (r: ExtendedStorageSettings)
    ensures cat.None? ==> r == e
    ensures cat.Some? ==> GetCategoryPriority(r, cat) == ClampWeight(GetCategoryPriority(e, cat) + delta)
    ensures cat.Some? ==> r.categoryWeights - {cat.value.defName} == e.categoryWeights - {cat.value.defName}
    ensures r.itemWeights == e.itemWeights && r.baseSettings == e.baseSettings
    ensures Valid(e) ==> Valid(r)
  {
    if cat.None? then e
    else SetCategoryPriority(e, cat, ClampWeight(GetCategoryPriority(e, cat) + delta))
  }

  function ResetPriority(e: ExtendedStorageSettings, def: Option<ThingDef>): (r: ExtendedStorageSettings)
    ensures def.None? ==> r == e
    ensures def.Some? ==> def.value.defName !in r.itemWeights && GetPriority(r, def) == DefaultPriority
    ensures def.Some? ==> r.itemWeights == e.itemWeights - {def.value.defName}
    ensures r.categoryWeights == e.categoryWeights && r.baseSettings == e.baseSettings
    ensures Valid(e) ==> Valid(r)
  {
    if def.None? then e else e.(itemWeights := e.itemWeights - {def.value.defName})
  }

  function ResetCategoryPriority(e: ExtendedStorageSettings, cat: Option<CategoryDef>): (r: ExtendedStorageSettings)
    ensures cat.None? ==> r == e
    ensures cat.Some? ==> cat.value.defName !in r.categoryWeights && GetCategoryPriority(r, cat) == DefaultPriority
    ensures cat.Some? ==> r.categoryWeights == e.categoryWeights - {cat.value.defName}
    ensures r.itemWeights == e.itemWeights && r.baseSettings == e.baseSettings
    ensures Valid(e) ==> Valid(r)
  {
    if cat.None? then e else e.(categoryWeights := e.categoryWeights - {cat.value.defName})
  }

  function ResetAllPriorities(e: ExtendedStorageSettings): (r: ExtendedStorageSettings)
    ensures !HasAnyCustomPriority(r) && GetCustomPriorityCount(r) == 0
    ensures forall d: Option<ThingDef> :: GetPriority(r, d) == DefaultPriority
    ensures r.baseSettings == e.baseSettings && Valid(r)
  {
    e.(itemWeights := map[], categoryWeights := map[])
  }

  function HasAnyCustomPriority(e: ExtendedStorageSettings): bool {
    |e.itemWeights| > 0 || |e.categoryWeights| > 0
  }

  function GetCustomPriorityCount(e: ExtendedStorageSettings): nat {
    |e.itemWeights| + |e.categoryWeights|
  }

  /** The six priorities in the enum's declaration order. */
  const AllPriorities: seq<StoragePriority> := [Unstored, Low, Normal, Preferred, Important, Critical]

  function ToListPriority(p: StoragePriority): (r: int)
    ensures 0 <= r <= 5
  {
    match p
    case Unstored => 0
    case Low => 1
    case Normal => 2
    case Preferred => 3
    case Important => 4
    case Critical => 5
  }

  /** The host's current priority of the attached settings, or 5 when the
      model is not attached to any settings. */
  function GetBasePriority(e: ExtendedStorageSettings, priorityOf: SettingsId -> StoragePriority): (r: int)
    ensures 0 <= r <= 5
    ensures e.baseSettings.None? ==> r == 5
    ensures e.baseSettings.Some? ==> r == ToListPriority(priorityOf(e.baseSettings.value))
  {
    if e.baseSettings.None? then 5 else ToListPriority(priorityOf(e.baseSettings.value))
  }

  /** Sum of the category weights of `cats`, null entries counting 0. */
  function CategorySum(e: ExtendedStorageSettings, cats: seq<Option<CategoryDef>>): (r: int)
    ensures Valid(e) ==> MinPriority * |cats| <= r <= MaxPriority * |cats|
  {
    if |cats| == 0 then 0
    else CategorySum(e, cats[..|cats| - 1]) + GetCategoryPriority(e, cats[|cats| - 1])
  }

  /** The weight actually applied for `def`: its own override when it has one,
      else the clamped sum of its categories' weights. */
  function EffectiveWeight(e: ExtendedStorageSettings, def: Option<ThingDef>): (r: int)
    ensures Valid(e) ==> InBand(r)
    ensures Valid(e) && def.Some? && def.value.defName in e.itemWeights ==> r == e.itemWeights[def.value.defName]
    ensures Valid(e) && def.Some? && def.value.defName !in e.itemWeights ==>
      r == if def.value.thingCategories.Some? then ClampWeight(CategorySum(e, def.value.thingCategories.value)) else 0
    ensures def.None? ==> r == 0
  {
    var own := GetPriority(e, def);
    if own == DefaultPriority && def.Some? && def.value.thingCategories.Some? then
      ClampWeight(CategorySum(e, def.value.thingCategories.value))
    else own
  }

  function GetEffectivePriority(e: ExtendedStorageSettings, priorityOf: SettingsId -> StoragePriority, def: Option<ThingDef>): (r: int)
    ensures Valid(e) ==> GetBasePriority(e, priorityOf) + MinPriority <= r <= GetBasePriority(e, priorityOf) + MaxPriority
  {
    GetBasePriority(e, priorityOf) + EffectiveWeight(e, def)
  }

  /** The variant that takes an item instance; `def` is None when the item or
      its def is null, which falls back to the base priority. */
  function GetEffectivePriorityForThing(e: ExtendedStorageSettings, priorityOf: SettingsId -> StoragePriority, def: Option<ThingDef>): (r: int)
    ensures def.None? ==> r == GetBasePriority(e, priorityOf)
    ensures r == GetEffectivePriority(e, priorityOf, def)
  {
    if def.None? then GetBasePriority(e, priorityOf) else GetEffectivePriority(e, priorityOf, def)
  }

  /** `this.CopyTo(other)` for two distinct objects: `other` takes both maps
      and keeps its own attachment; a null target is left alone. */
  function CopyTo(e: ExtendedStorageSettings, other: Option<ExtendedStorageSettings>): (r: Option<ExtendedStorageSettings>)
    ensures other.None? <==> r.None?
    ensures r.Some? ==> r.value.itemWeights == e.itemWeights && r.value.categoryWeights == e.categoryWeights
    ensures r.Some? ==> r.value.baseSettings == other.value.baseSettings
    ensures r.Some? ==> GetCustomPriorityCount(r.value) == GetCustomPriorityCount(e)
  {
    if other.None? then None
    else Some(other.value.(itemWeights := e.itemWeights, categoryWeights := e.categoryWeights))
  }

  /** The entries of `m` whose key still resolves. */
  function Prune(m: map<string, int>, resolves: string -> bool): (r: map<string, int>)
    ensures forall n | n in r :: n in m && resolves(n) && r[n] == m[n]
    ensures forall n | n in m && resolves(n) :: n in r
  {
    map n | n in m && resolves(n) :: m[n]
  }

  /** The post-load step: a map missing from the save becomes empty, and every
      key whose def no longer resolves is dropped. */
  function PostLoadInit(
    baseSettings: Option<SettingsId>,
    loadedItems: Option<map<string, int>>,
    loadedCategories: Option<map<string, int>>,
    thingResolves: string -> bool,
    categoryResolves: string -> bool): (e: ExtendedStorageSettings)
    ensures e.baseSettings == baseSettings
    ensures loadedItems.None? ==> e.itemWeights == map[]
    ensures loadedCategories.None? ==> e.categoryWeights == map[]
  {
    ExtendedStorageSettings(
      baseSettings,
      Prune(loadedItems.GetOr(map[]), thingResolves),
      Prune(loadedCategories.GetOr(map[]), categoryResolves))
  }

  // ---------------------------------------------------------------------
  // Properties relating several operations
  // ---------------------------------------------------------------------

  /** Writing then reading gives the clamped value, and the key is stored
      exactly when that value is non-zero; likewise for categories. */
  lemma SetThenGet(e: ExtendedStorageSettings, def: ThingDef, cat: CategoryDef, v: int)
    ensures GetPriority(SetPriority(e, Some(def), v), Some(def)) == Clamp(v, -3, 3)
    ensures def.defName in SetPriority(e, Some(def), v).itemWeights <==> Clamp(v, -3, 3) != 0
    ensures GetCategoryPriority(SetCategoryPriority(e, Some(cat), v), Some(cat)) == Clamp(v, -3, 3)
    ensures cat.defName in SetCategoryPriority(e, Some(cat), v).categoryWeights <==> Clamp(v, -3, 3) != 0
  {
  }

  /** The clamp inside an adjustment is redundant: the write clamps again,
      so adjusting by `k` is setting the current weight plus `k`. */
  lemma AdjustIsClampedSet(e: ExtendedStorageSettings, def: Option<ThingDef>, k: int)
    ensures AdjustPriority(e, def, k) == SetPriority(e, def, GetPriority(e, def) + k)
  {
  }

  lemma AdjustCategoryIsClampedSet(e: ExtendedStorageSettings, cat: Option<CategoryDef>, k: int)
    ensures AdjustCategoryPriority(e, cat, k) == SetCategoryPriority(e, cat, GetCategoryPriority(e, cat) + k)
  {
  }

  function AdjustTimes(e: ExtendedStorageSettings, def: Option<ThingDef>, delta: int, n: nat): ExtendedStorageSettings {
    if n == 0 then e else AdjustPriority(AdjustTimes(e, def, delta, n - 1), def, delta)
  }

  /** From weight w, n steps of +1 reach min(w + n, 3). */
  lemma {:induction false} StepsSaturate(e: ExtendedStorageSettings, def: Option<ThingDef>, n: nat)
    requires def.Some? && Valid(e)
    ensures GetPriority(AdjustTimes(e, def, 1, n), def) == ClampWeight(GetPriority(e, def) + n)
  {
    if n > 0 {
      StepsSaturate(e, def, n - 1);
    }
  }

  /** Seven +1 steps from no override give 3, not 7. */
  lemma SevenStepsGiveThree(e: ExtendedStorageSettings, def: Option<ThingDef>)
    requires def.Some? && Valid(e) && def.value.defName !in e.itemWeights
    ensures GetPriority(AdjustTimes(e, def, 1, 7), def) == 3
  {
    StepsSaturate(e, def, 7);
  }

  /** The item override wins outright: category weights do not matter once
      the item has its own non-zero weight. */
  lemma ItemOverrideWins(e: ExtendedStorageSettings, e': ExtendedStorageSettings, priorityOf: SettingsId -> StoragePriority, def: ThingDef)
    requires e'.itemWeights == e.itemWeights && e'.baseSettings == e.baseSettings
    requires GetPriority(e, Some(def)) != DefaultPriority
    ensures GetEffectivePriority(e, priorityOf, Some(def)) == GetEffectivePriority(e', priorityOf, Some(def))
    ensures GetEffectivePriority(e, priorityOf, Some(def)) == GetBasePriority(e, priorityOf) + GetPriority(e, Some(def))
  {
  }

  /** Without an item override the weight is the clamped category sum, and
      the total itself is never clamped. */
  lemma CategoryFallback(e: ExtendedStorageSettings, priorityOf: SettingsId -> StoragePriority, def: ThingDef)
    requires GetPriority(e, Some(def)) == DefaultPriority
    ensures def.thingCategories.Some? ==>
      GetEffectivePriority(e, priorityOf, Some(def)) == GetBasePriority(e, priorityOf) + Clamp(CategorySum(e, def.thingCategories.value), -3, 3)
    ensures def.thingCategories.None? ==> GetEffectivePriority(e, priorityOf, Some(def)) == GetBasePriority(e, priorityOf)
  {
  }

  /** Two categories weighted +2 each give +3, not +4; on a Critical storage
      the total is 8, above the host's 0..5 range. */
  lemma StackedCategoriesClamp(priorityOf: SettingsId -> StoragePriority, s: SettingsId)
    requires priorityOf(s) == Critical
    ensures var e := ExtendedStorageSettings(Some(s), map[], map["Metals" := 2, "Raw" := 2]);
            var steel := ThingDef("Steel", Some([Some(CategoryDef("Metals")), Some(CategoryDef("Raw"))]));
            EffectiveWeight(e, Some(steel)) == 3 && GetEffectivePriority(e, priorityOf, Some(steel)) == 8
  {
    var e := ExtendedStorageSettings(Some(s), map[], map["Metals" := 2, "Raw" := 2]);
    var cats := [Some(CategoryDef("Metals")), Some(CategoryDef("Raw"))];
    assert cats[..1][..0] == [];
    assert CategorySum(e, cats[..1]) == 2;
    assert CategorySum(e, cats) == 4;
  }

  /** The count is the number of stored keys, and it is zero exactly when
      there is no override. */
  lemma CountMatchesHasAny(e: ExtendedStorageSettings)
    ensures GetCustomPriorityCount(e) == |e.itemWeights.Keys| + |e.categoryWeights.Keys|
    ensures HasAnyCustomPriority(e) <==> GetCustomPriorityCount(e) > 0
  {
  }

  /** The priorities map to 0..5 in declaration order, strictly increasing. */
  lemma ToListPriorityIsRank()
    ensures forall i | 0 <= i < |AllPriorities| :: ToListPriority(AllPriorities[i]) == i
    ensures forall i, j | 0 <= i < j < |AllPriorities| :: ToListPriority(AllPriorities[i]) < ToListPriority(AllPriorities[j])
  {
  }

  /** Resetting one key leaves every other entry of both maps untouched. */
  lemma ResetTouchesOnlyItsKey(e: ExtendedStorageSettings, def: ThingDef, cat: CategoryDef)
    ensures forall n | n != def.defName && n in e.itemWeights :: ResetPriority(e, Some(def)).itemWeights[n] == e.itemWeights[n]
    ensures ResetPriority(e, Some(def)).categoryWeights == e.categoryWeights
    ensures forall n | n != cat.defName && n in e.categoryWeights :: ResetCategoryPriority(e, Some(cat)).categoryWeights[n] == e.categoryWeights[n]
    ensures ResetCategoryPriority(e, Some(cat)).itemWeights == e.itemWeights
  {
  }

  /** Pruning keeps a valid model valid, drops nothing when every key
      resolves, and pruning twice is pruning once. */
  lemma PruneProperties(m: map<string, int>, resolves: string -> bool)
    ensures SparseInBand(m) ==> SparseInBand(Prune(m, resolves))
    ensures (forall n | n in m :: resolves(n)) ==> Prune(m, resolves) == m
    ensures Prune(Prune(m, resolves), resolves) == Prune(m, resolves)
  {
    if forall n | n in m :: resolves(n) {
      assert Prune(m, resolves).Keys == m.Keys;
    }
  }
}
