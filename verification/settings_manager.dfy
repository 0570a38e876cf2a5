/** The process-wide registry of MoreStoragePriority: one weight model per
    storage-settings identity, created lazily, dropped when the storage is
    destroyed, and saved and loaded as two parallel lists. */
module SettingsManager {
  import opened Optional
  import opened OrderedDict
  import opened Seqs
  import opened ExtendedSettings

  /** Settings identity to its extended settings, in the dictionary's
      enumeration order. */
  type Registry = Dict<SettingsId, ExtendedStorageSettings>

  /** Every stored model is attached to the settings it is keyed by. */
  predicate Attached(reg: Registry) {
    forall s | s in reg.vals :: reg.vals[s].baseSettings == Some(s)
  }

  /** Get-or-create. A null key yields null and changes nothing; a known key
      yields its model; an unknown key gets a fresh empty model attached to it,
      appended to the enumeration order. */
  function GetExtendedSettings(reg: Registry, s: Option<SettingsId>): (r: (Registry, Option<ExtendedStorageSettings>))
    ensures s.None? ==> r == (reg, None)
    ensures s.Some? ==> r.1.Some? && s.value in r.0.vals && r.0.vals[s.value] == r.1.value
    ensures s.Some? && s.value in reg.vals ==> r == (reg, Some(reg.vals[s.value]))
    ensures s.Some? && s.value !in reg.vals ==>
      && r.1 == Some(New(Some(s.value)))
      && r.0.keys == reg.keys + [s.value]
      && r.0.vals == reg.vals[s.value := New(Some(s.value))]
    ensures Attached(reg) ==> Attached(r.0)
  {
    if s.None? then (reg, None)
    else if s.value in reg.vals then (reg, Some(reg.vals[s.value]))
    else
      var created := New(s);
      (Put(reg, s.value, created), Some(created))
  }

  /** Drop the model of a destroyed storage; null and unknown keys are no-ops. */
  function RemoveExtendedSettings(reg: Registry, s: Option<SettingsId>): (r: Registry)
    ensures s.None? || s.value !in reg.vals ==> r == reg
    ensures s.Some? ==> s.value !in r.vals && r.vals == reg.vals - {s.value}
    ensures s.Some? && s.value in reg.vals ==> r.keys == Without(reg.keys, {s.value})
    ensures Attached(reg) ==> Attached(r)
  {
    if s.None? || s.value !in reg.vals then reg else Remove(reg, s.value)
  }

  function Clear(reg: Registry): (r: Registry)
    ensures |r.keys| == 0 && |r.vals| == 0
    ensures forall s: SettingsId :: GetExtendedSettings(r, Some(s)).1 == Some(New(Some(s)))
  {
    Empty()
  }

  /** Store back a model obtained from the registry after editing it; this is
      how the reference semantics of the source show up in a value model. */
  function Update(reg: Registry, s: SettingsId, e: ExtendedStorageSettings): (r: Registry)
    requires s in reg.vals
    ensures r.keys == reg.keys && r.vals == reg.vals[s := e]
  {
    Put(reg, s, e)
  }

  // ---------------------------------------------------------------------
  // Save
  // ---------------------------------------------------------------------

  /** The keys among `ks` whose model has an override, in order. */
  function CustomisedKeys(ks: seq<SettingsId>, vals: map<SettingsId, ExtendedStorageSettings>): (r: seq<SettingsId>)
    requires forall k | k in ks :: k in vals
    ensures forall k | k in r :: k in ks && HasAnyCustomPriority(vals[k])
    ensures forall k | k in ks && HasAnyCustomPriority(vals[k]) :: k in r
    ensures Distinct(ks) ==> Distinct(r)
  {
    if |ks| == 0 then []
    else
      var rest := CustomisedKeys(ks[1..], vals);
      if HasAnyCustomPriority(vals[ks[0]]) then
        assert ([ks[0]] + rest)[1..] == rest;
        [ks[0]] + rest
      else rest
  }

  /** What a save writes: the customised keys in enumeration order and their
      models, as two aligned lists. */
  function SaveSnapshot(reg: Registry): (r: (seq<SettingsId>, seq<ExtendedStorageSettings>))
    ensures |r.0| == |r.1|
    ensures Distinct(r.0)
    ensures forall i | 0 <= i < |r.0| :: r.0[i] in reg.vals && r.1[i] == reg.vals[r.0[i]] && HasAnyCustomPriority(r.1[i])
    ensures forall s | s in reg.vals && HasAnyCustomPriority(reg.vals[s]) :: s in r.0
  {
    var ks := CustomisedKeys(reg.keys, reg.vals);
    (ks, seq(|ks|, i requires 0 <= i < |ks| => reg.vals[ks[i]]))
  }

  lemma CustomisedKeysStep(ks: seq<SettingsId>, vals: map<SettingsId, ExtendedStorageSettings>, i: nat)
    requires forall k | k in ks :: k in vals
    requires i < |ks|
    ensures CustomisedKeys(ks[i..], vals)
      == (if HasAnyCustomPriority(vals[ks[i]]) then [ks[i]] else []) + CustomisedKeys(ks[i + 1..], vals)
  {
    assert ks[i..][1..] == ks[i + 1..];
  }

  /** Removing position `i` from two aligned lists keeps them aligned. */
  lemma RemoveAtKeepsAlignment(keys: seq<SettingsId>, values: seq<ExtendedStorageSettings>, vals: map<SettingsId, ExtendedStorageSettings>, i: nat)
    requires |keys| == |values| && i < |keys|
    requires forall j | 0 <= j < |keys| :: keys[j] in vals && values[j] == vals[keys[j]]
    ensures var keys', values' := keys[..i] + keys[i + 1..], values[..i] + values[i + 1..];
      |keys'| == |values'| && forall j | 0 <= j < |keys'| :: keys'[j] in vals && values'[j] == vals[keys'[j]]
  {
    var keys', values' := keys[..i] + keys[i + 1..], values[..i] + values[i + 1..];
    forall j | 0 <= j < |keys'|
      ensures keys'[j] in vals && values'[j] == vals[keys'[j]]
    {
      if j < i {
        assert keys'[j] == keys[j] && values'[j] == values[j];
      } else {
        assert keys'[j] == keys[j + 1] && values'[j] == values[j + 1];
      }
    }
  }

  /** What the backwards removal loop keeps: positions below `i` are still
      untouched, the rest has been filtered, and values follow their keys. */
  ghost predicate SaveLoopInv(ks: seq<SettingsId>, vals: map<SettingsId, ExtendedStorageSettings>,
                              keys: seq<SettingsId>, values: seq<ExtendedStorageSettings>, i: nat)
    requires forall k | k in ks :: k in vals
  {
    && i <= |ks|
    && keys == ks[..i] + CustomisedKeys(ks[i..], vals)
    && |values| == |keys|
    && forall j | 0 <= j < |keys| :: keys[j] in vals && values[j] == vals[keys[j]]
  }

  lemma SaveLoopStart(reg: Registry)
    ensures SaveLoopInv(reg.keys, reg.vals, reg.keys, ValuesInOrder(reg), |reg.keys|)
  {
    assert reg.keys[|reg.keys|..] == [];
  }

  /** A kept entry leaves the lists as they are. */
  lemma SaveLoopKeep(ks: seq<SettingsId>, vals: map<SettingsId, ExtendedStorageSettings>,
                     keys: seq<SettingsId>, values: seq<ExtendedStorageSettings>, i: nat)
    requires forall k | k in ks :: k in vals
    requires 0 < i && SaveLoopInv(ks, vals, keys, values, i)
    requires HasAnyCustomPriority(values[i - 1])
    ensures SaveLoopInv(ks, vals, keys, values, i - 1)
  {
    var k := i - 1;
    var before := ks[..k];
    var after := CustomisedKeys(ks[i..], vals);
    CustomisedKeysStep(ks, vals, k);
    PrefixStep(ks, i);
    assert keys[k] == ks[k];
    assert HasAnyCustomPriority(vals[ks[k]]);
    ConcatAssoc(before, [ks[k]], after);
  }

  /** A dropped entry is cut from both lists at the same position. */
  lemma SaveLoopDrop(ks: seq<SettingsId>, vals: map<SettingsId, ExtendedStorageSettings>,
                     keys: seq<SettingsId>, values: seq<ExtendedStorageSettings>, i: nat)
    requires forall k | k in ks :: k in vals
    requires 0 < i && SaveLoopInv(ks, vals, keys, values, i)
    requires !HasAnyCustomPriority(values[i - 1])
    ensures SaveLoopInv(ks, vals, keys[..i - 1] + keys[i..], values[..i - 1] + values[i..], i - 1)
  {
    var k := i - 1;
    var before := ks[..k];
    var after := CustomisedKeys(ks[i..], vals);
    CustomisedKeysStep(ks, vals, k);
    PrefixStep(ks, i);
    assert keys[k] == ks[k];
    CutBetween(keys, before, ks[k], after);
    RemoveAtKeepsAlignment(keys, values, vals, k);
  }

  lemma SaveLoopEnd(reg: Registry, keys: seq<SettingsId>, values: seq<ExtendedStorageSettings>)
    requires SaveLoopInv(reg.keys, reg.vals, keys, values, 0)
    ensures (keys, values) == SaveSnapshot(reg)
  {
    assert reg.keys[..0] == [] && reg.keys[0..] == reg.keys;
    var snapshot := SaveSnapshot(reg);
    assert keys == snapshot.0;
    assert values == snapshot.1;
  }

  /** The backwards removal loop of the save branch on two aligned lists:
      every entry without overrides is removed, the rest keep their order. */
  method RemoveUncustomised(ghost ks: seq<SettingsId>, ghost vals: map<SettingsId, ExtendedStorageSettings>,
                            keys0: seq<SettingsId>, values0: seq<ExtendedStorageSettings>)
    returns (keys: seq<SettingsId>, values: seq<ExtendedStorageSettings>)
    requires forall k | k in ks :: k in vals
    requires SaveLoopInv(ks, vals, keys0, values0, |ks|)
    ensures SaveLoopInv(ks, vals, keys, values, 0)
  {
    keys, values := keys0, values0;
    var i: nat := |keys|;
    while i > 0
      invariant SaveLoopInv(ks, vals, keys, values, i)
    {
      if HasAnyCustomPriority(values[i - 1]) {
        SaveLoopKeep(ks, vals, keys, values, i);
      } else {
        SaveLoopDrop(ks, vals, keys, values, i);
        keys := keys[..i - 1] + keys[i..];
        values := values[..i - 1] + values[i..];
      }
      i := i - 1;
    }
  }

  /** The save branch as the source runs it: copy keys and values, then walk
      the lists backwards removing every entry without overrides. */
  method Save(reg: Registry) returns (keys: seq<SettingsId>, values: seq<ExtendedStorageSettings>)
    ensures (keys, values) == SaveSnapshot(reg)
  {
    SaveLoopStart(reg);
    keys, values := RemoveUncustomised(reg.keys, reg.vals, reg.keys, ValuesInOrder(reg));
    SaveLoopEnd(reg, keys, values);
  }

  // ---------------------------------------------------------------------
  // Load
  // ---------------------------------------------------------------------

  /** The registry built from the first `n` pairs: a pair is taken only when
      both its key and its value are non-null, the value is re-attached to
      its key, and a repeated key overwrites in place. */
  function LoadPairs(keys: seq<Option<SettingsId>>, values: seq<Option<ExtendedStorageSettings>>, n: nat): (r: Registry)
    requires n <= |keys| && n <= |values|
    ensures Attached(r)
  {
    if n == 0 then Empty()
    else
      var prev := LoadPairs(keys, values, n - 1);
      if keys[n - 1].Some? && values[n - 1].Some? then
        Put(prev, keys[n - 1].value, values[n - 1].value.(baseSettings := keys[n - 1]))
      else prev
  }

  /** Every pair with a non-null key and value leaves its key loaded. */
  lemma {:induction false} LoadedKeysCoverPairs(keys: seq<Option<SettingsId>>, values: seq<Option<ExtendedStorageSettings>>, n: nat)
    requires n <= |keys| && n <= |values|
    ensures var r := LoadPairs(keys, values, n);
      forall i | 0 <= i < n && keys[i].Some? && values[i].Some? :: keys[i].value in r.vals
  {
    if n > 0 {
      LoadedKeysCoverPairs(keys, values, n - 1);
    }
  }

  /** Every loaded entry comes from some pair of the two lists, with its
      value re-attached to its key. */
  lemma {:induction false} LoadedEntriesComeFromPairs(keys: seq<Option<SettingsId>>, values: seq<Option<ExtendedStorageSettings>>, n: nat)
    requires n <= |keys| && n <= |values|
    ensures var r := LoadPairs(keys, values, n);
      forall s | s in r.vals :: exists i | 0 <= i < n ::
        keys[i] == Some(s) && values[i].Some? && r.vals[s] == values[i].value.(baseSettings := Some(s))
  {
    if n > 0 {
      LoadedEntriesComeFromPairs(keys, values, n - 1);
    }
  }

  /** A key that the `n`-th pair does not set keeps its entry. */
  lemma LoadPairsOther(keys: seq<Option<SettingsId>>, values: seq<Option<ExtendedStorageSettings>>, n: nat, k: SettingsId)
    requires 0 < n <= |keys| && n <= |values|
    requires !(keys[n - 1] == Some(k) && values[n - 1].Some?)
    ensures k in LoadPairs(keys, values, n - 1).vals ==>
      k in LoadPairs(keys, values, n).vals && LoadPairs(keys, values, n).vals[k] == LoadPairs(keys, values, n - 1).vals[k]
  {
  }

  /** A taken pair sets its key. */
  lemma LoadPairsTakes(keys: seq<Option<SettingsId>>, values: seq<Option<ExtendedStorageSettings>>, n: nat)
    requires 0 < n <= |keys| && n <= |values|
    requires keys[n - 1].Some? && values[n - 1].Some?
    ensures var r := LoadPairs(keys, values, n);
      keys[n - 1].value in r.vals && r.vals[keys[n - 1].value] == values[n - 1].value.(baseSettings := keys[n - 1])
  {
  }

  /** A key holds the value of its last taken pair. */
  lemma {:induction false} LoadPairsLastWins(keys: seq<Option<SettingsId>>, values: seq<Option<ExtendedStorageSettings>>, n: nat, i: nat)
    requires n <= |keys| && n <= |values| && i < n
    requires keys[i].Some? && values[i].Some?
    requires forall j | i < j < n :: !(keys[j] == keys[i] && values[j].Some?)
    ensures var r := LoadPairs(keys, values, n);
      keys[i].value in r.vals && r.vals[keys[i].value] == values[i].value.(baseSettings := keys[i])
  {
    if i < n - 1 {
      LoadPairsLastWins(keys, values, n - 1, i);
      LoadPairsOther(keys, values, n, keys[i].value);
    } else {
      LoadPairsTakes(keys, values, n);
    }
  }

  function Min(a: nat, b: nat): nat {
    if a <= b then a else b
  }

  /** The load branch: when either list is missing nothing changes, otherwise
      the registry is replaced wholesale by the zipped pairs. */
  function Load(reg: Registry, keys: Option<seq<Option<SettingsId>>>, values: Option<seq<Option<ExtendedStorageSettings>>>): (r: Registry)
    ensures keys.None? || values.None? ==> r == reg
    ensures keys.Some? && values.Some? ==> Attached(r)
    ensures keys.Some? && values.Some? ==>
      forall i | 0 <= i < |keys.value| && i < |values.value| && keys.value[i].Some? && values.value[i].Some? :: keys.value[i].value in r.vals
    ensures keys.Some? && values.Some? ==>
      forall s | s in r.vals :: exists i | 0 <= i < |keys.value| && i < |values.value| ::
        keys.value[i] == Some(s) && values.value[i].Some? && r.vals[s] == values.value[i].value.(baseSettings := Some(s))
  {
    if keys.None? || values.None? then reg
    else
      LoadedKeysCoverPairs(keys.value, values.value, Min(|keys.value|, |values.value|));
      LoadedEntriesComeFromPairs(keys.value, values.value, Min(|keys.value|, |values.value|));
      LoadPairs(keys.value, values.value, Min(|keys.value|, |values.value|))
  }

  /** After a load, each key holds the model of the last pair that carries
      it, re-attached to the key. */
  lemma LoadLastWins(reg: Registry, keys: seq<Option<SettingsId>>, values: seq<Option<ExtendedStorageSettings>>, i: nat)
    requires i < |keys| && i < |values|
    requires keys[i].Some? && values[i].Some?
    requires forall j | i < j < |keys| && j < |values| :: !(keys[j] == keys[i] && values[j].Some?)
    ensures var r := Load(reg, Some(keys), Some(values));
      keys[i].value in r.vals && r.vals[keys[i].value] == values[i].value.(baseSettings := keys[i])
  {
    LoadPairsLastWins(keys, values, Min(|keys|, |values|), i);
  }

  function Wrap<T>(s: seq<T>): (r: seq<Option<T>>)
    ensures |r| == |s| && forall i | 0 <= i < |s| :: r[i] == Some(s[i])
  {
    seq(|s|, i requires 0 <= i < |s| => Some(s[i]))
  }

  /** The registry restricted to its customised entries, order kept. */
  function Customised(reg: Registry): (r: Registry)
    ensures r.keys == CustomisedKeys(reg.keys, reg.vals)
    ensures forall s | s in r.vals :: s in reg.vals && r.vals[s] == reg.vals[s] && HasAnyCustomPriority(r.vals[s])
  {
    var ks := CustomisedKeys(reg.keys, reg.vals);
    RawDict(ks, map s | s in ks :: reg.vals[s])
  }

  /** Taking one more pair whose key is new appends that key. */
  lemma LoadPairsAppends(keys: seq<Option<SettingsId>>, values: seq<Option<ExtendedStorageSettings>>, n: nat)
    requires 0 < n <= |keys| && n <= |values|
    requires keys[n - 1].Some? && values[n - 1].Some?
    requires keys[n - 1].value !in LoadPairs(keys, values, n - 1).keys
    ensures LoadPairs(keys, values, n).keys == LoadPairs(keys, values, n - 1).keys + [keys[n - 1].value]
  {
    assert keys[n - 1].value !in LoadPairs(keys, values, n - 1).vals;
  }

  /** Loading the first `n` pairs of lists that wrap distinct keys rebuilds
      those keys in order. */
  lemma {:induction false} LoadPrefixKeys(ks: seq<SettingsId>, keys: seq<Option<SettingsId>>,
                                          values: seq<Option<ExtendedStorageSettings>>, n: nat)
    requires Distinct(ks) && |keys| == |ks| && |values| == |ks|
    requires forall i | 0 <= i < |ks| :: keys[i] == Some(ks[i]) && values[i].Some?
    requires n <= |ks|
    ensures LoadPairs(keys, values, n).keys == ks[..n]
  {
    if n > 0 {
      LoadPrefixKeys(ks, keys, values, n - 1);
      DistinctNotInPrefix(ks, n);
      PrefixStep(ks, n);
      LoadPairsAppends(keys, values, n);
    } else {
      assert ks[..0] == [];
    }
  }

  /** ... and each loaded key carries its original model. */
  lemma LoadPrefixValues(m: map<SettingsId, ExtendedStorageSettings>, ks: seq<SettingsId>, vs: seq<ExtendedStorageSettings>,
                         keys: seq<Option<SettingsId>>, values: seq<Option<ExtendedStorageSettings>>, n: nat)
    requires |vs| == |ks| && |keys| == |ks| && |values| == |ks|
    requires forall i | 0 <= i < |ks| :: ks[i] in m && vs[i] == m[ks[i]] && vs[i].baseSettings == Some(ks[i])
    requires forall i | 0 <= i < |ks| :: keys[i] == Some(ks[i]) && values[i] == Some(vs[i])
    requires n <= |ks|
    ensures var r := LoadPairs(keys, values, n);
      forall s | s in r.vals :: s in m && r.vals[s] == m[s]
  {
    var r := LoadPairs(keys, values, n);
    LoadedEntriesComeFromPairs(keys, values, n);
    forall s | s in r.vals
      ensures s in m && r.vals[s] == m[s]
    {
      var i :| 0 <= i < n && keys[i] == Some(s) && values[i].Some? && r.vals[s] == values[i].value.(baseSettings := Some(s));
      assert ks[i] == s && values[i].value == vs[i];
    }
  }

  /** Saving and then loading the two lists restores exactly the customised
      part of an attached registry, in the same order. */
  lemma LoadSnapshotKeys(reg: Registry)
    ensures var (ks, vs) := SaveSnapshot(reg);
            LoadPairs(Wrap(ks), Wrap(vs), |ks|).keys == ks
  {
    var (ks, vs) := SaveSnapshot(reg);
    LoadPrefixKeys(ks, Wrap(ks), Wrap(vs), |ks|);
    TakeAll(ks);
  }

  lemma LoadSnapshotValues(reg: Registry)
    requires Attached(reg)
    ensures var (ks, vs) := SaveSnapshot(reg);
            var r := LoadPairs(Wrap(ks), Wrap(vs), |ks|);
            forall s | s in r.vals :: s in reg.vals && r.vals[s] == reg.vals[s]
  {
    var (ks, vs) := SaveSnapshot(reg);
    LoadPrefixValues(reg.vals, ks, vs, Wrap(ks), Wrap(vs), |ks|);
  }

  lemma SaveLoadRoundTrip(reg: Registry, anyReg: Registry)
    requires Attached(reg)
    ensures var (ks, vs) := SaveSnapshot(reg);
            Load(anyReg, Some(Wrap(ks)), Some(Wrap(vs))) == Customised(reg)
  {
    var (ks, vs) := SaveSnapshot(reg);
    LoadSnapshotKeys(reg);
    LoadSnapshotValues(reg);
    var r := LoadPairs(Wrap(ks), Wrap(vs), |ks|);
    var c := Customised(reg);
    Extensionality(r, c);
  }

  /** Asking twice gives the same model and no second entry. */
  lemma GetIsIdempotent(reg: Registry, s: SettingsId)
    ensures var (reg1, e1) := GetExtendedSettings(reg, Some(s));
            GetExtendedSettings(reg1, Some(s)) == (reg1, e1)
  {
  }

  /** Removing twice is removing once. */
  lemma {:induction false} RemoveIsIdempotent(reg: Registry, s: Option<SettingsId>)
    ensures RemoveExtendedSettings(RemoveExtendedSettings(reg, s), s) == RemoveExtendedSettings(reg, s)
  {
    if s.Some? {
      WithoutTwice(reg.keys, {s.value});
    }
  }

  lemma {:induction false} WithoutTwice<K>(ks: seq<K>, xs: set<K>)
    ensures Without(Without(ks, xs), xs) == Without(ks, xs)
  {
    if |ks| > 0 {
      WithoutTwice(ks[1..], xs);
    }
  }

  /** After a remove, the next lookup creates a fresh model: the old weights
      do not come back. */
  lemma RemoveThenGetIsFresh(reg: Registry, s: SettingsId)
    ensures var e := GetExtendedSettings(RemoveExtendedSettings(reg, Some(s)), Some(s)).1;
            e == Some(New(Some(s))) && !HasAnyCustomPriority(e.value)
  {
  }

  // ---------------------------------------------------------------------
  // The StorageSettings.CopyFrom hook
  // ---------------------------------------------------------------------

  /** The hook as written: fetch (or create) the target's and the source's
      models, then `source.CopyTo(target)`. `CopyTo` clears the target's maps
      before reading the source's, so when both are the same object it reads
      maps it has just emptied. */
  function CopyFromHookAsWritten(enabled: bool, reg: Registry, instance: Option<SettingsId>, other: Option<SettingsId>): (r: Registry)
    ensures !enabled ==> r == reg
  {
    if !enabled then reg
    else
      var (reg1, target) := GetExtendedSettings(reg, instance);
      var (reg2, source) := GetExtendedSettings(reg1, other);
      if target.None? || source.None? then reg2
      else if instance == other then
        Put(reg2, instance.value, target.value.(itemWeights := map[], categoryWeights := map[]))
      else Put(reg2, instance.value, CopyTo(source.value, Some(target.value)).value)
  }

  /** Copying a customised storage's settings onto itself wipes its weights. */
  lemma SelfCopyWipesWeights()
    ensures var reg: Registry := RawDict([7], map[7 := ExtendedStorageSettings(Some(7), map["Steel" := 2], map[])]);
            var after := CopyFromHookAsWritten(true, reg, Some(7), Some(7));
            HasAnyCustomPriority(reg.vals[7]) && !HasAnyCustomPriority(after.vals[7])
  {
  }

  /** The hook with a self-copy treated as the no-op it should be. */
  function CopyFromHook(enabled: bool, reg: Registry, instance: Option<SettingsId>, other: Option<SettingsId>): (r: Registry)
    ensures !enabled ==> r == reg
    ensures Attached(reg) ==> Attached(r)
  {
    if !enabled then reg
    else
      var (reg1, target) := GetExtendedSettings(reg, instance);
      var (reg2, source) := GetExtendedSettings(reg1, other);
      if target.None? || source.None? || instance == other then reg2
      else Put(reg2, instance.value, CopyTo(source.value, Some(target.value)).value)
  }

  /** After the hook the target holds the source's weights and keeps its own
      attachment, whether either model existed before or not. */
  lemma CopyFromHookCopiesWeights(reg: Registry, instance: SettingsId, other: SettingsId)
    ensures var r := CopyFromHook(true, reg, Some(instance), Some(other));
      var source := GetExtendedSettings(reg, Some(other)).1.value;
      && instance in r.vals
      && r.vals[instance].itemWeights == source.itemWeights
      && r.vals[instance].categoryWeights == source.categoryWeights
      && r.vals[instance].baseSettings == GetExtendedSettings(reg, Some(instance)).1.value.baseSettings
  {
  }

  /** The hook touches no other storage's model. */
  lemma CopyFromHookTouchesOnlyTarget(enabled: bool, reg: Registry, instance: SettingsId, other: SettingsId)
    ensures var r := CopyFromHook(enabled, reg, Some(instance), Some(other));
      forall s | s in reg.vals && s != instance :: s in r.vals && r.vals[s] == reg.vals[s]
  {
  }

  // ---------------------------------------------------------------------
  // The Building_Storage.Destroy and ThingFilter.SetDisallowAll hooks
  // ---------------------------------------------------------------------

  /** A destroyed storage's model is dropped, so a storage that later gets
      the same settings starts without weights; no other model changes. */
  function DestroyHook(reg: Registry, settings: Option<SettingsId>): (r: Registry)
    ensures settings.Some? ==> GetExtendedSettings(r, settings).1 == Some(New(settings))
    ensures forall s | s in reg.vals && Some(s) != settings :: s in r.vals && r.vals[s] == reg.vals[s]
    ensures forall s | s in r.vals :: s in reg.vals
    ensures settings.Some? && settings.value in reg.vals ==> r.keys == Without(reg.keys, {settings.value})
  {
    RemoveExtendedSettings(reg, settings)
  }

  /** "Clear all" in a filter also clears the weights of the model the
      filter panel is showing, if any; `current` is that model's key. A key
      whose model is no longer registered leaves the registry as it is. */
  function SetDisallowAllHook(reg: Registry, current: Option<SettingsId>): (r: Registry)
    ensures r.keys == reg.keys
    ensures current.Some? && current.value in reg.vals ==>
      && !HasAnyCustomPriority(r.vals[current.value])
      && r.vals[current.value].baseSettings == reg.vals[current.value].baseSettings
    ensures forall s | s in reg.vals && Some(s) != current :: r.vals[s] == reg.vals[s]
    ensures Attached(reg) ==> Attached(r)
  {
    if current.Some? && current.value in reg.vals then
      Update(reg, current.value, ResetAllPriorities(reg.vals[current.value]))
    else reg
  }
}
