/** The named presets of the transport-pod loader. Each preset is kept
    three ways: as persisted (thing names and counts), as resolved against
    the loaded thing definitions (filled lazily on first use), and with the
    time it was last saved or used. Saving and deleting write the persisted
    form back to the mod settings.

    The definition database is a lookup from names to definitions; the clock
    is an input. */
module PresetClipboard {
  import opened Optional
  import opened OrderedDict
  import opened Seqs
  import opened ExtendedSettings
  import opened LoadoutClipboard

  /** A persisted preset line: a thing's definition name and a count. */
  datatype PresetItem = PresetItem(defName: string, count: int)

  /** A persisted preset; its item list may be missing. */
  datatype PresetRecord = PresetRecord(name: string, items: Option<seq<PresetItem>>)

  /** The definition database's silent lookup by name. */
  type DefLookup = string -> Option<ThingDef>

  /** `raw` and `times` keep their dictionaries' enumeration order: the
      persisted list follows `raw`'s, and presets used at the same tick are
      listed in `times`' order. */
  datatype Store = Store(
    raw: Dict<string, seq<PresetItem>>,
    resolved: map<string, seq<SavedItem>>,
    times: Dict<string, nat>)

  function EmptyStore(): (s: Store)
    ensures s.raw.vals == map[] && s.resolved == map[] && s.times.vals == map[]
  {
    Store(Empty(), map[], Empty())
  }

  /** Every persisted preset has a time and nothing else has; only persisted
      presets are resolved. */
  ghost predicate Consistent(s: Store) {
    && s.raw.vals.Keys == s.times.vals.Keys
    && s.resolved.Keys <= s.raw.vals.Keys
  }

  // ---------------------------------------------------------------------
  // Loading and writing back the persisted form
  // ---------------------------------------------------------------------

  function Names(recs: seq<PresetRecord>): (r: seq<string>)
    ensures |r| == |recs| && forall i | 0 <= i < |r| :: r[i] == recs[i].name
  {
    seq(|recs|, i requires 0 <= i < |recs| => recs[i].name)
  }

  /** Each record's item list, an empty one where it is missing. */
  function ItemLists(recs: seq<PresetRecord>): (r: seq<seq<PresetItem>>)
    ensures |r| == |recs| && forall i | 0 <= i < |r| :: r[i] == recs[i].items.GetOr([])
  {
    seq(|recs|, i requires 0 <= i < |recs| => recs[i].items.GetOr([]))
  }

  /** The clock is read once per record: `clock(i)` is the time read while
      loading record `i`. */
  function Stamps(n: nat, clock: nat -> nat): (r: seq<nat>)
    ensures |r| == n && forall i | 0 <= i < n :: r[i] == clock(i)
  {
    seq(n, i requires 0 <= i < n => clock(i))
  }

  /** Replaces the whole store with the persisted presets: each record's
      name gets its item list and the time read for it, in order, so a later
      record with the same name overwrites an earlier one. A missing settings
      object or a missing list leaves the store empty. */
  function LoadFromSettings(presets: Option<seq<PresetRecord>>, clock: nat -> nat): (r: Store)
    ensures presets.None? ==> r == EmptyStore()
    ensures r.resolved == map[]
  {
    if presets.None? then EmptyStore()
    else
      var recs := presets.value;
      Store(PutEach(Names(recs), ItemLists(recs), |recs|), map[],
            PutEach(Names(recs), Stamps(|recs|, clock), |recs|))
  }

  lemma LoadedStoreIsConsistent(presets: Option<seq<PresetRecord>>, clock: nat -> nat)
    ensures Consistent(LoadFromSettings(presets, clock))
  {
    if presets.Some? {
      var recs := presets.value;
      PutEachKeys(Names(recs), ItemLists(recs), Stamps(|recs|, clock), |recs|);
    }
  }

  /** A loaded store persists exactly the names of the records. */
  lemma LoadedNames(recs: seq<PresetRecord>, clock: nat -> nat, name: string)
    ensures name in LoadFromSettings(Some(recs), clock).raw.vals <==> exists i | 0 <= i < |recs| :: recs[i].name == name
  {
    var names := Names(recs);
    PutEachHas(names, ItemLists(recs), |recs|, name);
    assert names[..|recs|] == names;
    if name in names {
      var i :| 0 <= i < |names| && names[i] == name;
      assert recs[i].name == name;
    }
  }

  /** Each name holds the items of the last record of that name. */
  lemma LoadedLastWins(recs: seq<PresetRecord>, clock: nat -> nat, i: nat)
    requires i < |recs|
    requires forall j | i < j < |recs| :: recs[j].name != recs[i].name
    ensures recs[i].name in LoadFromSettings(Some(recs), clock).raw.vals
    ensures LoadFromSettings(Some(recs), clock).raw.vals[recs[i].name] == recs[i].items.GetOr([])
  {
    PutEachLastWins(Names(recs), ItemLists(recs), |recs|, i);
  }

  /** Each name is stamped with the time read for its last record. */
  lemma LoadedTimes(recs: seq<PresetRecord>, clock: nat -> nat, i: nat)
    requires i < |recs|
    requires forall j | i < j < |recs| :: recs[j].name != recs[i].name
    ensures recs[i].name in LoadFromSettings(Some(recs), clock).times.vals
    ensures LoadFromSettings(Some(recs), clock).times.vals[recs[i].name] == clock(i)
  {
    PutEachLastWins(Names(recs), Stamps(|recs|, clock), |recs|, i);
  }

  /** What is written to the mod settings: one record per persisted preset,
      in enumeration order. */
  function Snapshot(s: Store): (r: seq<PresetRecord>)
    ensures |r| == |s.raw.keys|
    ensures forall i | 0 <= i < |r| :: r[i] == PresetRecord(s.raw.keys[i], Some(s.raw.vals[s.raw.keys[i]]))
  {
    seq(|s.raw.keys|, i requires 0 <= i < |s.raw.keys| => PresetRecord(s.raw.keys[i], Some(s.raw.vals[s.raw.keys[i]])))
  }

  /** Writing the presets and reading them back restores the persisted form
      exactly, in the same order. */
  lemma SnapshotRoundTrip(s: Store, clock: nat -> nat)
    ensures LoadFromSettings(Some(Snapshot(s)), clock).raw == s.raw
  {
    var recs := Snapshot(s);
    assert Names(recs) == s.raw.keys;
    PutEachRebuilds(s.raw, ItemLists(recs));
  }

  // ---------------------------------------------------------------------
  // Resolution against the definition database
  // ---------------------------------------------------------------------

  /** One persisted line as a saved item, or nothing when its definition
      is not loaded. */
  function ResolveLine(d: PresetItem, lookup: DefLookup): (r: seq<SavedItem>)
    ensures |r| <= 1
  {
    match lookup(d.defName)
    case Some(def) => [SavedItem(def, d.count)]
    case None => []
  }

  /** The persisted lines whose names resolve, as saved items, in order;
      lines whose definition is gone are dropped. */
  function ResolveItems(dtos: seq<PresetItem>, lookup: DefLookup): (r: seq<SavedItem>)
    ensures |r| <= |dtos|
  {
    if |dtos| == 0 then []
    else ResolveItems(dtos[..|dtos| - 1], lookup) + ResolveLine(dtos[|dtos| - 1], lookup)
  }

  /** Resolution works line by line: resolving two lists one after the other
      is resolving their concatenation. */
  lemma {:induction false} ResolveAppend(a: seq<PresetItem>, b: seq<PresetItem>, lookup: DefLookup)
    ensures ResolveItems(a + b, lookup) == ResolveItems(a, lookup) + ResolveItems(b, lookup)
  {
    if |b| == 0 {
      assert a + b == a;
    } else {
      var b0 := b[..|b| - 1];
      var line := ResolveLine(b[|b| - 1], lookup);
      ResolveAppend(a, b0, lookup);
      assert (a + b)[..|a + b| - 1] == a + b0;
      assert (a + b)[|a + b| - 1] == b[|b| - 1];
      ConcatAssoc(ResolveItems(a, lookup), ResolveItems(b0, lookup), line);
    }
  }

  /** Every resolved item comes from a line whose name resolves to its
      definition, with the line's count. */
  lemma {:induction false} ResolvedComeFromLines(dtos: seq<PresetItem>, lookup: DefLookup)
    ensures forall x | x in ResolveItems(dtos, lookup) ::
      exists d | d in dtos :: lookup(d.defName) == Some(x.def) && d.count == x.count
  {
    if |dtos| > 0 {
      var init := dtos[..|dtos| - 1];
      ResolvedComeFromLines(init, lookup);
      forall x | x in ResolveItems(dtos, lookup)
        ensures exists d | d in dtos :: lookup(d.defName) == Some(x.def) && d.count == x.count
      {
        if x in ResolveItems(init, lookup) {
          var d :| d in init && lookup(d.defName) == Some(x.def) && d.count == x.count;
          assert d in dtos;
        } else {
          assert dtos[|dtos| - 1] in dtos;
        }
      }
    }
  }

  /** The persisted form of a list of items. */
  function ToLines(items: seq<SavedItem>): (r: seq<PresetItem>)
    ensures |r| == |items|
    ensures forall i | 0 <= i < |r| :: r[i].defName == items[i].def.defName && r[i].count == items[i].count
  {
    seq(|items|, i requires 0 <= i < |items| => PresetItem(items[i].def.defName, items[i].count))
  }

  /** The definition database still knows every item's definition by its
      name. */
  ghost predicate AllKnown(items: seq<SavedItem>, lookup: DefLookup) {
    forall i | 0 <= i < |items| :: lookup(items[i].def.defName) == Some(items[i].def)
  }

  /** Persisting items and resolving them again gives the items back as long
      as their definitions are still loaded. */
  lemma {:induction false} ResolveRoundTrip(items: seq<SavedItem>, lookup: DefLookup)
    requires AllKnown(items, lookup)
    ensures ResolveItems(ToLines(items), lookup) == items
  {
    if |items| > 0 {
      var init := items[..|items| - 1];
      assert AllKnown(init, lookup);
      ResolveRoundTrip(init, lookup);
      assert ToLines(items)[..|items| - 1] == ToLines(init);
      PrefixStep(items, |items|);
      TakeAll(items);
    }
  }

  /** Resolves a preset the first time it is asked for: a preset already
      resolved is kept as is; otherwise its persisted lines (none when it is
      not persisted) are resolved and remembered. */
  function EnsureResolved(s: Store, name: string, lookup: DefLookup): (r: Store)
    ensures r.raw == s.raw && r.times == s.times
    ensures name in r.resolved
    ensures name in s.resolved ==> r == s
    ensures name !in s.resolved ==>
      r.resolved == s.resolved[name := ResolveItems(if name in s.raw.vals then s.raw.vals[name] else [], lookup)]
  {
    if name in s.resolved then s
    else
      var lines := if name in s.raw.vals then s.raw.vals[name] else [];
      s.(resolved := s.resolved[name := ResolveItems(lines, lookup)])
  }

  // ---------------------------------------------------------------------
  // Saving, getting, deleting
  // ---------------------------------------------------------------------

  /** Saves a copy of `items` under `name`, both resolved and persisted, and
      stamps it with `now`. An empty name or a missing list is a no-op. */
  function SavePreset(s: Store, name: string, items: Option<seq<SavedItem>>, now: nat): (r: Store)
    ensures name == [] || items.None? ==> r == s
    ensures name != [] && items.Some? ==>
      && name in r.resolved && r.resolved[name] == items.value
      && name in r.raw.vals && r.raw.vals[name] == ToLines(items.value)
      && name in r.times.vals && r.times.vals[name] == now
    ensures name != [] && items.Some? ==>
      && r.raw.keys == (if name in s.raw.vals then s.raw.keys else s.raw.keys + [name])
      && r.times.keys == (if name in s.times.vals then s.times.keys else s.times.keys + [name])
    ensures forall other | other != name ::
      && (other in r.resolved <==> other in s.resolved)
      && (other in r.resolved ==> r.resolved[other] == s.resolved[other])
      && (other in r.raw.vals <==> other in s.raw.vals)
      && (other in r.raw.vals ==> r.raw.vals[other] == s.raw.vals[other])
      && (other in r.times.vals <==> other in s.times.vals)
      && (other in r.times.vals ==> r.times.vals[other] == s.times.vals[other])
  {
    if name == [] || items.None? then s
    else
      Store(
        Put(s.raw, name, ToLines(items.value)),
        s.resolved[name := items.value],
        Put(s.times, name, now))
  }

  datatype PresetFetch = PresetFetch(store: Store, items: seq<SavedItem>)

  /** A copy of the named preset, resolving it first if needed and stamping
      it as used now; an empty or unknown name gives an empty list and
      changes nothing. */
  function GetPreset(s: Store, name: string, lookup: DefLookup, now: nat): (r: PresetFetch)
    ensures name == [] || name !in s.raw.vals ==> r == PresetFetch(s, [])
    ensures name != [] && name in s.raw.vals && name in s.resolved ==> r.items == s.resolved[name]
    ensures name != [] && name in s.raw.vals && name !in s.resolved ==> r.items == ResolveItems(s.raw.vals[name], lookup)
    ensures name != [] && name in s.raw.vals ==>
      && r.store.raw == s.raw
      && r.store.resolved == s.resolved[name := r.items]
      && r.store.times.vals == s.times.vals[name := now]
      && r.store.times.keys == (if name in s.times.vals then s.times.keys else s.times.keys + [name])
  {
    if name == [] then PresetFetch(s, [])
    else if name in s.raw.vals then
      var e := EnsureResolved(s, name, lookup);
      PresetFetch(e.(times := Put(e.times, name, now)), e.resolved[name])
    else PresetFetch(s, [])
  }

  /** A saved preset is read back as saved. */
  lemma SaveThenGetPreset(s: Store, name: string, items: seq<SavedItem>, lookup: DefLookup, now: nat, later: nat)
    requires name != []
    ensures GetPreset(SavePreset(s, name, Some(items), now), name, lookup, later).items == items
  {
  }

  /** A saved preset survives writing the settings and loading them again:
      it comes back with the saved items as long as their definitions are
      still loaded. */
  lemma PresetSurvivesReload(s: Store, name: string, items: seq<SavedItem>, lookup: DefLookup, now: nat,
                             clock: nat -> nat, later: nat)
    requires name != [] && AllKnown(items, lookup)
    ensures var saved := SavePreset(s, name, Some(items), now);
      GetPreset(LoadFromSettings(Some(Snapshot(saved)), clock), name, lookup, later).items == items
  {
    var saved := SavePreset(s, name, Some(items), now);
    SnapshotRoundTrip(saved, clock);
    ResolveRoundTrip(items, lookup);
  }

  /** Forgets the named preset everywhere; an empty name is a no-op. */
  function DeletePreset(s: Store, name: string): (r: Store)
    ensures name == [] ==> r == s
    ensures name != [] ==> name !in r.raw.vals && name !in r.resolved && name !in r.times.vals
    ensures name != [] ==> r.raw.keys == Without(s.raw.keys, {name}) && r.times.keys == Without(s.times.keys, {name})
    ensures forall other | other != name ::
      && (other in r.raw.vals <==> other in s.raw.vals)
      && (other in r.raw.vals ==> r.raw.vals[other] == s.raw.vals[other])
      && (other in r.resolved <==> other in s.resolved)
      && (other in r.resolved ==> r.resolved[other] == s.resolved[other])
      && (other in r.times.vals <==> other in s.times.vals)
      && (other in r.times.vals ==> r.times.vals[other] == s.times.vals[other])
  {
    if name == [] then s
    else Store(Remove(s.raw, name), s.resolved - {name}, Remove(s.times, name))
  }

  /** There is at least one preset, persisted or resolved. */
  predicate HasAny(s: Store) {
    |s.raw.vals| > 0 || |s.resolved| > 0
  }

  // ---------------------------------------------------------------------
  // Listing by recency
  // ---------------------------------------------------------------------

  function TimeOf(times: map<string, nat>, name: string): nat {
    if name in times then times[name] else 0
  }

  /** Latest first. */
  ghost predicate ByRecency(names: seq<string>, times: map<string, nat>) {
    forall i, j | 0 <= i < j < |names| :: TimeOf(times, names[i]) >= TimeOf(times, names[j])
  }

  /** The names stamped exactly `t`, in their order in `names`. */
  function StampedAt(names: seq<string>, times: map<string, nat>, t: nat): (r: seq<string>)
    ensures |r| <= |names|
  {
    if |names| == 0 then []
    else StampedOne(names[0], times, t) + StampedAt(names[1..], times, t)
  }

  function StampedOne(name: string, times: map<string, nat>, t: nat): (r: seq<string>)
    ensures r == [] || r == [name]
  {
    if TimeOf(times, name) == t then [name] else []
  }

  /** Inserts a name after every name stamped no earlier than it. */
  function Insert(x: string, names: seq<string>, times: map<string, nat>): (r: seq<string>)
    ensures |r| == |names| + 1
  {
    if |names| == 0 then [x]
    else if TimeOf(times, x) > TimeOf(times, names[0]) then [x] + names
    else [names[0]] + Insert(x, names[1..], times)
  }

  /** A stable sort of the names by time, latest first. */
  function SortByRecency(names: seq<string>, times: map<string, nat>): (r: seq<string>)
    ensures |r| == |names|
  {
    if |names| == 0 then []
    else Insert(names[|names| - 1], SortByRecency(names[..|names| - 1], times), times)
  }

  lemma {:induction false} InsertIsPermutation(x: string, names: seq<string>, times: map<string, nat>)
    ensures multiset(Insert(x, names, times)) == multiset(names) + multiset{x}
  {
    if |names| > 0 && TimeOf(times, x) <= TimeOf(times, names[0]) {
      InsertIsPermutation(x, names[1..], times);
      assert names == [names[0]] + names[1..];
    }
  }

  /** The sort only reorders. */
  lemma {:induction false} SortIsPermutation(names: seq<string>, times: map<string, nat>)
    ensures multiset(SortByRecency(names, times)) == multiset(names)
  {
    if |names| > 0 {
      var init := names[..|names| - 1];
      SortIsPermutation(init, times);
      InsertIsPermutation(names[|names| - 1], SortByRecency(init, times), times);
      assert names == init + [names[|names| - 1]];
    }
  }

  /** No name in the list is stamped later than `b`. */
  ghost predicate NoneLaterThan(names: seq<string>, times: map<string, nat>, b: nat) {
    forall i | 0 <= i < |names| :: TimeOf(times, names[i]) <= b
  }

  /** The tail of a sorted list is sorted, and its head bounds it. */
  lemma SortedTail(names: seq<string>, times: map<string, nat>)
    requires ByRecency(names, times) && |names| > 0
    ensures ByRecency(names[1..], times)
    ensures NoneLaterThan(names, times, TimeOf(times, names[0]))
  {
    forall i, j | 0 <= i < j < |names[1..]|
      ensures TimeOf(times, names[1..][i]) >= TimeOf(times, names[1..][j])
    {
      assert names[1..][i] == names[i + 1] && names[1..][j] == names[j + 1];
    }
    forall i | 0 < i < |names|
      ensures TimeOf(times, names[i]) <= TimeOf(times, names[0])
    {
    }
  }

  /** A name no earlier than every name of a sorted list may go in front. */
  lemma SortedCons(h: string, rest: seq<string>, times: map<string, nat>)
    requires ByRecency(rest, times) && NoneLaterThan(rest, times, TimeOf(times, h))
    ensures ByRecency([h] + rest, times)
  {
    var r := [h] + rest;
    forall i, j | 0 <= i < j < |r|
      ensures TimeOf(times, r[i]) >= TimeOf(times, r[j])
    {
      assert r[j] == rest[j - 1];
      if i > 0 {
        assert r[i] == rest[i - 1];
      }
    }
  }

  /** Inserting a name no later than `b` into a list with no name later than
      `b` keeps that bound. */
  lemma {:induction false} InsertKeepsBound(x: string, names: seq<string>, times: map<string, nat>, b: nat)
    requires TimeOf(times, x) <= b && NoneLaterThan(names, times, b)
    ensures NoneLaterThan(Insert(x, names, times), times, b)
  {
    if |names| > 0 && TimeOf(times, x) <= TimeOf(times, names[0]) {
      assert NoneLaterThan(names[1..], times, b) by {
        forall i | 0 <= i < |names[1..]|
          ensures TimeOf(times, names[1..][i]) <= b
        {
          assert names[1..][i] == names[i + 1];
        }
      }
      InsertKeepsBound(x, names[1..], times, b);
      var rest := Insert(x, names[1..], times);
      forall i | 0 < i < |rest| + 1
        ensures TimeOf(times, ([names[0]] + rest)[i]) <= b
      {
        assert ([names[0]] + rest)[i] == rest[i - 1];
      }
    }
  }

  lemma {:induction false} InsertKeepsOrder(x: string, names: seq<string>, times: map<string, nat>)
    requires ByRecency(names, times)
    ensures ByRecency(Insert(x, names, times), times)
  {
    if |names| == 0 {
    } else if TimeOf(times, x) > TimeOf(times, names[0]) {
      SortedTail(names, times);
      SortedCons(x, names, times);
    } else {
      SortedTail(names, times);
      InsertKeepsOrder(x, names[1..], times);
      var b := TimeOf(times, names[0]);
      assert NoneLaterThan(names[1..], times, b) by {
        forall i | 0 <= i < |names[1..]|
          ensures TimeOf(times, names[1..][i]) <= b
        {
          assert names[1..][i] == names[i + 1];
        }
      }
      InsertKeepsBound(x, names[1..], times, b);
      SortedCons(names[0], Insert(x, names[1..], times), times);
    }
  }

  lemma {:induction false} SortIsByRecency(names: seq<string>, times: map<string, nat>)
    ensures ByRecency(SortByRecency(names, times), times)
  {
    if |names| > 0 {
      SortIsByRecency(names[..|names| - 1], times);
      InsertKeepsOrder(names[|names| - 1], SortByRecency(names[..|names| - 1], times), times);
    }
  }

  lemma {:induction false} StampedAtAppend(a: seq<string>, b: seq<string>, times: map<string, nat>, t: nat)
    ensures StampedAt(a + b, times, t) == StampedAt(a, times, t) + StampedAt(b, times, t)
  {
    if |a| > 0 {
      assert (a + b)[1..] == a[1..] + b;
      assert (a + b)[0] == a[0];
      StampedAtAppend(a[1..], b, times, t);
      ConcatAssoc(StampedOne(a[0], times, t), StampedAt(a[1..], times, t), StampedAt(b, times, t));
    } else {
      assert a + b == b;
    }
  }

  /** In a list sorted latest first whose head is earlier than `t`, nothing
      is stamped `t`. */
  lemma {:induction false} NoneStampedLater(names: seq<string>, times: map<string, nat>, t: nat)
    requires ByRecency(names, times)
    requires |names| > 0 ==> TimeOf(times, names[0]) < t
    ensures StampedAt(names, times, t) == []
  {
    if |names| > 0 {
      SortedTail(names, times);
      if |names| > 1 {
        assert TimeOf(times, names[1]) <= TimeOf(times, names[0]);
      }
      NoneStampedLater(names[1..], times, t);
    }
  }

  /** Inserting into a sorted list puts the new name after every name with
      the same stamp. */
  lemma {:induction false} InsertIsStable(x: string, names: seq<string>, times: map<string, nat>, t: nat)
    requires ByRecency(names, times)
    ensures StampedAt(Insert(x, names, times), times, t) == StampedAt(names, times, t) + StampedAt([x], times, t)
  {
    if |names| == 0 {
    } else if TimeOf(times, x) > TimeOf(times, names[0]) {
      StampedAtAppend([x], names, times, t);
      if TimeOf(times, x) == t {
        NoneStampedLater(names, times, t);
      }
    } else {
      SortedTail(names, times);
      InsertIsStable(x, names[1..], times, t);
      ConcatAssoc(StampedOne(names[0], times, t), StampedAt(names[1..], times, t), StampedAt([x], times, t));
    }
  }

  /** The sort is stable: the names with any one stamp keep their relative
      order. */
  lemma {:induction false} SortIsStable(names: seq<string>, times: map<string, nat>, t: nat)
    ensures StampedAt(SortByRecency(names, times), times, t) == StampedAt(names, times, t)
  {
    if |names| > 0 {
      var init := names[..|names| - 1];
      var x := names[|names| - 1];
      SortIsStable(init, times, t);
      SortIsByRecency(init, times);
      InsertIsStable(x, SortByRecency(init, times), times, t);
      assert names == init + [x];
      StampedAtAppend(init, [x], times, t);
    }
  }

  /** The preset names, latest used first; names used at the same tick keep
      their enumeration order. */
  function GetPresetNames(s: Store): (r: seq<string>)
    ensures |r| == |s.times.keys|
  {
    SortByRecency(s.times.keys, s.times.vals)
  }

  /** The listing holds every timed preset once, is ordered latest first,
      and keeps the enumeration order among equal times. */
  lemma PresetNamesAreByRecency(s: Store, t: nat)
    ensures multiset(GetPresetNames(s)) == multiset(s.times.keys)
    ensures forall name :: name in GetPresetNames(s) <==> name in s.times.vals
    ensures ByRecency(GetPresetNames(s), s.times.vals)
    ensures StampedAt(GetPresetNames(s), s.times.vals, t) == StampedAt(s.times.keys, s.times.vals, t)
  {
    var r := GetPresetNames(s);
    SortIsPermutation(s.times.keys, s.times.vals);
    forall name
      ensures name in r <==> name in s.times.vals
    {
      assert name in r <==> name in multiset(r);
      assert name in s.times.keys <==> name in multiset(s.times.keys);
    }
    SortIsByRecency(s.times.keys, s.times.vals);
    SortIsStable(s.times.keys, s.times.vals, t);
  }

  /** In a consistent store the listing is non-empty exactly when there is
      some preset. */
  lemma HasAnyIffListed(s: Store)
    requires Consistent(s)
    ensures HasAny(s) <==> |GetPresetNames(s)| > 0
  {
    var r := GetPresetNames(s);
    if |s.raw.vals| > 0 {
      var k :| k in s.raw.vals;
      assert k in s.times.keys;
    }
    if |s.resolved| > 0 {
      var k :| k in s.resolved;
      assert k in s.times.keys;
    }
    if |s.times.keys| > 0 {
      assert s.times.keys[0] in s.raw.vals;
    }
  }

  // ---------------------------------------------------------------------
  // The invariant
  // ---------------------------------------------------------------------

  lemma SaveKeepsConsistent(s: Store, name: string, items: Option<seq<SavedItem>>, now: nat)
    requires Consistent(s)
    ensures Consistent(SavePreset(s, name, items, now))
  {
  }

  lemma GetKeepsConsistent(s: Store, name: string, lookup: DefLookup, now: nat)
    requires Consistent(s)
    ensures Consistent(GetPreset(s, name, lookup, now).store)
  {
  }

  lemma DeleteKeepsConsistent(s: Store, name: string)
    requires Consistent(s)
    ensures Consistent(DeletePreset(s, name))
  {
  }
}
