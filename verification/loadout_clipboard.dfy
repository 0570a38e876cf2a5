/** The loadout clipboard of the transport-pod loader: the last item list
    loaded into each group of pods on each map, a global copy of the list
    saved last, and the time each group's list was last used.

    Lookups fall back from the exact (map, group) key to the most recently
    used list on the same map and then to the global copy. Lists older than
    thirty days are evicted whenever a list is saved. Times are clock ticks
    (100 ns), with 0 standing for the earliest representable time; the clock
    is an input of every operation that reads it. */
module LoadoutClipboard {
  import opened Optional
  import opened OrderedDict
  import opened Argmax
  import ExtendedSettings

  datatype SavedItem = SavedItem(def: ExtendedSettings.ThingDef, count: int)

  /** A group of pods on a map. */
  datatype LoadoutKey = LoadoutKey(mapId: int, groupId: int)

  /** The key's own equality test. */
  predicate KeyEquals(a: LoadoutKey, b: LoadoutKey) {
    a.mapId == b.mapId && a.groupId == b.groupId
  }

  /** Two keys are the same key exactly when both ids agree. */
  lemma KeyEqualsIsIdentity(a: LoadoutKey, b: LoadoutKey)
    ensures KeyEquals(a, b) <==> a == b
  {
  }

  const TicksPerDay: nat := 864_000_000_000

  /** How long a list may stay unused before it is evicted. */
  const Retention: nat := 30 * TicksPerDay

  /** `loadouts` keeps the enumeration order of the underlying dictionary;
      the same-map fallback depends on it when two lists were last used at
      the same tick. */
  datatype Clipboard = Clipboard(
    loadouts: Dict<LoadoutKey, seq<SavedItem>>,
    lastGlobal: seq<SavedItem>,
    lastGlobalTime: nat,
    lastUsed: map<LoadoutKey, nat>)

  function Initial(): (c: Clipboard)
    ensures c.loadouts.vals == map[] && c.lastUsed == map[] && c.lastGlobal == []
  {
    Clipboard(Empty(), [], 0, map[])
  }

  /** Every stored list has a last-used time and every time belongs to a
      stored list. */
  ghost predicate Synced(c: Clipboard) {
    c.loadouts.vals.Keys == c.lastUsed.Keys
  }

  // ---------------------------------------------------------------------
  // Eviction
  // ---------------------------------------------------------------------

  /** The key was last used more than thirty days before `now`. Before the
      clock has run thirty days the cut-off would lie before the earliest
      representable time; computing it fails, the failure is swallowed and
      nothing is evicted, which is what a negative cut-off gives here. */
  predicate Expired(lastUsed: map<LoadoutKey, nat>, k: LoadoutKey, now: nat) {
    k in lastUsed && lastUsed[k] < now - Retention
  }

  function ExpiredKeys(lastUsed: map<LoadoutKey, nat>, now: nat): (r: set<LoadoutKey>)
    ensures forall k :: k in r <==> Expired(lastUsed, k, now)
  {
    set k | k in lastUsed && lastUsed[k] < now - Retention
  }

  /** Drops every list whose last use is older than the retention period,
      from both dictionaries; the global copy stays. */
  function CleanOldLoadouts(c: Clipboard, now: nat): (r: Clipboard)
    ensures r.lastGlobal == c.lastGlobal && r.lastGlobalTime == c.lastGlobalTime
    ensures forall k :: k in r.lastUsed <==> k in c.lastUsed && !Expired(c.lastUsed, k, now)
    ensures forall k :: k in r.loadouts.vals <==> k in c.loadouts.vals && !Expired(c.lastUsed, k, now)
    ensures forall k | k in r.lastUsed :: r.lastUsed[k] == c.lastUsed[k]
    ensures forall k | k in r.loadouts.vals :: r.loadouts.vals[k] == c.loadouts.vals[k]
    ensures r.loadouts.keys == Without(c.loadouts.keys, ExpiredKeys(c.lastUsed, now))
  {
    var gone := ExpiredKeys(c.lastUsed, now);
    c.(loadouts := RemoveAll(c.loadouts, gone), lastUsed := c.lastUsed - gone)
  }

  /** Evicting twice at the same time evicts nothing more. */
  lemma CleanIsIdempotent(c: Clipboard, now: nat)
    ensures CleanOldLoadouts(CleanOldLoadouts(c, now), now) == CleanOldLoadouts(c, now)
  {
    var once := CleanOldLoadouts(c, now);
    assert ExpiredKeys(once.lastUsed, now) == {};
    CleanNothing(once, now);
  }

  lemma CleanNothing(c: Clipboard, now: nat)
    requires ExpiredKeys(c.lastUsed, now) == {}
    ensures CleanOldLoadouts(c, now) == c
  {
    WithoutNothing(c.loadouts.keys);
    assert c.loadouts.vals - {} == c.loadouts.vals;
    assert c.lastUsed - {} == c.lastUsed;
  }

  // ---------------------------------------------------------------------
  // Saving
  // ---------------------------------------------------------------------

  /** Stores a copy of `items` under the group's key and as the global copy,
      stamps both with `now`, then evicts old lists. A missing map or a
      missing list changes nothing. */
  function SaveLoadout(c: Clipboard, mapOf: Option<int>, groupId: int, items: Option<seq<SavedItem>>, now: nat): (r: Clipboard)
    ensures mapOf.None? || items.None? ==> r == c
    ensures mapOf.Some? && items.Some? ==>
      var k := LoadoutKey(mapOf.value, groupId);
      && k in r.loadouts.vals && r.loadouts.vals[k] == items.value
      && k in r.lastUsed && r.lastUsed[k] == now
      && r.lastGlobal == items.value && r.lastGlobalTime == now
    ensures mapOf.Some? && items.Some? ==>
      var k := LoadoutKey(mapOf.value, groupId);
      r.loadouts.keys == Without(if k in c.loadouts.vals then c.loadouts.keys else c.loadouts.keys + [k],
                                 ExpiredKeys(c.lastUsed, now) - {k})
    ensures mapOf.Some? && items.Some? ==>
      forall other | other != LoadoutKey(mapOf.value, groupId) ::
        && (other in r.lastUsed <==> other in c.lastUsed && !Expired(c.lastUsed, other, now))
        && (other in r.lastUsed ==> r.lastUsed[other] == c.lastUsed[other])
  {
    if mapOf.None? || items.None? then c
    else
      var k := LoadoutKey(mapOf.value, groupId);
      var saved := c.(
        loadouts := Put(c.loadouts, k, items.value),
        lastUsed := c.lastUsed[k := now],
        lastGlobal := items.value,
        lastGlobalTime := now);
      assert !Expired(saved.lastUsed, k, now);
      assert ExpiredKeys(saved.lastUsed, now) == ExpiredKeys(c.lastUsed, now) - {k};
      CleanOldLoadouts(saved, now)
  }

  /** Besides the saved key, a save keeps exactly the lists that are not
      expired, unchanged. */
  lemma SaveKeepsRecentLists(c: Clipboard, m: int, groupId: int, items: seq<SavedItem>, now: nat, k: LoadoutKey)
    requires k != LoadoutKey(m, groupId)
    ensures var r := SaveLoadout(c, Some(m), groupId, Some(items), now);
      && (k in r.loadouts.vals <==> k in c.loadouts.vals && !Expired(c.lastUsed, k, now))
      && (k in r.loadouts.vals ==> r.loadouts.vals[k] == c.loadouts.vals[k])
  {
    var saved := c.(
      loadouts := Put(c.loadouts, LoadoutKey(m, groupId), items),
      lastUsed := c.lastUsed[LoadoutKey(m, groupId) := now],
      lastGlobal := items,
      lastGlobalTime := now);
    assert Expired(saved.lastUsed, k, now) == Expired(c.lastUsed, k, now);
  }

  // ---------------------------------------------------------------------
  // Looking up
  // ---------------------------------------------------------------------

  /** The time a key was last used, the earliest time when unknown. */
  function LastUsedOf(c: Clipboard, k: LoadoutKey): nat {
    if k in c.lastUsed then c.lastUsed[k] else 0
  }

  /** Which stored keys, in enumeration order, lie on the map. */
  function OnMap(c: Clipboard, mapId: int): (r: seq<bool>)
    ensures |r| == |c.loadouts.keys|
    ensures forall j | 0 <= j < |r| :: r[j] == (c.loadouts.keys[j].mapId == mapId)
  {
    seq(|c.loadouts.keys|, j requires 0 <= j < |c.loadouts.keys| => c.loadouts.keys[j].mapId == mapId)
  }

  /** Stored keys rank by their last-used time alone. */
  function Recency(c: Clipboard): (r: seq<Rank>)
    ensures |r| == |c.loadouts.keys|
    ensures forall j | 0 <= j < |r| :: r[j] == Rank(LastUsedOf(c, c.loadouts.keys[j]), 0)
  {
    seq(|c.loadouts.keys|, j requires 0 <= j < |c.loadouts.keys| => Rank(LastUsedOf(c, c.loadouts.keys[j]), 0))
  }

  /** The first entry of the map's lists sorted by last use, latest first,
      with a stable sort: the earliest in enumeration order among the
      latest. */
  function MostRecentOnMap(c: Clipboard, mapId: int): (r: Option<nat>)
    ensures r.Some? ==> r.value < |c.loadouts.keys| && c.loadouts.keys[r.value].mapId == mapId
  {
    Scan(OnMap(c, mapId), Recency(c), |c.loadouts.keys|)
  }

  /** Entry `i` is the one the same-map fallback picks. */
  ghost predicate IsMostRecentOnMap(c: Clipboard, mapId: int, i: nat) {
    IsFirstBest(OnMap(c, mapId), Recency(c), |c.loadouts.keys|, i)
  }

  /** The fallback pick exists exactly when some stored key lies on the map;
      it lies on the map, no key on the map was used later, and every key on
      the map before it in enumeration order was used strictly earlier. */
  lemma MostRecentIsLatest(c: Clipboard, mapId: int)
    ensures MostRecentOnMap(c, mapId).None? <==>
      forall j | 0 <= j < |c.loadouts.keys| :: c.loadouts.keys[j].mapId != mapId
    ensures MostRecentOnMap(c, mapId).Some? ==>
      var i := MostRecentOnMap(c, mapId).value;
      && IsMostRecentOnMap(c, mapId, i)
      && forall j | 0 <= j < |c.loadouts.keys| && c.loadouts.keys[j].mapId == mapId ::
           && LastUsedOf(c, c.loadouts.keys[j]) <= LastUsedOf(c, c.loadouts.keys[i])
           && (j < i ==> LastUsedOf(c, c.loadouts.keys[j]) < LastUsedOf(c, c.loadouts.keys[i]))
  {
    var ok, ranks, n := OnMap(c, mapId), Recency(c), |c.loadouts.keys|;
    ScanIsFirstBest(ok, ranks, n);
    if MostRecentOnMap(c, mapId).Some? {
      var i := MostRecentOnMap(c, mapId).value;
      forall j | 0 <= j < n && c.loadouts.keys[j].mapId == mapId
        ensures LastUsedOf(c, c.loadouts.keys[j]) <= LastUsedOf(c, c.loadouts.keys[i])
        ensures j < i ==> LastUsedOf(c, c.loadouts.keys[j]) < LastUsedOf(c, c.loadouts.keys[i])
      {
        FirstBestIsMaximal(ok, ranks, n, i, j);
      }
    }
  }

  datatype Fetched = Fetched(clip: Clipboard, items: seq<SavedItem>)

  /** The list to load for a group: its own list (stamping it as used now),
      else the map's most recently used list, else the global copy if it is
      not empty, else nothing. A missing map gives nothing. */
  function GetLoadout(c: Clipboard, mapOf: Option<int>, groupId: int, now: nat): (r: Fetched)
    ensures mapOf.None? ==> r == Fetched(c, [])
    ensures mapOf.Some? && LoadoutKey(mapOf.value, groupId) in c.loadouts.vals ==>
      var k := LoadoutKey(mapOf.value, groupId);
      r.items == c.loadouts.vals[k] && r.clip == c.(lastUsed := c.lastUsed[k := now])
    ensures mapOf.Some? && LoadoutKey(mapOf.value, groupId) !in c.loadouts.vals ==> r.clip == c
    ensures mapOf.Some? && LoadoutKey(mapOf.value, groupId) !in c.loadouts.vals && MostRecentOnMap(c, mapOf.value).Some? ==>
      r.items == c.loadouts.vals[c.loadouts.keys[MostRecentOnMap(c, mapOf.value).value]]
    ensures mapOf.Some? && LoadoutKey(mapOf.value, groupId) !in c.loadouts.vals && MostRecentOnMap(c, mapOf.value).None? ==>
      r.items == c.lastGlobal
  {
    if mapOf.None? then Fetched(c, [])
    else
      var k := LoadoutKey(mapOf.value, groupId);
      if k in c.loadouts.vals then
        Fetched(c.(lastUsed := c.lastUsed[k := now]), c.loadouts.vals[k])
      else
        var pick := MostRecentOnMap(c, mapOf.value);
        if pick.Some? then Fetched(c, c.loadouts.vals[c.loadouts.keys[pick.value]])
        else if |c.lastGlobal| > 0 then Fetched(c, c.lastGlobal)
        else Fetched(c, [])
  }

  /** A save is read back through the group's own key, whatever time it is
      read at. */
  lemma SaveThenGet(c: Clipboard, m: int, groupId: int, items: seq<SavedItem>, now: nat, later: nat)
    ensures GetLoadout(SaveLoadout(c, Some(m), groupId, Some(items), now), Some(m), groupId, later).items == items
  {
  }

  /** The group has something to load: a non-empty list of its own, a
      non-empty list of another group on the map, or a non-empty global
      copy. */
  predicate HasData(c: Clipboard, mapOf: Option<int>, groupId: int) {
    && mapOf.Some?
    && (|| (LoadoutKey(mapOf.value, groupId) in c.loadouts.vals && |c.loadouts.vals[LoadoutKey(mapOf.value, groupId)]| > 0)
        || (exists k | k in c.loadouts.vals :: k.mapId == mapOf.value && |c.loadouts.vals[k]| > 0)
        || |c.lastGlobal| > 0)
  }

  /** When there is nothing to load, the lookup loads nothing. */
  lemma NoDataMeansEmpty(c: Clipboard, mapOf: Option<int>, groupId: int, now: nat)
    requires !HasData(c, mapOf, groupId)
    ensures GetLoadout(c, mapOf, groupId, now).items == []
  {
    if mapOf.Some? && LoadoutKey(mapOf.value, groupId) !in c.loadouts.vals {
      var pick := MostRecentOnMap(c, mapOf.value);
      if pick.Some? {
        var k := c.loadouts.keys[pick.value];
        assert k in c.loadouts.vals;
        assert |c.loadouts.vals[k]| == 0;
      }
    }
  }

  /** The converse fails: a group whose own list is empty reports data when
      another map saved a non-empty list since, yet loads its own empty
      list. */
  lemma HasDataDoesNotPromiseItems(item: SavedItem)
    ensures var c := SaveLoadout(SaveLoadout(Initial(), Some(1), 1, Some([]), 0), Some(2), 1, Some([item]), 0);
      HasData(c, Some(1), 1) && GetLoadout(c, Some(1), 1, 0).items == []
  {
    var c1 := SaveLoadout(Initial(), Some(1), 1, Some([]), 0);
    var c := SaveLoadout(c1, Some(2), 1, Some([item]), 0);
    assert LoadoutKey(1, 1) != LoadoutKey(2, 1);
    SaveKeepsRecentLists(c1, 2, 1, [item], 0, LoadoutKey(1, 1));
  }

  // ---------------------------------------------------------------------
  // Clearing
  // ---------------------------------------------------------------------

  /** Forgets one group's list and its time; the global copy stays. */
  function ClearLoadout(c: Clipboard, mapOf: Option<int>, groupId: int): (r: Clipboard)
    ensures mapOf.None? ==> r == c
    ensures mapOf.Some? ==> LoadoutKey(mapOf.value, groupId) !in r.loadouts.vals && LoadoutKey(mapOf.value, groupId) !in r.lastUsed
    ensures mapOf.Some? ==> r.loadouts.keys == Without(c.loadouts.keys, {LoadoutKey(mapOf.value, groupId)})
    ensures r.lastGlobal == c.lastGlobal && r.lastGlobalTime == c.lastGlobalTime
    ensures forall k | mapOf.None? || k != LoadoutKey(mapOf.value, groupId) ::
      && (k in r.loadouts.vals <==> k in c.loadouts.vals)
      && (k in r.loadouts.vals ==> r.loadouts.vals[k] == c.loadouts.vals[k])
      && (k in r.lastUsed <==> k in c.lastUsed)
      && (k in r.lastUsed ==> r.lastUsed[k] == c.lastUsed[k])
  {
    if mapOf.None? then c
    else
      var k := LoadoutKey(mapOf.value, groupId);
      c.(loadouts := Remove(c.loadouts, k), lastUsed := c.lastUsed - {k})
  }

  /** After clearing a group, its lookup no longer finds a list of its own:
      the clipboard is not touched and the map's other lists or the global
      copy answer. */
  lemma ClearThenGetFallsBack(c: Clipboard, m: int, groupId: int, now: nat)
    ensures var r := ClearLoadout(c, Some(m), groupId);
      GetLoadout(r, Some(m), groupId, now).clip == r
    ensures var r := ClearLoadout(c, Some(m), groupId);
      var pick := MostRecentOnMap(r, m);
      && (pick.Some? ==> r.loadouts.keys[pick.value] != LoadoutKey(m, groupId))
      && GetLoadout(r, Some(m), groupId, now).items ==
           if pick.Some? then r.loadouts.vals[r.loadouts.keys[pick.value]] else r.lastGlobal
  {
    var r := ClearLoadout(c, Some(m), groupId);
    var pick := MostRecentOnMap(r, m);
    if pick.Some? {
      assert r.loadouts.keys[pick.value] in r.loadouts.vals;
    }
  }

  // ---------------------------------------------------------------------
  // The invariant
  // ---------------------------------------------------------------------

  /** Every operation keeps the stored lists and their times in step. */
  lemma CleanKeepsSynced(c: Clipboard, now: nat)
    requires Synced(c)
    ensures Synced(CleanOldLoadouts(c, now))
  {
    var r := CleanOldLoadouts(c, now);
    assert r.loadouts.vals.Keys == r.lastUsed.Keys;
  }

  lemma SaveKeepsSynced(c: Clipboard, mapOf: Option<int>, groupId: int, items: Option<seq<SavedItem>>, now: nat)
    requires Synced(c)
    ensures Synced(SaveLoadout(c, mapOf, groupId, items, now))
  {
    if mapOf.Some? && items.Some? {
      var k := LoadoutKey(mapOf.value, groupId);
      var saved := c.(
        loadouts := Put(c.loadouts, k, items.value),
        lastUsed := c.lastUsed[k := now],
        lastGlobal := items.value,
        lastGlobalTime := now);
      assert saved.loadouts.vals.Keys == saved.lastUsed.Keys;
      CleanKeepsSynced(saved, now);
    }
  }

  lemma GetKeepsSynced(c: Clipboard, mapOf: Option<int>, groupId: int, now: nat)
    requires Synced(c)
    ensures Synced(GetLoadout(c, mapOf, groupId, now).clip)
  {
  }

  lemma ClearKeepsSynced(c: Clipboard, mapOf: Option<int>, groupId: int)
    requires Synced(c)
    ensures Synced(ClearLoadout(c, mapOf, groupId))
  {
    if mapOf.Some? {
      var r := ClearLoadout(c, mapOf, groupId);
      assert r.loadouts.vals.Keys == r.lastUsed.Keys;
    }
  }
}
