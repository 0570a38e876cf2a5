/** The post-pass on the host's search for a better storage place: when the
    destination the host found has weight overrides, every candidate group is
    re-scored with category and item weights, the best one by (score
    descending, squared distance ascending, first seen) replaces the host's
    choice, and the nearest good cell of that group replaces the host's cell.

    The host's candidate list, its acceptance test, its cell test and all
    positions are inputs. Looking up a group's model goes through the
    registry's get-or-create, so the pass may add empty models; the registry
    is threaded through and every property is stated against the registry the
    pass started from. */
module StoreUtilityPatch {
  import opened Optional
  import opened OrderedDict
  import opened ExtendedSettings
  import opened SettingsManager
  import opened Argmax

  // ---------------------------------------------------------------------
  // Cells and positions
  // ---------------------------------------------------------------------

  datatype Cell = Cell(x: int, y: int, z: int)

  /** The host's invalid cell. */
  const InvalidCell: Cell := Cell(-1000, -1000, -1000)

  /** The host's validity test for a cell: it only looks at the height. */
  predicate IsValidCell(c: Cell) {
    c.y >= 0
  }

  function Square(n: int): (r: nat)
    ensures r == n * n
  {
    if n < 0 then (-n) * (-n) else n * n
  }

  /** Squared horizontal distance; the height does not count. */
  function DistSquared(a: Cell, b: Cell): (r: nat)
    ensures r == 0 <==> a.x == b.x && a.z == b.z
  {
    Square(a.x - b.x) + Square(a.z - b.z)
  }

  // ---------------------------------------------------------------------
  // Destinations and slot groups
  // ---------------------------------------------------------------------

  /** What stands behind a slot group: a storage building at a position, a
      zone with its cells, or some other haul destination. */
  datatype DestKind = Building(position: Cell) | Zone(zoneCells: seq<Cell>) | OtherDest

  /** A haul destination. `settings` is what the host's settings lookup gives
      for it (absent when it is neither a settings parent nor a stockpile, or
      has no settings); `id` stands for its object identity. */
  datatype Destination = Destination(id: nat, kind: DestKind, settings: Option<SettingsId>)

  datatype SlotGroup = SlotGroup(parent: Option<Destination>, cells: seq<Cell>)

  /** The host's answers for the item being hauled. */
  datatype Host = Host(
    priorityOf: SettingsId -> StoragePriority,
    accepts: SettingsId -> bool,
    isGoodStoreCell: Cell -> bool)

  function GetStorageSettings(d: Option<Destination>): (r: Option<SettingsId>)
    ensures r.Some? ==> d.Some? && r == d.value.settings
  {
    if d.None? then None else d.value.settings
  }

  /** A building's position, a zone's first cell (the origin for an empty
      zone), and the invalid cell otherwise. */
  function GetDestinationPosition(g: SlotGroup): (r: Cell)
    ensures g.parent.None? || g.parent.value.kind.OtherDest? ==> r == InvalidCell
    ensures g.parent.Some? && g.parent.value.kind.Building? ==> r == g.parent.value.kind.position
    ensures g.parent.Some? && g.parent.value.kind.Zone? ==>
      r == (if |g.parent.value.kind.zoneCells| > 0 then g.parent.value.kind.zoneCells[0] else Cell(0, 0, 0))
  {
    if g.parent.None? then InvalidCell
    else match g.parent.value.kind
      case Building(p) => p
      case Zone(cs) => if |cs| > 0 then cs[0] else Cell(0, 0, 0)
      case OtherDest => InvalidCell
  }

  /** A group can take the item when it exists, its parent has settings,
      and those settings accept the item. */
  predicate IsValidStorageFor(host: Host, g: Option<SlotGroup>) {
    && g.Some?
    && GetStorageSettings(g.value.parent).Some?
    && host.accepts(GetStorageSettings(g.value.parent).value)
  }

  function SettingsOf(host: Host, g: Option<SlotGroup>): (s: SettingsId)
    requires IsValidStorageFor(host, g)
    ensures g.value.parent.Some? && g.value.parent.value.settings == Some(s) && host.accepts(s)
  {
    g.value.parent.value.settings.value
  }

  // ---------------------------------------------------------------------
  // Scores
  // ---------------------------------------------------------------------

  /** The score of settings `s` as the registry stands: the model's effective
      priority for the item when it has overrides, the host's priority rank
      otherwise (including when no model exists yet). */
  function Score(reg: Registry, host: Host, def: ThingDef, s: SettingsId): int {
    if s in reg.vals && HasAnyCustomPriority(reg.vals[s])
    then GetEffectivePriorityForThing(reg.vals[s], host.priorityOf, Some(def))
    else ToListPriority(host.priorityOf(s))
  }

  /** `b` holds everything `a` holds, unchanged; anything new is a freshly
      created empty model attached to its key. */
  ghost predicate OnlyCreated(a: Registry, b: Registry) {
    && a.vals.Keys <= b.vals.Keys
    && forall s | s in b.vals :: b.vals[s] == (if s in a.vals then a.vals[s] else New(Some(s)))
  }

  lemma OnlyCreatedTrans(a: Registry, b: Registry, c: Registry)
    requires OnlyCreated(a, b) && OnlyCreated(b, c)
    ensures OnlyCreated(a, c)
  {
    forall s | s in c.vals && s !in a.vals
      ensures c.vals[s] == New(Some(s))
    {
      if s in b.vals {
        assert b.vals[s] == New(Some(s));
      }
    }
  }

  /** Creating empty models changes no score. */
  lemma ScoreStable(a: Registry, b: Registry, host: Host, def: ThingDef, s: SettingsId)
    requires OnlyCreated(a, b)
    ensures Score(b, host, def, s) == Score(a, host, def, s)
  {
    if s in b.vals && s !in a.vals {
      assert !HasAnyCustomPriority(b.vals[s]);
    }
  }

  /** The patch's priority lookup: fetch (or create) the model, use its
      effective priority for the item when it has overrides, the host's rank
      otherwise. */
  function EffectivePriorityAt(reg: Registry, host: Host, def: ThingDef, s: SettingsId): (r: (Registry, int))
    ensures r.1 == Score(reg, host, def, s)
    ensures s in r.0.vals
  {
    var (reg', e) := GetExtendedSettings(reg, Some(s));
    if e.Some? && HasAnyCustomPriority(e.value)
    then (reg', GetEffectivePriorityForThing(e.value, host.priorityOf, Some(def)))
    else (reg', ToListPriority(host.priorityOf(s)))
  }

  /** For a model attached to its settings, a customised candidate scores its
      host rank plus the item's weight, never more than three away. */
  lemma ScoreOfCustomised(reg: Registry, host: Host, def: ThingDef, s: SettingsId)
    requires Attached(reg) && s in reg.vals && HasAnyCustomPriority(reg.vals[s]) && Valid(reg.vals[s])
    ensures Score(reg, host, def, s) == ToListPriority(host.priorityOf(s)) + EffectiveWeight(reg.vals[s], Some(def))
    ensures ToListPriority(host.priorityOf(s)) - 3 <= Score(reg, host, def, s) <= ToListPriority(host.priorityOf(s)) + 3
  {
  }

  // ---------------------------------------------------------------------
  // Choosing the destination
  // ---------------------------------------------------------------------

  /** The search context: the registry at the start, the host, the item,
      the minimum rank the new place must reach and where distances are
      measured from. */
  datatype Search = Search(reg: Registry, host: Host, def: ThingDef, threshold: int, from: Cell)

  function ScoreOf(ctx: Search, g: Option<SlotGroup>): int
    requires IsValidStorageFor(ctx.host, g)
  {
    Score(ctx.reg, ctx.host, ctx.def, SettingsOf(ctx.host, g))
  }

  /** The group can take the item and scores at least the threshold. */
  predicate Eligible(ctx: Search, g: Option<SlotGroup>) {
    IsValidStorageFor(ctx.host, g) && ScoreOf(ctx, g) >= ctx.threshold
  }

  function DistOf(ctx: Search, g: Option<SlotGroup>): nat
    requires g.Some?
  {
    DistSquared(ctx.from, GetDestinationPosition(g.value))
  }

  /** Which groups qualify, in list order. */
  function Flags(ctx: Search, groups: seq<Option<SlotGroup>>): (r: seq<bool>)
    ensures |r| == |groups| && forall j | 0 <= j < |groups| :: r[j] == Eligible(ctx, groups[j])
  {
    seq(|groups|, j requires 0 <= j < |groups| => Eligible(ctx, groups[j]))
  }

  /** A group that can take the item ranks by its score and then by its
      distance; the rank of any other group is never consulted. */
  function RankOf(ctx: Search, g: Option<SlotGroup>): Rank {
    if IsValidStorageFor(ctx.host, g) then Rank(ScoreOf(ctx, g), DistOf(ctx, g)) else Rank(0, 0)
  }

  function Ranks(ctx: Search, groups: seq<Option<SlotGroup>>): (r: seq<Rank>)
    ensures |r| == |groups| && forall j | 0 <= j < |groups| :: r[j] == RankOf(ctx, groups[j])
  {
    seq(|groups|, j requires 0 <= j < |groups| => RankOf(ctx, groups[j]))
  }

  /** Group `i` is the one the scan settles on. */
  ghost predicate IsBest(ctx: Search, groups: seq<Option<SlotGroup>>, i: nat) {
    IsFirstBest(Flags(ctx, groups), Ranks(ctx, groups), |groups|, i)
  }

  /** The winner is unique. */
  lemma BestIsUnique(ctx: Search, groups: seq<Option<SlotGroup>>, i: nat, j: nat)
    requires IsBest(ctx, groups, i) && IsBest(ctx, groups, j)
    ensures i == j
  {
    FirstBestIsUnique(Flags(ctx, groups), Ranks(ctx, groups), |groups|, i, j);
  }

  /** The winner is eligible, has the highest score among eligible groups
      and the smallest distance among those with that score, and is strictly
      nearer than any earlier eligible group with the same score. */
  lemma BestIsArgmax(ctx: Search, groups: seq<Option<SlotGroup>>, i: nat, j: nat)
    requires IsBest(ctx, groups, i) && j < |groups| && Eligible(ctx, groups[j])
    ensures i < |groups| && Eligible(ctx, groups[i])
    ensures ScoreOf(ctx, groups[j]) <= ScoreOf(ctx, groups[i])
    ensures ScoreOf(ctx, groups[j]) == ScoreOf(ctx, groups[i]) ==> DistOf(ctx, groups[i]) <= DistOf(ctx, groups[j])
    ensures j < i && ScoreOf(ctx, groups[j]) == ScoreOf(ctx, groups[i]) ==> DistOf(ctx, groups[i]) < DistOf(ctx, groups[j])
  {
    FirstBestIsMaximal(Flags(ctx, groups), Ranks(ctx, groups), |groups|, i, j);
  }

  /** The scan's pick is the best group, and there is one exactly when some
      group is eligible. */
  lemma ScanFindsBest(ctx: Search, groups: seq<Option<SlotGroup>>)
    ensures var b := Scan(Flags(ctx, groups), Ranks(ctx, groups), |groups|);
      && (b.None? <==> forall j | 0 <= j < |groups| :: !Eligible(ctx, groups[j]))
      && (b.Some? ==> IsBest(ctx, groups, b.value))
  {
    ScanIsFirstBest(Flags(ctx, groups), Ranks(ctx, groups), |groups|);
  }

  /** The registry after the scan has looked up the first `n` groups: every
      group that can take the item has its model fetched or created. */
  function Touched(ctx: Search, reg: Registry, groups: seq<Option<SlotGroup>>, n: nat): Registry
    requires n <= |groups|
  {
    if n == 0 then reg
    else
      var r := Touched(ctx, reg, groups, n - 1);
      if IsValidStorageFor(ctx.host, groups[n - 1])
      then EffectivePriorityAt(r, ctx.host, ctx.def, SettingsOf(ctx.host, groups[n - 1])).0
      else r
  }

  lemma LookupOnlyCreates(a: Registry, r: Registry, host: Host, def: ThingDef, s: SettingsId)
    requires OnlyCreated(a, r)
    ensures OnlyCreated(a, EffectivePriorityAt(r, host, def, s).0)
  {
    var next := EffectivePriorityAt(r, host, def, s).0;
    assert next == GetExtendedSettings(r, Some(s)).0;
    OnlyCreatedTrans(a, r, next);
  }

  lemma LookupKeepsAttached(r: Registry, host: Host, def: ThingDef, s: SettingsId)
    requires Attached(r)
    ensures Attached(EffectivePriorityAt(r, host, def, s).0)
  {
    assert EffectivePriorityAt(r, host, def, s).0 == GetExtendedSettings(r, Some(s)).0;
  }

  /** The lookups only ever add empty models. */
  lemma {:induction false} TouchedOnlyCreates(ctx: Search, reg: Registry, groups: seq<Option<SlotGroup>>, n: nat)
    requires n <= |groups| && OnlyCreated(ctx.reg, reg)
    ensures OnlyCreated(ctx.reg, Touched(ctx, reg, groups, n))
  {
    if n > 0 {
      TouchedOnlyCreates(ctx, reg, groups, n - 1);
      if IsValidStorageFor(ctx.host, groups[n - 1]) {
        LookupOnlyCreates(ctx.reg, Touched(ctx, reg, groups, n - 1), ctx.host, ctx.def, SettingsOf(ctx.host, groups[n - 1]));
      }
    }
  }

  /** The lookups keep every model attached to its key. */
  lemma {:induction false} TouchedKeepsAttached(ctx: Search, reg: Registry, groups: seq<Option<SlotGroup>>, n: nat)
    requires n <= |groups| && Attached(reg)
    ensures Attached(Touched(ctx, reg, groups, n))
  {
    if n > 0 {
      TouchedKeepsAttached(ctx, reg, groups, n - 1);
      if IsValidStorageFor(ctx.host, groups[n - 1]) {
        LookupKeepsAttached(Touched(ctx, reg, groups, n - 1), ctx.host, ctx.def, SettingsOf(ctx.host, groups[n - 1]));
      }
    }
  }

  /** Looking up a group in the middle of the scan gives the score the
      starting registry gives it. */
  lemma TouchedScore(ctx: Search, reg: Registry, groups: seq<Option<SlotGroup>>, n: nat)
    requires n < |groups| && OnlyCreated(ctx.reg, reg) && IsValidStorageFor(ctx.host, groups[n])
    ensures EffectivePriorityAt(Touched(ctx, reg, groups, n), ctx.host, ctx.def, SettingsOf(ctx.host, groups[n])).1
      == ScoreOf(ctx, groups[n])
  {
    TouchedOnlyCreates(ctx, reg, groups, n);
    ScoreStable(ctx.reg, Touched(ctx, reg, groups, n), ctx.host, ctx.def, SettingsOf(ctx.host, groups[n]));
  }

  /** The scan over the host's groups in its priority order. The registry
      comes back with empty models created for every group whose score was
      looked up. */
  method FindBestStorage(ctx: Search, reg: Registry, groups: seq<Option<SlotGroup>>) returns (reg': Registry, best: Option<nat>)
    requires OnlyCreated(ctx.reg, reg)
    ensures OnlyCreated(ctx.reg, reg')
    ensures Attached(reg) ==> Attached(reg')
    ensures best.None? <==> forall j | 0 <= j < |groups| :: !Eligible(ctx, groups[j])
    ensures best.Some? ==> IsBest(ctx, groups, best.value)
  {
    reg', best := ScanGroups(ctx, reg, groups, Flags(ctx, groups), Ranks(ctx, groups));
    ScanFindsBest(ctx, groups);
    TouchedOnlyCreates(ctx, reg, groups, |groups|);
    if Attached(reg) {
      TouchedKeepsAttached(ctx, reg, groups, |groups|);
    }
  }

  /** The loop of the scan: `ok` and `ranks` are the groups' flags and ranks. */
  method ScanGroups(ctx: Search, reg: Registry, groups: seq<Option<SlotGroup>>, ghost ok: seq<bool>, ghost ranks: seq<Rank>)
    returns (reg': Registry, best: Option<nat>)
    requires OnlyCreated(ctx.reg, reg)
    requires |ok| == |groups| == |ranks|
    requires forall j | 0 <= j < |groups| :: ok[j] == Eligible(ctx, groups[j]) && ranks[j] == RankOf(ctx, groups[j])
    ensures reg' == Touched(ctx, reg, groups, |groups|)
    ensures best == Scan(ok, ranks, |groups|)
  {
    reg' := reg;
    best := None;
    var bestScore, bestDist := 0, 0;
    var n := 0;
    while n < |groups|
      invariant n <= |groups|
      invariant reg' == Touched(ctx, reg, groups, n)
      invariant best == Scan(ok, ranks, n)
      invariant best.Some? ==> ranks[best.value] == Rank(bestScore, bestDist)
    {
      ScanStep(ok, ranks, n);
      var g := groups[n];
      if IsValidStorageFor(ctx.host, g) {
        TouchedScore(ctx, reg, groups, n);
        var lookup := EffectivePriorityAt(reg', ctx.host, ctx.def, SettingsOf(ctx.host, g));
        reg' := lookup.0;
        var p := lookup.1;
        if p >= ctx.threshold {
          var d := DistSquared(ctx.from, GetDestinationPosition(g.value));
          if best.None? || p > bestScore || (p == bestScore && d < bestDist) {
            best := Some(n);
            bestScore, bestDist := p, d;
          }
        }
      }
      n := n + 1;
    }
  }

  // ---------------------------------------------------------------------
  // Choosing the cell
  // ---------------------------------------------------------------------

  function CellFlags(cells: seq<Cell>, good: Cell -> bool): (r: seq<bool>)
    ensures |r| == |cells| && forall j | 0 <= j < |cells| :: r[j] == good(cells[j])
  {
    seq(|cells|, j requires 0 <= j < |cells| => good(cells[j]))
  }

  /** Cells all score the same and rank by distance alone. */
  function CellRanks(cells: seq<Cell>, from: Cell): (r: seq<Rank>)
    ensures |r| == |cells| && forall j | 0 <= j < |cells| :: r[j] == Rank(0, DistSquared(from, cells[j]))
  {
    seq(|cells|, j requires 0 <= j < |cells| => Rank(0, DistSquared(from, cells[j])))
  }

  ghost predicate IsNearest(cells: seq<Cell>, good: Cell -> bool, from: Cell, i: nat) {
    IsFirstBest(CellFlags(cells, good), CellRanks(cells, from), |cells|, i)
  }

  /** The nearest good cell of a group, first on ties; the invalid cell when
      there is no group or no good cell. */
  method FindBestCellInGroup(group: Option<SlotGroup>, good: Cell -> bool, from: Cell) returns (c: Cell, index: Option<nat>)
    ensures group.None? ==> index.None?
    ensures group.Some? ==> (index.None? <==> forall j | 0 <= j < |group.value.cells| :: !good(group.value.cells[j]))
    ensures index.None? ==> c == InvalidCell
    ensures index.Some? ==>
      && group.Some?
      && IsNearest(group.value.cells, good, from, index.value)
      && c == group.value.cells[index.value]
  {
    c, index := InvalidCell, None;
    if group.None? {
      return;
    }
    var cells := group.value.cells;
    ghost var ok, ranks := CellFlags(cells, good), CellRanks(cells, from);
    var bestDist := 0;
    var i := 0;
    while i < |cells|
      invariant i <= |cells|
      invariant index == Scan(ok, ranks, i)
      invariant index.None? ==> c == InvalidCell
      invariant index.Some? ==> c == cells[index.value] && bestDist == DistSquared(from, c)
    {
      if good(cells[i]) {
        var d := DistSquared(from, cells[i]);
        if index.None? || d < bestDist {
          bestDist := d;
          c := cells[i];
          index := Some(i);
        }
      }
      i := i + 1;
    }
    ScanIsFirstBest(ok, ranks, |cells|);
  }

  /** The chosen cell is good and no good cell is nearer; every good cell
      before it is strictly farther. */
  lemma NearestIsClosest(cells: seq<Cell>, good: Cell -> bool, from: Cell, i: nat, j: nat)
    requires IsNearest(cells, good, from, i) && j < |cells| && good(cells[j])
    ensures i < |cells| && good(cells[i])
    ensures DistSquared(from, cells[i]) <= DistSquared(from, cells[j])
    ensures j < i ==> DistSquared(from, cells[i]) < DistSquared(from, cells[j])
  {
    FirstBestIsMaximal(CellFlags(cells, good), CellRanks(cells, from), |cells|, i, j);
  }

  // ---------------------------------------------------------------------
  // The postfix
  // ---------------------------------------------------------------------

  /** The early exits: the session switch is off, the host found no
      destination, the item has no def, or the destination has no settings. */
  predicate FastExit(enabled: bool, dest: Option<Destination>, def: Option<ThingDef>) {
    !enabled || dest.None? || def.None? || dest.value.settings.None?
  }

  /** The model of the destination the host found: the post-pass only runs
      when it has overrides. */
  function FoundModel(reg: Registry, dest: Destination): (r: (Registry, ExtendedStorageSettings))
    requires dest.settings.Some?
    ensures OnlyCreated(reg, r.0)
    ensures r.1 == GetExtendedSettings(reg, dest.settings).1.value
  {
    var (reg', e) := GetExtendedSettings(reg, dest.settings);
    (reg', e.value)
  }

  /** Every winner sits behind the same destination. */
  lemma BestParent(ctx: Search, groups: seq<Option<SlotGroup>>, b: nat)
    requires IsBest(ctx, groups, b)
    ensures b < |groups| && groups[b].Some?
    ensures forall i | 0 <= i < |groups| && IsBest(ctx, groups, i) :: groups[i] == groups[b]
  {
    forall i | 0 <= i < |groups| && IsBest(ctx, groups, i)
      ensures groups[i] == groups[b]
    {
      BestIsUnique(ctx, groups, i, b);
    }
  }

  /** `cell'` is what the host's cell becomes on moving into a group with
      `cells`: the nearest good cell when there is one and it is valid,
      otherwise the cell it had. */
  ghost predicate TakesNearestCell(cells: seq<Cell>, good: Cell -> bool, from: Cell, cell: Cell, cell': Cell) {
    && ((forall j | 0 <= j < |cells| :: !good(cells[j])) ==> cell' == cell)
    && (forall i: nat | i < |cells| && IsNearest(cells, good, from, i) ::
          cell' == if IsValidCell(cells[i]) then cells[i] else cell)
  }

  /** The cell inside the new group: its nearest good cell when that is a
      valid cell, else the cell the host had. */
  method CellIn(group: SlotGroup, host: Host, from: Cell, cell: Cell) returns (cell': Cell)
    ensures TakesNearestCell(group.cells, host.isGoodStoreCell, from, cell, cell')
    ensures cell' != cell ==> IsValidCell(cell') && cell' in group.cells
  {
    cell' := cell;
    var newCell, index := FindBestCellInGroup(Some(group), host.isGoodStoreCell, from);
    if IsValidCell(newCell) {
      cell' := newCell;
    }
    NearestIsTaken(group.cells, host.isGoodStoreCell, from, cell, index, newCell, cell');
  }

  /** Taking the search's answer when it is valid takes the nearest good
      cell. */
  lemma NearestIsTaken(cells: seq<Cell>, good: Cell -> bool, from: Cell, cell: Cell,
                       index: Option<nat>, found: Cell, cell': Cell)
    requires index.None? <==> forall j | 0 <= j < |cells| :: !good(cells[j])
    requires index.None? ==> found == InvalidCell
    requires index.Some? ==> index.value < |cells| && IsNearest(cells, good, from, index.value) && found == cells[index.value]
    requires cell' == if IsValidCell(found) then found else cell
    ensures TakesNearestCell(cells, good, from, cell, cell')
  {
    forall i: nat | i < |cells| && IsNearest(cells, good, from, i)
      ensures index == Some(i)
    {
      NearestIsFound(cells, good, from, index, i);
    }
  }

  /** The search's answer is the nearest good cell whenever there is one. */
  lemma NearestIsFound(cells: seq<Cell>, good: Cell -> bool, from: Cell, index: Option<nat>, i: nat)
    requires index.None? <==> forall j | 0 <= j < |cells| :: !good(cells[j])
    requires index.Some? ==> IsNearest(cells, good, from, index.value)
    requires i < |cells| && IsNearest(cells, good, from, i)
    ensures index == Some(i)
  {
    var ok, ranks := CellFlags(cells, good), CellRanks(cells, from);
    assert ok[i] && good(cells[i]);
    FirstBestIsUnique(ok, ranks, |cells|, i, index.value);
  }

  /** The re-evaluation once the fast exits are passed: scan, and when the
      winner's destination differs from the current one, move there and
      take the winner's nearest good cell if it is valid. */
  method Reconsider(ctx: Search, reg1: Registry, groups: seq<Option<SlotGroup>>, dest: Option<Destination>, cell: Cell)
    returns (reg': Registry, dest': Option<Destination>, cell': Cell)
    requires OnlyCreated(ctx.reg, reg1)
    ensures OnlyCreated(ctx.reg, reg')
    ensures Attached(reg1) ==> Attached(reg')
    ensures (forall j | 0 <= j < |groups| :: !Eligible(ctx, groups[j])) ==> dest' == dest && cell' == cell
    ensures forall i | 0 <= i < |groups| && IsBest(ctx, groups, i) :: dest' == groups[i].value.parent
    ensures forall i | 0 <= i < |groups| && IsBest(ctx, groups, i) && groups[i].value.parent != dest ::
      TakesNearestCell(groups[i].value.cells, ctx.host.isGoodStoreCell, ctx.from, cell, cell')
    ensures dest' == dest ==> cell' == cell
    ensures cell' != cell ==> IsValidCell(cell') && exists i | 0 <= i < |groups| && groups[i].Some? :: cell' in groups[i].value.cells
  {
    dest', cell' := dest, cell;
    var best;
    reg', best := FindBestStorage(ctx, reg1, groups);
    if best.Some? {
      BestParent(ctx, groups, best.value);
      var bestGroup := groups[best.value].value;
      if bestGroup.parent != dest {
        dest' := bestGroup.parent;
        cell' := CellIn(bestGroup, ctx.host, ctx.from, cell);
      }
    }
  }

  /** The postfix on the host's search. `carrier` is the hauler's position if
      there is a hauler; distances are measured from it, or from the item.
      Returns the registry after lookups, and the destination and cell the
      host will use. */
  method Postfix(
    enabled: bool, reg: Registry, host: Host,
    def: Option<ThingDef>, thingPos: Cell, carrier: Option<Cell>,
    currentPriority: StoragePriority, groups: seq<Option<SlotGroup>>,
    dest: Option<Destination>, cell: Cell)
    returns (reg': Registry, dest': Option<Destination>, cell': Cell)
    ensures OnlyCreated(reg, reg')
    ensures Attached(reg) ==> Attached(reg')
    ensures FastExit(enabled, dest, def) ==> reg' == reg && dest' == dest && cell' == cell
    ensures !FastExit(enabled, dest, def) && !HasAnyCustomPriority(FoundModel(reg, dest.value).1) ==>
      dest' == dest && cell' == cell
    ensures !FastExit(enabled, dest, def) && HasAnyCustomPriority(FoundModel(reg, dest.value).1) ==>
      var ctx := Search(reg, host, def.value, ToListPriority(currentPriority), carrier.GetOr(thingPos));
      && ((forall j | 0 <= j < |groups| :: !Eligible(ctx, groups[j])) ==> dest' == dest && cell' == cell)
      && (forall i | 0 <= i < |groups| && IsBest(ctx, groups, i) :: dest' == groups[i].value.parent)
      && (forall i | 0 <= i < |groups| && IsBest(ctx, groups, i) && groups[i].value.parent != dest ::
            TakesNearestCell(groups[i].value.cells, host.isGoodStoreCell, carrier.GetOr(thingPos), cell, cell'))
    ensures dest' == dest ==> cell' == cell
    ensures cell' != cell ==> IsValidCell(cell') && exists i | 0 <= i < |groups| && groups[i].Some? :: cell' in groups[i].value.cells
  {
    reg', dest', cell' := reg, dest, cell;
    if FastExit(enabled, dest, def) {
      return;
    }
    var (reg1, found) := FoundModel(reg, dest.value);
    reg' := reg1;
    if !HasAnyCustomPriority(found) {
      return;
    }
    var ctx := Search(reg, host, def.value, ToListPriority(currentPriority), carrier.GetOr(thingPos));
    reg', dest', cell' := Reconsider(ctx, reg1, groups, dest, cell);
  }
}
