/** The selection loop shared by the storage resolver, the nearest-cell
    search and the clipboard's most-recent lookup: walk a list in order, skip
    the entries that do not qualify, and replace the current pick only when
    an entry ranks strictly higher. Ranks compare by score (higher first) and
    then by distance (lower first); equal ranks keep the earlier entry. */
module Argmax {
  import opened Optional

  datatype Rank = Rank(score: int, dist: int)

  /** `a` ranks strictly above `b`. */
  predicate Outranks(a: Rank, b: Rank) {
    a.score > b.score || (a.score == b.score && a.dist < b.dist)
  }

  lemma OutranksIsStrictOrder(a: Rank, b: Rank, c: Rank)
    ensures !Outranks(a, a)
    ensures Outranks(a, b) ==> !Outranks(b, a)
    ensures Outranks(a, b) && Outranks(b, c) ==> Outranks(a, c)
    ensures Outranks(a, b) && !Outranks(c, b) ==> Outranks(a, c)
  {
  }

  /** The pick after the first `n` entries, as the loop computes it. */
  function Scan(ok: seq<bool>, ranks: seq<Rank>, n: nat): (r: Option<nat>)
    requires |ok| == |ranks| && n <= |ok|
    ensures r.Some? ==> r.value < n && ok[r.value]
  {
    if n == 0 then None
    else
      var b := Scan(ok, ranks, n - 1);
      if !ok[n - 1] then b
      else if b.None? || Outranks(ranks[n - 1], ranks[b.value]) then Some(n - 1)
      else b
  }

  /** One more entry: it becomes the pick when it qualifies and there is no
      pick yet or it ranks strictly above the pick. */
  lemma ScanStep(ok: seq<bool>, ranks: seq<Rank>, n: nat)
    requires |ok| == |ranks| && n < |ok|
    ensures var b := Scan(ok, ranks, n);
      Scan(ok, ranks, n + 1) == (if ok[n] && (b.None? || Outranks(ranks[n], ranks[b.value])) then Some(n) else b)
  {
  }

  /** Among the first `n` entries, `i` qualifies, ranks strictly above every
      qualifying entry before it, and no qualifying entry after it ranks
      strictly above it. */
  ghost predicate IsFirstBest(ok: seq<bool>, ranks: seq<Rank>, n: nat, i: nat)
    requires |ok| == |ranks| && n <= |ok|
  {
    && i < n
    && ok[i]
    && (forall j | 0 <= j < i && ok[j] :: Outranks(ranks[i], ranks[j]))
    && (forall j | i < j < n && ok[j] :: !Outranks(ranks[j], ranks[i]))
  }

  /** The loop's pick is the declarative first-best, and there is a pick
      exactly when some entry qualifies. */
  lemma {:induction false} ScanIsFirstBest(ok: seq<bool>, ranks: seq<Rank>, n: nat)
    requires |ok| == |ranks| && n <= |ok|
    ensures Scan(ok, ranks, n).None? <==> forall j | 0 <= j < n :: !ok[j]
    ensures Scan(ok, ranks, n).Some? ==> IsFirstBest(ok, ranks, n, Scan(ok, ranks, n).value)
  {
    if n > 0 {
      ScanIsFirstBest(ok, ranks, n - 1);
      var b := Scan(ok, ranks, n - 1);
      if ok[n - 1] && b.Some? {
        var k := n - 1;
        if Outranks(ranks[k], ranks[b.value]) {
          forall j | 0 <= j < k && ok[j]
            ensures Outranks(ranks[k], ranks[j])
          {
            if j < b.value {
              OutranksIsStrictOrder(ranks[k], ranks[b.value], ranks[j]);
            } else if b.value < j {
              OutranksIsStrictOrder(ranks[k], ranks[b.value], ranks[j]);
            }
          }
        }
      }
    }
  }

  /** There is at most one first-best. */
  lemma FirstBestIsUnique(ok: seq<bool>, ranks: seq<Rank>, n: nat, i: nat, j: nat)
    requires |ok| == |ranks| && n <= |ok|
    requires IsFirstBest(ok, ranks, n, i) && IsFirstBest(ok, ranks, n, j)
    ensures i == j
  {
    if i < j {
      assert false;
    } else if j < i {
      assert false;
    }
  }

  /** The first-best has the highest score among qualifying entries, the
      lowest distance among those with that score, and no earlier entry
      has the same rank. */
  lemma FirstBestIsMaximal(ok: seq<bool>, ranks: seq<Rank>, n: nat, i: nat, j: nat)
    requires |ok| == |ranks| && n <= |ok|
    requires IsFirstBest(ok, ranks, n, i) && j < n && ok[j]
    ensures ranks[j].score <= ranks[i].score
    ensures ranks[j].score == ranks[i].score ==> ranks[i].dist <= ranks[j].dist
    ensures j < i ==> ranks[j] != ranks[i]
  {
    if j < i {
      assert Outranks(ranks[i], ranks[j]);
    } else if i < j {
      assert !Outranks(ranks[j], ranks[i]);
    }
  }
}
