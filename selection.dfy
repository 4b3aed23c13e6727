/**
 * The two-stage weighted draw of server.js: `pickRarity` walks the rarity
 * weight table in table order, subtracting each weight from a draw `r` in
 * `[0, total)` until `r` is no longer positive; `pickPrizeByRarity` picks
 * uniformly among the enabled prizes of the chosen rarity. Every call of
 * `Math.random()` is a parameter `u` in `[0, 1)`.
 */
module Selection {
  import opened JsBuiltins

  /** One row of the `rarity_weights` table. */
  datatype RarityWeight = RarityWeight(rarity: string, weight: int)

  /** One row of the `prizes` table. */
  datatype PrizeRow = PrizeRow(id: int, videoPath: string, rarity: string, enabled: bool)

  /** The rarity the draw falls back to. */
  const Normal: string := "normal"

  /** The rows seeded into `rarity_weights` at start-up, in insertion order. */
  const SeedWeights: seq<RarityWeight> := [
    RarityWeight("normal", 50),
    RarityWeight("common", 30),
    RarityWeight("rare", 15),
    RarityWeight("superrare", 5),
    RarityWeight("bonus", 0)
  ]

  /** `rows.reduce((a, b) => a + b.weight, 0)`, a left fold. */
  function SumWeights(rows: seq<RarityWeight>): int
  {
    if rows == [] then 0 else SumWeights(rows[..|rows| - 1]) + rows[|rows| - 1].weight
  }

  /** The running weight sum of the first `k` rows. */
  function PrefixSum(rows: seq<RarityWeight>, k: nat): int
    requires k <= |rows|
  {
    SumWeights(rows[..k])
  }

  lemma PrefixSumStep(rows: seq<RarityWeight>, k: nat)
    requires k < |rows|
    ensures PrefixSum(rows, k + 1) == PrefixSum(rows, k) + rows[k].weight
  {
    assert rows[..k + 1][..k] == rows[..k];
  }

  /** The running weight sum once row `j` has been subtracted. */
  function RunningSum(rows: seq<RarityWeight>, j: nat): int
    requires j < |rows|
  {
    PrefixSum(rows, j + 1)
  }

  lemma PrefixSumAll(rows: seq<RarityWeight>)
    ensures PrefixSum(rows, |rows|) == SumWeights(rows)
  {
    assert rows[..|rows|] == rows;
  }

  /** With non-negative weights the running sum never decreases. */
  lemma {:induction false} PrefixSumMonotone(rows: seq<RarityWeight>, j: nat, k: nat)
    requires forall i :: 0 <= i < |rows| ==> rows[i].weight >= 0
    requires j <= k <= |rows|
    ensures PrefixSum(rows, j) <= PrefixSum(rows, k)
    decreases k - j
  {
    if j < k {
      PrefixSumStep(rows, j);
      PrefixSumMonotone(rows, j + 1, k);
    }
  }

  /** Row `i` is where the walk of `pickRarity` stops for the draw `r`: the
      running sum first reaches `r` there. */
  ghost predicate IsFirstReaching(rows: seq<RarityWeight>, r: real, i: nat)
  {
    && i < |rows|
    && r <= RunningSum(rows, i) as real
    && forall j :: 0 <= j < i ==> RunningSum(rows, j) as real < r
  }

  /** The walk of `pickRarity` runs off the end of the table. */
  ghost predicate NeverReaches(rows: seq<RarityWeight>, r: real)
  {
    forall j :: 0 <= j < |rows| ==> RunningSum(rows, j) as real < r
  }

  function FirstReachingFrom(rows: seq<RarityWeight>, r: real, k: nat): (i: Option<nat>)
    requires k <= |rows|
    requires forall j :: 0 <= j < k ==> RunningSum(rows, j) as real < r
    ensures i.Some? ==> IsFirstReaching(rows, r, i.value)
    ensures i.None? ==> NeverReaches(rows, r)
    decreases |rows| - k
  {
    if k == |rows| then None
    else if r <= RunningSum(rows, k) as real then Some(k)
    else FirstReachingFrom(rows, r, k + 1)
  }

  /** The index of the row where the walk stops, if it stops. */
  function FirstReaching(rows: seq<RarityWeight>, r: real): (i: Option<nat>)
    ensures i.Some? ==> IsFirstReaching(rows, r, i.value)
    ensures i.None? ==> NeverReaches(rows, r)
  {
    FirstReachingFrom(rows, r, 0)
  }

  /** What `pickRarity` returns for the draw `r`: 'normal' when the total
      weight is not positive or when the walk falls through, otherwise the
      rarity of the row where the walk stops. */
  function PickRarityOf(rows: seq<RarityWeight>, r: real): string
  {
    if SumWeights(rows) <= 0 then Normal
    else match FirstReaching(rows, r)
      case Some(i) => rows[i].rarity
      case None => Normal
  }

  /** The walk stops at the first row whose running sum reaches `r`, and at no
      other. */
  lemma FirstReachingUnique(rows: seq<RarityWeight>, r: real, i: nat)
    requires IsFirstReaching(rows, r, i)
    ensures FirstReaching(rows, r) == Some(i)
  {
    assert !NeverReaches(rows, r) by {
      assert !(RunningSum(rows, i) as real < r);
    }
  }

  /** The rarity drawn by `pickRarity` for a draw `u` of `Math.random()`. */
  function DrawnRarity(rows: seq<RarityWeight>, u: real): string
  {
    PickRarityOf(rows, u * SumWeights(rows) as real)
  }

  /** A draw with a non-positive total weight is 'normal'. */
  lemma NonPositiveTotalIsNormal(rows: seq<RarityWeight>, u: real)
    requires SumWeights(rows) <= 0
    ensures DrawnRarity(rows, u) == Normal
  {
  }

  /** For `r` in `[0, total)` the walk always stops inside the table, at the
      first row whose running sum reaches `r`: the final `return 'normal'` is
      unreachable. */
  lemma {:induction false} WalkStopsInTable(rows: seq<RarityWeight>, r: real)
    requires SumWeights(rows) > 0
    requires 0.0 <= r < SumWeights(rows) as real
    ensures FirstReaching(rows, r).Some?
    ensures PickRarityOf(rows, r) == rows[FirstReaching(rows, r).value].rarity
  {
    PrefixSumAll(rows);
    assert !(RunningSum(rows, |rows| - 1) as real < r);
  }

  /** A `Math.random()` draw scaled by a positive total lands in `[0, total)`,
      so the walk stops inside the table. */
  lemma {:induction false} DrawnRarityFromTable(rows: seq<RarityWeight>, u: real)
    requires 0.0 <= u < 1.0
    requires SumWeights(rows) > 0
    ensures exists i :: 0 <= i < |rows| && DrawnRarity(rows, u) == rows[i].rarity
  {
    var total := SumWeights(rows);
    var r := u * total as real;
    ScaledDrawInRange(u, total);
    assert 0.0 <= r < total as real;
    WalkStopsInTable(rows, r);
    assert DrawnRarity(rows, u) == PickRarityOf(rows, r);
    var i := FirstReaching(rows, r).value;
    assert PickRarityOf(rows, r) == rows[i].rarity;
  }

  /** For a positive draw `r` below the total, the row the walk stops at has
      a positive weight. */
  lemma {:induction false} DrawnRowHasPositiveWeight(rows: seq<RarityWeight>, r: real)
    requires SumWeights(rows) > 0
    requires 0.0 < r < SumWeights(rows) as real
    ensures exists i :: 0 <= i < |rows| && rows[i].weight > 0 && PickRarityOf(rows, r) == rows[i].rarity
    ensures FirstReaching(rows, r).Some? && rows[FirstReaching(rows, r).value].weight > 0
  {
    WalkStopsInTable(rows, r);
    var i := FirstReaching(rows, r).value;
    PrefixSumStep(rows, i);
    if i > 0 {
      assert RunningSum(rows, i - 1) as real < r;
    }
    assert rows[..0] == [];
    assert rows[i].weight > 0;
  }

  /** A rarity whose rows all have weight zero (or less) is never drawn by a
      positive draw below the total: with the seeded table, 'bonus' never
      comes out of `pickRarity`. */
  lemma ZeroWeightRarityNeverDrawn(rows: seq<RarityWeight>, r: real, rarity: string)
    requires SumWeights(rows) > 0
    requires 0.0 < r < SumWeights(rows) as real
    requires forall i :: 0 <= i < |rows| && rows[i].rarity == rarity ==> rows[i].weight <= 0
    ensures PickRarityOf(rows, r) != rarity
  {
    DrawnRowHasPositiveWeight(rows, r);
  }

  /** With non-negative weights a positive draw stops at row `i` exactly when
      it lies in `(PrefixSum(i), PrefixSum(i + 1)]`, an interval as wide as
      row `i`'s weight: each rarity is drawn in proportion to its weight. */
  lemma WalkInterval(rows: seq<RarityWeight>, r: real, i: nat)
    requires forall k :: 0 <= k < |rows| ==> rows[k].weight >= 0
    requires 0.0 < r
    requires i < |rows|
    ensures (FirstReaching(rows, r) == Some(i))
              <==> (PrefixSum(rows, i) as real < r <= RunningSum(rows, i) as real)
  {
    assert rows[..0] == [];
    if FirstReaching(rows, r) == Some(i) && i > 0 {
      assert RunningSum(rows, i - 1) as real < r;
    }
    if PrefixSum(rows, i) as real < r <= RunningSum(rows, i) as real {
      forall j | 0 <= j < i ensures RunningSum(rows, j) as real < r {
        PrefixSumMonotone(rows, j + 1, i);
      }
      assert IsFirstReaching(rows, r, i);
      assert !(RunningSum(rows, i) as real < r);
    }
  }

  /** On the seeded table (total 100) the walk maps a draw in `(0, 50]` to
      'normal', `(50, 80]` to 'common', `(80, 95]` to 'rare' and `(95, 100)` to
      'superrare'; 'bonus' is never drawn. */
  lemma SeedWeightBands(r: real)
    requires 0.0 < r < 100.0
    ensures SumWeights(SeedWeights) == 100
    ensures r <= 50.0 ==> PickRarityOf(SeedWeights, r) == "normal"
    ensures 50.0 < r <= 80.0 ==> PickRarityOf(SeedWeights, r) == "common"
    ensures 80.0 < r <= 95.0 ==> PickRarityOf(SeedWeights, r) == "rare"
    ensures 95.0 < r ==> PickRarityOf(SeedWeights, r) == "superrare"
  {
    var s := SeedWeights;
    assert s[..0] == [];
    assert s[..1][..0] == s[..0];
    assert s[..2][..1] == s[..1];
    assert s[..3][..2] == s[..2];
    assert s[..4][..3] == s[..3];
    assert s[..5][..4] == s[..4];
    assert PrefixSum(s, 1) == 50;
    assert PrefixSum(s, 2) == 80;
    assert PrefixSum(s, 3) == 95;
    assert PrefixSum(s, 4) == 100;
    assert s[..5] == s;
    if r <= 50.0 {
      WalkInterval(s, r, 0);
    } else if r <= 80.0 {
      WalkInterval(s, r, 1);
    } else if r <= 95.0 {
      WalkInterval(s, r, 2);
    } else {
      WalkInterval(s, r, 3);
    }
  }

  /** A draw of exactly 0 stops at the first row even when that row has
      weight 0: positivity of the draw is what keeps zero-weight rows out. */
  lemma ZeroDrawStopsAtFirstRow(rows: seq<RarityWeight>)
    requires |rows| > 0 && rows[0].weight >= 0
    ensures FirstReaching(rows, 0.0) == Some(0)
  {
    PrefixSumStep(rows, 0);
    assert rows[..0] == [];
  }

  /** The `prizes` table keyed by `INTEGER PRIMARY KEY AUTOINCREMENT`: rows
      in ascending id order, each id once. */
  ghost predicate IdsAscending(prizes: seq<PrizeRow>)
  {
    forall i, j :: 0 <= i < j < |prizes| ==> prizes[i].id < prizes[j].id
  }

  /** The prizes `SELECT * FROM prizes WHERE rarity=? AND enabled=1` returns,
      in table order: over a table with ascending ids the result is again in
      ascending id order, so it holds each matching row exactly once. */
  function Candidates(prizes: seq<PrizeRow>, rarity: string): (list: seq<PrizeRow>)
    ensures forall p :: p in list <==> p in prizes && p.enabled && p.rarity == rarity
    ensures |list| <= |prizes|
    ensures IdsAscending(prizes) ==> IdsAscending(list)
  {
    if prizes == [] then []
    else
      var rest := Candidates(prizes[1..], rarity);
      assert forall p :: p in prizes <==> p == prizes[0] || p in prizes[1..];
      if prizes[0].enabled && prizes[0].rarity == rarity then [prizes[0]] + rest else rest
  }

  /** Some enabled prize of `rarity` exists. */
  ghost predicate HasCandidate(prizes: seq<PrizeRow>, rarity: string)
  {
    exists p :: p in prizes && p.enabled && p.rarity == rarity
  }

  /** `pickPrizeByRarity(rarity)`: a uniformly drawn enabled prize of that
      rarity, or null when there is none. */
  function PickPrizeByRarity(prizes: seq<PrizeRow>, rarity: string, u: real): (r: Option<PrizeRow>)
    requires 0.0 <= u < 1.0
    ensures r.Some? ==> r.value in prizes && r.value.enabled && r.value.rarity == rarity
    ensures r.None? <==> !HasCandidate(prizes, rarity)
  {
    var list := Candidates(prizes, rarity);
    if |list| == 0 then None
    else
      var p := list[RandomIndex(u, |list|)];
      assert p in list;
      Some(p)
  }

  /** Each candidate is drawn for a band of `u` of width `1 / n`, `n` the
      number of candidates: the pick is uniform. */
  lemma UniformPrizeDraw(prizes: seq<PrizeRow>, rarity: string, u: real, n: nat, k: nat)
    requires 0.0 <= u < 1.0
    requires n == |Candidates(prizes, rarity)| && k < n
    requires k as real <= u * n as real < k as real + 1.0
    ensures PickPrizeByRarity(prizes, rarity, u) == Some(Candidates(prizes, rarity)[k])
  {
    RandomIndexBand(u, n, k);
    PickAtIndex(prizes, rarity, u, k);
  }

  /** Over a table with ascending ids, an enabled prize of the rarity sits at
      exactly one index of the query result. */
  lemma CandidateAtOneIndex(prizes: seq<PrizeRow>, rarity: string, p: PrizeRow) returns (k: nat)
    requires IdsAscending(prizes)
    requires p in prizes && p.enabled && p.rarity == rarity
    ensures k < |Candidates(prizes, rarity)| && Candidates(prizes, rarity)[k] == p
    ensures forall j :: 0 <= j < |Candidates(prizes, rarity)| && Candidates(prizes, rarity)[j] == p ==> j == k
  {
    var list := Candidates(prizes, rarity);
    k :| 0 <= k < |list| && list[k] == p;
    AscendingRowsDistinct(list);
  }

  lemma AscendingRowsDistinct(prizes: seq<PrizeRow>)
    requires IdsAscending(prizes)
    ensures forall i, j :: 0 <= i < |prizes| && 0 <= j < |prizes| && prizes[i] == prizes[j] ==> i == j
  {
  }

  /** Each enabled prize of the rarity is drawn on exactly one band of `u` of
      width `1 / n`, `n` the number of candidates: the pick is uniform over
      prizes, not only over positions of the query result. */
  lemma EachPrizeOneBand(prizes: seq<PrizeRow>, rarity: string, u: real, n: nat, p: PrizeRow)
    requires 0.0 <= u < 1.0
    requires IdsAscending(prizes)
    requires p in prizes && p.enabled && p.rarity == rarity
    requires n == |Candidates(prizes, rarity)|
    ensures exists k: nat ::
              && k < n && Candidates(prizes, rarity)[k] == p
              && (forall j :: 0 <= j < n && Candidates(prizes, rarity)[j] == p ==> j == k)
              && (PickPrizeByRarity(prizes, rarity, u) == Some(p) <==> k as real <= u * n as real < k as real + 1.0)
  {
    var list := Candidates(prizes, rarity);
    var k := CandidateAtOneIndex(prizes, rarity, p);
    var r := RandomIndex(u, n);
    PickAtIndex(prizes, rarity, u, r);
    assert PickPrizeByRarity(prizes, rarity, u) == Some(p) <==> r == k by {
      assert list[r] == p <==> r == k;
    }
    RandomIndexIff(u, n, k);
  }

  lemma PickAtIndex(prizes: seq<PrizeRow>, rarity: string, u: real, k: nat)
    requires 0.0 <= u < 1.0
    requires k < |Candidates(prizes, rarity)|
    requires RandomIndex(u, |Candidates(prizes, rarity)|) == k
    ensures PickPrizeByRarity(prizes, rarity, u) == Some(Candidates(prizes, rarity)[k])
  {
  }

  /** The prize a spin draws: a rarity by weight (draw `u1`), a prize of it
      (draw `u2`), and, only when that rarity has no enabled prize and is not
      'normal' itself, one retry among the 'normal' prizes (draw `u3`). */
  function DrawPrize(rows: seq<RarityWeight>, prizes: seq<PrizeRow>, u1: real, u2: real, u3: real): (r: Option<PrizeRow>)
    requires 0.0 <= u2 < 1.0 && 0.0 <= u3 < 1.0
    ensures r.Some? ==> r.value in prizes && r.value.enabled
    ensures r.Some? ==>
              || r.value.rarity == DrawnRarity(rows, u1)
              || (r.value.rarity == Normal && !HasCandidate(prizes, DrawnRarity(rows, u1)))
    ensures r.None? <==> !HasCandidate(prizes, DrawnRarity(rows, u1)) && !HasCandidate(prizes, Normal)
  {
    var rarity := DrawnRarity(rows, u1);
    var first := PickPrizeByRarity(prizes, rarity, u2);
    if first.None? && rarity != Normal then PickPrizeByRarity(prizes, Normal, u3) else first
  }
}
