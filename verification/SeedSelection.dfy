/** Weighted choice of a seed endpoint. */
module SeedSelection {
  import opened Results

  datatype Entry = Entry(endpoint: string, weight: nat)

  function Total(entries: seq<Entry>): nat {
    if entries == [] then 0 else Total(entries[..|entries| - 1]) + entries[|entries| - 1].weight
  }

  /** The entry whose stretch of the running total covers the pick. */
  ghost predicate Covers(entries: seq<Entry>, pick: nat, i: nat) {
    i < |entries| && Total(entries[..i]) <= pick < Total(entries[..i]) + entries[i].weight
  }

  lemma {:induction false} PrefixTotal(entries: seq<Entry>, i: nat)
    requires i < |entries|
    ensures Total(entries[..i + 1]) == Total(entries[..i]) + entries[i].weight
  {
    assert entries[..i + 1][..i] == entries[..i];
  }

  lemma {:induction false} TotalMonotone(entries: seq<Entry>, i: nat, j: nat)
    requires i <= j <= |entries|
    ensures Total(entries[..i]) <= Total(entries[..j])
    decreases j - i
  {
    if i < j {
      TotalMonotone(entries, i, j - 1);
      PrefixTotal(entries, j - 1);
    }
  }

  /** Every pick below the total falls in the stretch of exactly one entry. */
  lemma {:induction false} ExactlyOne(entries: seq<Entry>, pick: nat) returns (i: nat)
    requires pick < Total(entries)
    ensures Covers(entries, pick, i)
    ensures forall j: nat :: Covers(entries, pick, j) ==> j == i
    decreases |entries|
  {
    var n := |entries| - 1;
    var rest := entries[..n];
    assert entries[..|entries|] == entries;
    if pick < Total(rest) {
      i := ExactlyOne(rest, pick);
      assert rest[..i] == entries[..i];
    } else {
      i := n;
    }
    forall j: nat | Covers(entries, pick, j) ensures j == i {
      if j < i {
        TotalMonotone(entries, j + 1, i);
        PrefixTotal(entries, j);
      } else if i < j {
        TotalMonotone(entries, i + 1, j);
        PrefixTotal(entries, i);
      }
    }
  }

  predicate Within(p: nat, lo: nat, n: nat) { lo <= p < lo + n }

  lemma {:induction false} IntervalSize(lo: nat, n: nat, s: set<nat>)
    requires forall p: nat :: p in s <==> Within(p, lo, n)
    ensures |s| == n
    decreases n
  {
    if n > 0 {
      var last := lo + n - 1;
      assert Within(last, lo, n);
      forall p: nat ensures p in s - {last} <==> Within(p, lo, n - 1) {
        assert p in s <==> Within(p, lo, n);
      }
      IntervalSize(lo, n - 1, s - {last});
    } else {
      assert s == {};
    }
  }

  /** Among the picks below the total, as many choose an entry as its weight says. */
  lemma PickCount(entries: seq<Entry>, i: nat)
    requires i < |entries|
    ensures |set p: nat | p < Total(entries) && Covers(entries, p, i)| == entries[i].weight
  {
    var lo := Total(entries[..i]);
    PrefixTotal(entries, i);
    TotalMonotone(entries, i + 1, |entries|);
    assert entries[..|entries|] == entries;
    var s := set p: nat | p < Total(entries) && Covers(entries, p, i);
    IntervalSize(lo, entries[i].weight, s);
  }

  /** The drawn number reduced to a pick. */
  function Pick(rand: nat, total: nat): (p: nat)
    requires total > 0
    ensures p < total && p <= rand
    ensures rand < total ==> p == rand
  {
    rand % total
  }

  /**
   * With a generator that returns the numbers below limit, an entry can be chosen exactly when it has
   * weight and its stretch starts below the limit.
   */
  lemma Reachable(entries: seq<Entry>, i: nat, limit: nat)
    requires i < |entries| && Total(entries) > 0
    ensures (exists r: nat :: r < limit && Covers(entries, Pick(r, Total(entries)), i))
            <==> entries[i].weight > 0 && Total(entries[..i]) < limit
  {
    hide Pick;
    var total := Total(entries);
    var lo := Total(entries[..i]);
    PrefixTotal(entries, i);
    TotalMonotone(entries, i + 1, |entries|);
    assert entries[..|entries|] == entries;
    if entries[i].weight > 0 && lo < limit {
      assert lo < limit && Covers(entries, Pick(lo, total), i);
    }
    forall r: nat | r < limit && Covers(entries, Pick(r, total), i) ensures entries[i].weight > 0 && lo < limit {}
  }

  // ---------- how many draws choose an entry

  lemma MulBig(t: nat, d: int)
    ensures d >= 1 ==> t * d >= t
    ensures d <= -1 ==> t * d + t <= 0
  {}

  lemma DivMod(q: nat, s: nat, t: nat)
    requires s < t
    ensures (q * t + s) / t == q && (q * t + s) % t == s
  {
    var x := q * t + s;
    assert t * (q - x / t) == x % t - s;
    MulBig(t, q - x / t);
  }

  /** How often the whole range of picks fits below limit; Pick(limit, total) draws are left over. */
  function Rounds(limit: nat, total: nat): (q: nat)
    requires total > 0
    ensures limit == q * total + Pick(limit, total)
  {
    limit / total
  }

  ghost predicate Chosen(entries: seq<Entry>, rand: nat, i: nat) {
    Total(entries) > 0 && Covers(entries, Pick(rand, Total(entries)), i)
  }

  /** The draws below limit that choose entry i. */
  ghost function Draws(entries: seq<Entry>, i: nat, limit: nat): set<nat> {
    set r: nat | r < limit && Chosen(entries, r, i)
  }

  /** How much of the first s picks falls in a stretch of n picks from lo on. */
  function Overlap(s: nat, lo: nat, n: nat): nat { if s <= lo then 0 else if s <= lo + n then s - lo else n }

  lemma DrawsNext(entries: seq<Entry>, i: nat, r: nat)
    ensures |Draws(entries, i, r + 1)| == |Draws(entries, i, r)| + (if Chosen(entries, r, i) then 1 else 0)
  {
    hide Chosen;
    assert Draws(entries, i, r + 1) == Draws(entries, i, r) + (if Chosen(entries, r, i) then {r} else {});
  }

  lemma Times(q: nat, t: nat)
    requires q > 0
    ensures q * t == (q - 1) * t + t
  {}

  /** q full rounds of picks and s more. */
  lemma {:induction false} DrawsInRounds(entries: seq<Entry>, i: nat, q: nat, s: nat)
    requires i < |entries| && 0 < Total(entries) && s <= Total(entries)
    ensures |Draws(entries, i, q * Total(entries) + s)| ==
      q * entries[i].weight + Overlap(s, Total(entries[..i]), entries[i].weight)
    decreases q, s
  {
    var total, w, lo := Total(entries), entries[i].weight, Total(entries[..i]);
    hide Total, Draws, Pick;
    if s > 0 {
      var r := q * total + (s - 1);
      DrawsInRounds(entries, i, q, s - 1);
      DrawsNext(entries, i, r);
      PickInRound(q, s - 1, total);
    } else if q > 0 {
      Times(q, total);
      Times(q, w);
      DrawsInRounds(entries, i, q - 1, total);
      PrefixTotal(entries, i);
      TotalMonotone(entries, i + 1, |entries|);
      assert entries[..|entries|] == entries;
    } else {
      NoDraws(entries, i);
    }
  }

  lemma PickInRound(q: nat, s: nat, total: nat)
    requires s < total
    ensures Pick(q * total + s, total) == s
  {
    DivMod(q, s, total);
  }

  lemma NoDraws(entries: seq<Entry>, i: nat)
    ensures Draws(entries, i, 0) == {}
  {}

  /** Every full round chooses an entry as often as its weight says; the rest goes to the first entries. */
  lemma DrawCount(entries: seq<Entry>, i: nat, limit: nat)
    requires i < |entries| && Total(entries) > 0
    ensures |Draws(entries, i, limit)| ==
      Rounds(limit, Total(entries)) * entries[i].weight
      + Overlap(Pick(limit, Total(entries)), Total(entries[..i]), entries[i].weight)
  {
    hide Draws, Total, Pick, Rounds;
    DrawsInRounds(entries, i, Rounds(limit, Total(entries)), Pick(limit, Total(entries)));
  }

  /** Entry i gets its fair part of the draws below limit. */
  ghost predicate Fair(entries: seq<Entry>, i: nat, limit: nat)
    requires i < |entries|
  {
    |Draws(entries, i, limit)| * Total(entries) == entries[i].weight * limit
  }

  lemma Scale(q: nat, w: nat, o: nat, total: nat, s: nat)
    ensures (q * w + o) * total == w * (q * total + s) <==> o * total == w * s
  {
    assert (q * w + o) * total == q * w * total + o * total;
    assert w * (q * total + s) == q * w * total + w * s;
  }

  /** Fairness is a matter of the incomplete round only. */
  lemma FairRest(entries: seq<Entry>, i: nat, limit: nat)
    requires i < |entries| && Total(entries) > 0
    ensures Fair(entries, i, limit) <==>
      Overlap(Pick(limit, Total(entries)), Total(entries[..i]), entries[i].weight) * Total(entries)
      == entries[i].weight * Pick(limit, Total(entries))
  {
    hide Draws, Total, Overlap, Pick, Rounds;
    var total, w := Total(entries), entries[i].weight;
    DrawCount(entries, i, limit);
    Scale(Rounds(limit, total), w, Overlap(Pick(limit, total), Total(entries[..i]), w), total, Pick(limit, total));
  }

  /**
   * Every entry gets its fair part exactly when no draws are left over or a single entry has all the weight.
   */
  lemma FairIff(entries: seq<Entry>, limit: nat)
    requires Total(entries) > 0
    ensures (forall i :: 0 <= i < |entries| ==> Fair(entries, i, limit)) <==>
      Pick(limit, Total(entries)) == 0 || exists i :: 0 <= i < |entries| && entries[i].weight == Total(entries)
  {
    hide Total, Fair, Pick, Overlap;
    var total := Total(entries);
    var s := Pick(limit, total);
    var first := ExactlyOne(entries, 0);
    FairRest(entries, first, limit);
    FirstUnfair(s, entries[first].weight, total);
    if s == 0 || exists i :: 0 <= i < |entries| && entries[i].weight == total {
      forall i | 0 <= i < |entries| ensures Fair(entries, i, limit) {
        FairRest(entries, i, limit);
        NothingLeft(Total(entries[..i]), entries[i].weight, total);
        if s != 0 {
          var all :| 0 <= all < |entries| && entries[all].weight == total;
          AllTheWeight(entries, all, i);
          AllOrNothing(s, entries[i].weight, total);
        }
      }
    }
  }

  lemma FirstUnfair(s: nat, w: nat, total: nat)
    requires s < total && 0 < w
    ensures Overlap(s, 0, w) * total == w * s ==> s == 0 || w == total
  {
    if 0 < s <= w {
      assert s * total == w * s ==> total == w;
    } else if s > w {
      assert w * total > w * s;
    }
  }

  lemma NothingLeft(lo: nat, w: nat, total: nat)
    ensures Overlap(0, lo, w) * total == w * 0
  {}

  lemma AllOrNothing(s: nat, w: nat, total: nat)
    requires s < total
    ensures w == total ==> Overlap(s, 0, w) * total == w * s
    ensures w == 0 ==> forall lo :: Overlap(s, lo, w) * total == w * s
  {}

  /** When one entry has all the weight its stretch starts at 0 and the others are empty. */
  lemma AllTheWeight(entries: seq<Entry>, all: nat, i: nat)
    requires all < |entries| && i < |entries| && entries[all].weight == Total(entries)
    ensures if i == all then Total(entries[..i]) == 0 else entries[i].weight == 0
  {
    hide Total;
    assert entries[..|entries|] == entries;
    PrefixTotal(entries, all);
    PrefixTotal(entries, i);
    TotalMonotone(entries, all + 1, |entries|);
    if i < all {
      TotalMonotone(entries, i + 1, all);
    } else if all < i {
      TotalMonotone(entries, all + 1, i);
      TotalMonotone(entries, i + 1, |entries|);
    }
  }

  /** The two loops over the list; the drawn number is a parameter. */
  method SelectBest(entries: seq<Entry>, rand: nat) returns (r: Result<Entry>, ghost at: nat)
    ensures entries == [] <==> r == Err(404)
    ensures entries != [] ==> at < |entries| && r == Ok(entries[at])
    ensures entries != [] && Total(entries) == 0 ==> at == 0
    ensures Total(entries) > 0 ==> Covers(entries, Pick(rand, Total(entries)), at)
  {
    at := 0;
    if entries == [] {
      return Err(404), 0;
    }
    assert entries[..|entries|] == entries;
    var total := 0;
    for k := 0 to |entries|
      invariant total == Total(entries[..k])
    {
      PrefixTotal(entries, k);
      total := total + entries[k].weight;
    }
    if total == 0 {
      return Ok(entries[0]), 0;
    }
    var pick := rand % total;
    var accum := 0;
    for k := 0 to |entries|
      invariant accum == Total(entries[..k]) && accum <= pick
    {
      PrefixTotal(entries, k);
      accum := accum + entries[k].weight;
      if pick < accum {
        return Ok(entries[k]), k;
      }
    }
    assert false;
  }
}
