/**
 * The domain selector of the SDK (mail2sdk.go, `DomainSelector`): a table
 * of per-domain usage counts and a least-used-first choice with a random
 * tie-break. The pure functions below say what one selection does to the
 * table; the class performs it in place, as the Go methods do.
 */
module DomainSelection {
  import opened AsciiStrings

  /** The usage counter table: domain to number of selections. */
  type Counters = map<Domain, int>

  /** A domain's count, an absent domain counting as 0. */
  function Count(m: Counters, d: Domain): int
  {
    if d in m then m[d] else 0
  }

  predicate NonNegative(m: Counters)
  {
    forall d :: d in m ==> m[d] >= 0
  }

  /** The table after the first loop of `selectDomain` has entered every unseen domain with 0. */
  function Materialize(m: Counters, ds: seq<Domain>): Counters
    decreases |ds|
  {
    if ds == [] then m
    else
      var r0 := Materialize(m, ds[..|ds| - 1]);
      var last := ds[|ds| - 1];
      if last in r0 then r0 else r0[last := 0]
  }

  /** Entering unseen domains adds exactly the candidates as keys and changes no count. */
  lemma {:induction false} MaterializeSpec(m: Counters, ds: seq<Domain>)
    ensures forall d :: d in Materialize(m, ds) <==> d in m || d in ds
    ensures forall d :: d in Materialize(m, ds) ==> Materialize(m, ds)[d] == Count(m, d)
    decreases |ds|
  {
    if ds != [] {
      var init := ds[..|ds| - 1];
      MaterializeSpec(m, init);
      assert ds == init + [ds[|ds| - 1]];
    }
  }

  /** The least count over `ds`. */
  function MinCount(m: Counters, ds: seq<Domain>): int
    requires |ds| > 0
    decreases |ds|
  {
    if |ds| == 1 then Count(m, ds[0])
    else
      var r0 := MinCount(m, ds[..|ds| - 1]);
      var c := Count(m, ds[|ds| - 1]);
      if c < r0 then c else r0
  }

  /** `MinCount` is a count of some candidate and no candidate has less. */
  lemma {:induction false} MinCountIsLeast(m: Counters, ds: seq<Domain>)
    requires |ds| > 0
    ensures forall i :: 0 <= i < |ds| ==> MinCount(m, ds) <= Count(m, ds[i])
    ensures exists i :: 0 <= i < |ds| && Count(m, ds[i]) == MinCount(m, ds)
    decreases |ds|
  {
    var n := |ds|;
    if n == 1 {
      assert Count(m, ds[0]) == MinCount(m, ds);
    } else {
      var init := ds[..n - 1];
      MinCountIsLeast(m, init);
      var i :| 0 <= i < |init| && Count(m, init[i]) == MinCount(m, init);
      if Count(m, ds[n - 1]) < MinCount(m, init) {
        assert Count(m, ds[n - 1]) == MinCount(m, ds);
      } else {
        assert ds[i] == init[i];
        assert Count(m, ds[i]) == MinCount(m, ds);
      }
      forall k | 0 <= k < n
        ensures MinCount(m, ds) <= Count(m, ds[k])
      {
        if k < n - 1 {
          assert ds[k] == init[k];
        }
      }
    }
  }

  /** The domains of `ds` whose count is `k`, in order (repetitions kept). */
  function TiesAt(m: Counters, ds: seq<Domain>, k: int): seq<Domain>
    decreases |ds|
  {
    if ds == [] then []
    else
      var last := ds[|ds| - 1];
      TiesAt(m, ds[..|ds| - 1], k) + (if Count(m, last) == k then [last] else [])
  }

  /** `TiesAt` keeps exactly the candidates whose count is `k`. */
  lemma {:induction false} TiesAtMembers(m: Counters, ds: seq<Domain>, k: int)
    ensures forall d :: d in TiesAt(m, ds, k) <==> d in ds && Count(m, d) == k
    decreases |ds|
  {
    if ds != [] {
      var init := ds[..|ds| - 1];
      TiesAtMembers(m, init, k);
      assert ds == init + [ds[|ds| - 1]];
    }
  }

  /** The tie set: the least-used domains of `ds`. */
  function Ties(m: Counters, ds: seq<Domain>): seq<Domain>
    requires |ds| > 0
  {
    TiesAt(m, ds, MinCount(m, ds))
  }

  /** The tie set holds exactly the candidates of least count, so it is never empty. */
  lemma TiesAreLeastUsed(m: Counters, ds: seq<Domain>)
    requires |ds| > 0
    ensures |Ties(m, ds)| > 0
    ensures forall d :: d in Ties(m, ds) <==> d in ds && Count(m, d) == MinCount(m, ds)
  {
    MinCountIsLeast(m, ds);
    TiesAtMembers(m, ds, MinCount(m, ds));
    var i :| 0 <= i < |ds| && Count(m, ds[i]) == MinCount(m, ds);
    assert ds[i] in Ties(m, ds);
  }

  /** The domain `selectDomain` returns when the random draw is `roll`. */
  function Pick(m: Counters, ds: seq<Domain>, roll: nat): (r: Domain)
    ensures |ds| == 0 ==> r == []
    ensures |ds| > 0 ==> r in ds
  {
    if |ds| == 0 then []
    else if |ds| == 1 then ds[0]
    else
      var t := Ties(m, ds);
      TiesAreLeastUsed(m, ds);
      t[roll % |t|]
  }

  /**
   * Among two or more candidates the selected domain is one of them and
   * has the least pre-call count: no candidate was used less.
   */
  lemma PickIsLeastUsed(m: Counters, ds: seq<Domain>, roll: nat)
    requires |ds| >= 2
    ensures Pick(m, ds, roll) in ds
    ensures Count(m, Pick(m, ds, roll)) == MinCount(m, ds)
    ensures forall i :: 0 <= i < |ds| ==> Count(m, Pick(m, ds, roll)) <= Count(m, ds[i])
  {
    TiesAreLeastUsed(m, ds);
    MinCountIsLeast(m, ds);
    var t := Ties(m, ds);
    assert t[roll % |t|] in t;
  }

  /** The counter table after `selectDomain` returned `Pick(m, ds, roll)`. */
  function After(m: Counters, ds: seq<Domain>, roll: nat): (r: Counters)
    ensures |ds| <= 1 ==> r == m
    ensures |ds| >= 2 ==> Pick(m, ds, roll) in r && r[Pick(m, ds, roll)] == Count(m, Pick(m, ds, roll)) + 1
  {
    if |ds| <= 1 then m
    else
      var base := Materialize(m, ds);
      var p := Pick(m, ds, roll);
      MaterializeSpec(m, ds);
      PickIsLeastUsed(m, ds, roll);
      base[p := base[p] + 1]
  }

  /** What a selection among two or more domains computes, step by step. */
  lemma SelectionUnfold(m: Counters, ds: seq<Domain>, roll: nat)
    requires |ds| >= 2
    ensures var t, base, p := Ties(m, ds), Materialize(m, ds), Pick(m, ds, roll);
      && |t| > 0
      && p == t[roll % |t|]
      && p in base
      && After(m, ds, roll) == base[p := base[p] + 1]
  {
    MaterializeSpec(m, ds);
    PickIsLeastUsed(m, ds, roll);
    TiesAreLeastUsed(m, ds);
  }

  /** Zero or one candidate: nothing is entered and nothing is counted. */
  lemma FastPathKeepsTable(m: Counters, ds: seq<Domain>, roll: nat)
    requires |ds| <= 1
    ensures After(m, ds, roll) == m
    ensures |ds| == 0 ==> Pick(m, ds, roll) == []
    ensures |ds| == 1 ==> Pick(m, ds, roll) == ds[0]
  {
  }

  /**
   * The frame of a selection among two or more domains: every candidate
   * is in the table afterwards, the chosen one counts exactly one more,
   * and every other key keeps its count (0 for a newly entered one).
   */
  lemma {:induction false} SelectionFrame(m: Counters, ds: seq<Domain>, roll: nat)
    requires |ds| >= 2
    ensures var r, p := After(m, ds, roll), Pick(m, ds, roll);
      && (forall d :: d in r <==> d in m || d in ds)
      && r[p] == Count(m, p) + 1
      && (forall d :: d in r && d != p ==> r[d] == Count(m, d))
      && (forall d :: d in r && d !in m && d != p ==> r[d] == 0)
  {
    SelectionUnfold(m, ds, roll);
    MaterializeSpec(m, ds);
  }

  /** A selection keeps every count non-negative, so -1 is never a real count. */
  lemma {:induction false} SelectionKeepsNonNegative(m: Counters, ds: seq<Domain>, roll: nat)
    requires NonNegative(m)
    ensures NonNegative(After(m, ds, roll))
  {
    if |ds| >= 2 {
      SelectionFrame(m, ds, roll);
      var r := After(m, ds, roll);
      forall d | d in r
        ensures r[d] >= 0
      {
      }
    }
  }

  /** Counts never go down under selection. */
  lemma {:induction false} SelectionMonotone(m: Counters, ds: seq<Domain>, roll: nat, d: Domain)
    ensures Count(m, d) <= Count(After(m, ds, roll), d)
  {
    if |ds| >= 2 {
      SelectionFrame(m, ds, roll);
    }
  }

  /** Every least-used candidate is the result of some random draw. */
  lemma {:induction false} EveryTieReachable(m: Counters, ds: seq<Domain>, d: Domain)
    requires |ds| >= 2 && d in ds && Count(m, d) == MinCount(m, ds)
    ensures exists roll: nat :: Pick(m, ds, roll) == d
  {
    var t := Ties(m, ds);
    TiesAreLeastUsed(m, ds);
    assert d in t;
    var i :| 0 <= i < |t| && t[i] == d;
    assert i % |t| == i;
    assert Pick(m, ds, i) == t[i % |t|];
  }

  /** No two candidates' counts differ by more than one. */
  predicate Balanced(m: Counters, ds: seq<Domain>)
  {
    forall a, b :: a in ds && b in ds ==> Count(m, a) <= Count(m, b) + 1
  }

  /** Selecting again from the same candidates keeps them balanced. */
  lemma {:induction false} SelectionKeepsBalance(m: Counters, ds: seq<Domain>, roll: nat)
    requires Balanced(m, ds)
    ensures Balanced(After(m, ds, roll), ds)
  {
    if |ds| >= 2 {
      SelectionFrame(m, ds, roll);
      PickIsLeastUsed(m, ds, roll);
      var r, p := After(m, ds, roll), Pick(m, ds, roll);
      forall a, b | a in ds && b in ds
        ensures Count(r, a) <= Count(r, b) + 1
      {
        var k :| 0 <= k < |ds| && ds[k] == b;
        assert Count(r, a) == if a == p then Count(m, a) + 1 else Count(m, a);
        assert Count(r, b) == if b == p then Count(m, b) + 1 else Count(m, b);
      }
    }
  }

  /** The table after one selection from `ds` per draw in `rolls`. */
  function Run(m: Counters, ds: seq<Domain>, rolls: seq<nat>): Counters
    decreases |rolls|
  {
    if rolls == [] then m else Run(After(m, ds, rolls[0]), ds, rolls[1..])
  }

  /**
   * From a fresh (empty) table, however many selections from the same
   * candidates are made and whatever the draws, no candidate's count
   * exceeds another's by more than one.
   */
  lemma {:induction false} RunFromFreshIsBalanced(ds: seq<Domain>, rolls: seq<nat>)
    ensures Balanced(Run(map[], ds, rolls), ds)
  {
    RunKeepsBalance(map[], ds, rolls);
  }

  lemma {:induction false} RunKeepsBalance(m: Counters, ds: seq<Domain>, rolls: seq<nat>)
    requires Balanced(m, ds)
    ensures Balanced(Run(m, ds, rolls), ds)
    decreases |rolls|
  {
    if rolls != [] {
      SelectionKeepsBalance(m, ds, rolls[0]);
      RunKeepsBalance(After(m, ds, rolls[0]), ds, rolls[1..]);
    }
  }

  /**
   * The selector object. Its map is updated in place; each method is one
   * atomic step (the Go mutex only serialises them).
   */
  class DomainSelector {
    var counters: Counters

    ghost predicate Valid()
      reads this
    {
      NonNegative(counters)
    }

    /** The table starts empty. */
    constructor ()
      ensures Valid() && counters == map[]
    {
      counters := map[];
    }

    /**
     * `selectDomain`: `roll` is the random draw, reduced modulo the size of
     * the tie set as `Intn` would.
     */
    method SelectDomain(domains: seq<Domain>, roll: nat) returns (selected: Domain)
      requires Valid()
      modifies this
      ensures Valid()
      ensures selected == Pick(old(counters), domains, roll)
      ensures counters == After(old(counters), domains, roll)
    {
      if |domains| == 0 {
        return [];
      }
      if |domains| == 1 {
        return domains[0];
      }
      ghost var before := counters;

      var i := 0;
      while i < |domains|
        invariant 0 <= i <= |domains|
        invariant counters == Materialize(before, domains[..i])
      {
        var domain := domains[i];
        if domain !in counters {
          counters := counters[domain := 0];
        }
        assert domains[..i + 1] == domains[..i] + [domains[i]];
        i := i + 1;
      }
      assert domains[..|domains|] == domains;

      MaterializeCovers(before, domains);
      var candidates := LeastUsed(counters, before, domains);
      SelectionUnfold(before, domains, roll);
      selected := candidates[roll % |candidates|];
      counters := counters[selected := counters[selected] + 1];
      SelectionKeepsNonNegative(before, domains, roll);
    }

    /** `resetCounter`: drops `domain`'s entry, if any; nothing else changes. */
    method ResetCounter(domain: Domain)
      requires Valid()
      modifies this
      ensures Valid()
      ensures counters == old(counters) - {domain}
      ensures domain !in counters
      ensures forall d :: d != domain ==> Count(counters, d) == Count(old(counters), d)
    {
      counters := counters - {domain};
    }

    /** `getStats`: an entry-by-entry copy of the table; the table is not changed. */
    method GetStats() returns (stats: Counters)
      ensures stats == counters
    {
      stats := map[];
      var rest := counters.Keys;
      while rest != {}
        invariant rest <= counters.Keys
        invariant forall k :: k in stats <==> k in counters && k !in rest
        invariant forall k :: k in stats ==> stats[k] == counters[k]
        decreases rest
      {
        var k :| k in rest;
        stats := stats[k := counters[k]];
        rest := rest - {k};
      }
      assert stats.Keys == counters.Keys;
    }

    /** `ResetDomainStats`: replaces the table with an empty one. */
    method ResetDomainStats()
      modifies this
      ensures Valid()
      ensures counters == map[]
    {
      counters := map[];
    }
  }

  /** One iteration of the minimum scan of `selectDomain` extends its result by one domain. */
  lemma ScanStep(m: Counters, ds: seq<Domain>, j: int, count: int,
                 minCount: int, candidates: seq<Domain>, newMin: int, newCandidates: seq<Domain>)
    requires NonNegative(m) && 0 <= j < |ds| && count == Count(m, ds[j])
    requires j == 0 ==> minCount == -1 && candidates == []
    requires j > 0 ==> minCount == MinCount(m, ds[..j]) && candidates == TiesAt(m, ds[..j], minCount)
    requires newMin == if minCount == -1 || count < minCount then count else minCount
    requires newCandidates == if minCount == -1 || count < minCount then [ds[j]]
                              else if count == minCount then candidates + [ds[j]]
                              else candidates
    ensures newMin == MinCount(m, ds[..j + 1])
    ensures newCandidates == TiesAt(m, ds[..j + 1], newMin)
  {
    var prefix := ds[..j + 1];
    assert prefix[..j] == ds[..j];
    assert prefix[j] == ds[j];
    if j > 0 {
      MinCountNonNegative(m, ds[..j]);
      if count < minCount {
        TiesBelowMinEmpty(m, ds[..j], count);
      }
    }
  }

  /**
   * The second loop of `selectDomain`: one pass that keeps the least count
   * seen so far (-1 before the first domain) and the domains that have it.
   */
  method LeastUsed(table: Counters, ghost base: Counters, domains: seq<Domain>) returns (candidates: seq<Domain>)
    requires NonNegative(base) && |domains| > 0
    requires forall i :: 0 <= i < |domains| ==> domains[i] in table && table[domains[i]] == Count(base, domains[i])
    ensures candidates == Ties(base, domains)
  {
    var minCount := -1;
    candidates := [];
    var j := 0;
    while j < |domains|
      invariant 0 <= j <= |domains|
      invariant j == 0 ==> minCount == -1 && candidates == []
      invariant j > 0 ==> minCount == MinCount(base, domains[..j])
      invariant j > 0 ==> candidates == TiesAt(base, domains[..j], minCount)
    {
      var domain := domains[j];
      var count := table[domain];
      ghost var prevMin, prevCandidates := minCount, candidates;
      if minCount == -1 || count < minCount {
        minCount := count;
        candidates := [domain];
      } else if count == minCount {
        candidates := candidates + [domain];
      }
      ScanStep(base, domains, j, count, prevMin, prevCandidates, minCount, candidates);
      j := j + 1;
    }
    assert domains[..|domains|] == domains;
  }

  /** Every candidate is in the table once unseen domains have been entered, with its old count. */
  lemma MaterializeCovers(m: Counters, ds: seq<Domain>)
    ensures forall i :: 0 <= i < |ds| ==> ds[i] in Materialize(m, ds) && Materialize(m, ds)[ds[i]] == Count(m, ds[i])
  {
    MaterializeSpec(m, ds);
  }

  lemma MinCountNonNegative(m: Counters, ds: seq<Domain>)
    requires NonNegative(m) && |ds| > 0
    ensures MinCount(m, ds) >= 0
  {
    MinCountIsLeast(m, ds);
    var i :| 0 <= i < |ds| && Count(m, ds[i]) == MinCount(m, ds);
  }

  lemma TiesBelowMinEmpty(m: Counters, ds: seq<Domain>, k: int)
    requires |ds| > 0 && k < MinCount(m, ds)
    ensures TiesAt(m, ds, k) == []
  {
    MinCountIsLeast(m, ds);
    TiesAtMembers(m, ds, k);
    var t := TiesAt(m, ds, k);
    forall d | d in ds
      ensures d !in t
    {
      var i :| 0 <= i < |ds| && ds[i] == d;
    }
  }
}
