/** The PPLNS split: how a reward is divided over weights, and what the division guarantees. */
module Payouts {
  import opened ByteStrings
  import opened Shares

  type Amounts = map<AccountId, nat>

  // ----- sums over a map -----

  ghost function Sum(m: Amounts): nat {
    if m == map[] then 0 else var a :| a in m; m[a] + Sum(m - {a})
  }

  lemma {:induction false} SumRemove(m: Amounts, a: AccountId)
    requires a in m
    ensures Sum(m) == m[a] + Sum(m - {a})
    decreases |m|
  {
    var b :| b in m && Sum(m) == m[b] + Sum(m - {b});
    if a != b {
      SumRemove(m - {b}, a);
      SumRemove(m - {a}, b);
      assert m - {b} - {a} == m - {a} - {b};
    }
  }

  lemma SumInsert(m: Amounts, a: AccountId, n: nat)
    ensures Sum(m[a := n]) == n + Sum(m - {a})
    ensures a in m ==> Sum(m[a := n]) == Sum(m) - m[a] + n
    ensures a !in m ==> Sum(m[a := n]) == Sum(m) + n
  {
    SumRemove(m[a := n], a);
    assert m[a := n] - {a} == m - {a};
    if a in m { SumRemove(m, a); } else { assert m - {a} == m; }
  }

  lemma {:induction false} SumAtLeast(m: Amounts, a: AccountId)
    requires a in m
    ensures Sum(m) >= m[a]
  {
    SumRemove(m, a);
  }

  ghost function Restrict(m: Amounts, keys: set<AccountId>): Amounts { map a | a in m && a in keys :: m[a] }

  // ----- weights -----

  datatype Contribution = Contribution(account: AccountId, weight: nat)

  function AddWeight(m: Amounts, c: Contribution): Amounts {
    m[c.account := (if c.account in m then m[c.account] else 0) + c.weight]
  }

  function WeightsOf(cs: seq<Contribution>): Amounts {
    if cs == [] then map[] else AddWeight(WeightsOf(cs[..|cs| - 1]), cs[|cs| - 1])
  }

  function TotalOf(cs: seq<Contribution>): nat {
    if cs == [] then 0 else TotalOf(cs[..|cs| - 1]) + cs[|cs| - 1].weight
  }

  lemma {:induction false} WeightsSumToTotal(cs: seq<Contribution>)
    ensures Sum(WeightsOf(cs)) == TotalOf(cs)
  {
    if cs != [] {
      WeightsSumToTotal(cs[..|cs| - 1]);
      var m, c := WeightsOf(cs[..|cs| - 1]), cs[|cs| - 1];
      SumInsert(m, c.account, (if c.account in m then m[c.account] else 0) + c.weight);
    }
  }

  // ----- the split -----

  /** `floor(reward * weight / total)`. */
  function Cut(reward: nat, weight: nat, total: nat): nat
    requires total > 0
  {
    reward * weight / total
  }

  ghost function Cuts(weights: Amounts, reward: nat, total: nat): Amounts
    requires total > 0
  {
    map a | a in weights :: Cut(reward, weights[a], total)
  }

  /** The heaviest account, smallest id first on a tie. */
  ghost predicate IsHeaviest(weights: Amounts, a: AccountId) {
    a in weights && forall b | b in weights :: weights[b] < weights[a] || (weights[b] == weights[a] && AtMost(a, b))
  }

  lemma HeaviestUnique(weights: Amounts, a: AccountId, b: AccountId)
    requires IsHeaviest(weights, a) && IsHeaviest(weights, b)
    ensures a == b
  {
    AtMostAntisymmetric(a, b);
  }

  ghost function Earners(weights: Amounts): set<AccountId> {
    set a | a in weights && weights[a] > 0
  }

  lemma CutBounds(reward: nat, weight: nat, total: nat)
    requires total > 0
    ensures total * Cut(reward, weight, total) <= reward * weight
    ensures reward * weight <= total * Cut(reward, weight, total) + (if weight == 0 then 0 else total - 1)
  {
    var p := reward * weight;
    assert p == total * (p / total) + p % total;
  }

  lemma CutMonotone(reward: nat, w: nat, w': nat, total: nat)
    requires total > 0 && w <= w'
    ensures Cut(reward, w, total) <= Cut(reward, w', total)
  {
    var p, q := reward * w, reward * w';
    assert p <= q;
    assert p == total * (p / total) + p % total && q == total * (q / total) + q % total;
    if p / total > q / total {
      assert total * (p / total) >= total * (q / total + 1);
    }
  }

  /** Cuts `s` of weights `r` lose nothing below zero and less than `total` for each of `n` earning accounts. */
  predicate LossBounded(reward: nat, total: nat, r: nat, s: nat, n: nat)
    requires total > 0
  {
    total * s <= reward * r <= total * s + n * (total - 1)
  }

  lemma LossStep(reward: nat, total: nat, w: nat, r: nat, s: nat, n: nat)
    requires total > 0 && LossBounded(reward, total, r, s, n)
    ensures LossBounded(reward, total, w + r, Cut(reward, w, total) + s, if w == 0 then n else n + 1)
  {
    var c := Cut(reward, w, total);
    CutBounds(reward, w, total);
    assert total * (c + s) == total * c + total * s;
    assert reward * (w + r) == reward * w + reward * r;
    assert (n + 1) * (total - 1) == n * (total - 1) + (total - 1);
  }

  lemma NoLoss(reward: nat, total: nat)
    requires total > 0
    ensures LossBounded(reward, total, Sum(map[]), Sum(Cuts(map[], reward, total)), |Earners(map[])|)
  {
    assert Cuts(map[], reward, total) == map[] && Earners(map[]) == {};
  }

  lemma CutsStep(weights: Amounts, reward: nat, total: nat, a: AccountId)
    requires total > 0 && a in weights
    ensures Sum(Cuts(weights, reward, total))
         == Cut(reward, weights[a], total) + Sum(Cuts(weights - {a}, reward, total))
  {
    var cuts := Cuts(weights, reward, total);
    SumRemove(cuts, a);
    assert cuts - {a} == Cuts(weights - {a}, reward, total);
  }

  lemma {:induction false} DivisionLoss(weights: Amounts, reward: nat, total: nat)
    requires total > 0
    ensures LossBounded(reward, total, Sum(weights), Sum(Cuts(weights, reward, total)), |Earners(weights)|)
    decreases |weights|
  {
    hide LossBounded, Cut, Cuts, Earners, Sum;
    if weights == map[] {
      NoLoss(reward, total);
    } else {
      var a :| a in weights;
      var rest := weights - {a};
      SumRemove(weights, a);
      CutsStep(weights, reward, total, a);
      DivisionLoss(rest, reward, total);
      LossStep(reward, total, weights[a], Sum(rest), Sum(Cuts(rest, reward, total)), |Earners(rest)|);
      EarnersStep(weights, a);
    }
  }

  lemma EarnersStep(weights: Amounts, a: AccountId)
    requires a in weights
    ensures |Earners(weights)| == (if weights[a] == 0 then 0 else 1) + |Earners(weights - {a})|
  {
    if weights[a] == 0 {
      assert Earners(weights) == Earners(weights - {a});
    } else {
      assert Earners(weights) == Earners(weights - {a}) + {a};
    }
  }

  lemma RemainderArithmetic(reward: nat, total: nat, s: nat, n: nat)
    requires total > 0 && n > 0 && LossBounded(reward, total, total, s, n)
    ensures s <= reward < s + n
  {
    assert n * (total - 1) == total * n - n;
    assert total * (s + n) == total * s + total * n;
  }

  /** What the cuts leave over: never negative, and fewer grains than there are earning accounts. */
  lemma RemainderBounds(weights: Amounts, reward: nat, total: nat)
    requires total > 0 && Sum(weights) == total
    ensures Sum(Cuts(weights, reward, total)) <= reward
    ensures reward - Sum(Cuts(weights, reward, total)) < |Earners(weights)|
  {
    DivisionLoss(weights, reward, total);
    SomeoneEarns(weights);
    RemainderArithmetic(reward, total, Sum(Cuts(weights, reward, total)), |Earners(weights)|);
  }

  lemma {:induction false} SomeoneEarns(weights: Amounts)
    requires Sum(weights) > 0
    ensures Earners(weights) != {}
    decreases |weights|
  {
    var a :| a in weights && Sum(weights) == weights[a] + Sum(weights - {a});
    if weights[a] > 0 {
      assert a in Earners(weights);
    } else {
      SomeoneEarns(weights - {a});
      var b :| b in Earners(weights - {a});
      assert b in Earners(weights);
    }
  }

  lemma {:induction false} HeaviestExists(weights: Amounts)
    requires weights != map[]
    ensures exists a :: IsHeaviest(weights, a)
    decreases |weights|
  {
    var a :| a in weights;
    var rest := weights - {a};
    if rest == map[] {
      assert forall b | b in weights && b != a :: b in rest;
      AtMostTotal(a, a);
      assert IsHeaviest(weights, a);
    } else {
      HeaviestExists(rest);
      var b :| IsHeaviest(rest, b);
      AtMostTotal(a, b);
      AtMostTotal(a, a);
      var best := if weights[a] > weights[b] || (weights[a] == weights[b] && AtMost(a, b)) then a else b;
      forall c | c in weights
        ensures weights[c] < weights[best] || (weights[c] == weights[best] && AtMost(best, c))
      {
        if c != a {
          assert c in rest;
          if best == a && weights[a] == weights[b] == weights[c] { AtMostTransitive(a, b, c); }
        }
      }
      assert IsHeaviest(weights, best);
    }
  }

  /** What an account is owed: its cut, and for the heaviest account what the divisions lost. */
  ghost function Owed(weights: Amounts, reward: nat, total: nat, a: AccountId): nat
    requires total > 0 && Sum(weights) == total && a in weights
  {
    RemainderBounds(weights, reward, total);
    Cut(reward, weights[a], total)
    + if IsHeaviest(weights, a) then reward - Sum(Cuts(weights, reward, total)) else 0
  }

  /** The payouts a block must embed, given the window's weights: every account owed something. */
  ghost function Split(weights: Amounts, reward: nat): Amounts {
    var total := Sum(weights);
    if total == 0 || reward == 0 then map[]
    else map a | a in weights && Owed(weights, reward, total, a) > 0 :: Owed(weights, reward, total, a)
  }

  function Paid(out: Amounts, a: AccountId): nat { if a in out then out[a] else 0 }

  /** Dropping zero entries does not change a sum. */
  lemma {:induction false} SumIgnoresZeros(m: Amounts, m': Amounts)
    requires m'.Keys <= m.Keys && forall a | a in m :: m[a] == Paid(m', a)
    ensures Sum(m) == Sum(m')
    decreases |m|
  {
    if m == map[] {
      assert m' == map[];
    } else {
      var a :| a in m;
      SumRemove(m, a);
      if a in m' { SumRemove(m', a); } else { assert m' - {a} == m'; }
      SumIgnoresZeros(m - {a}, m' - {a});
    }
  }

  /** What each account is paid, zeros included: the cuts, with the remainder on top of the heaviest. */
  lemma PaidIsOwed(weights: Amounts, reward: nat, top: AccountId, a: AccountId)
    requires Sum(weights) > 0 && reward > 0 && IsHeaviest(weights, top) && a in weights
    ensures Sum(Cuts(weights, reward, Sum(weights))) <= reward
    ensures Paid(Split(weights, reward), a)
         == Cut(reward, weights[a], Sum(weights))
            + if a == top then reward - Sum(Cuts(weights, reward, Sum(weights))) else 0
  {
    hide Sum, Cut;
    RemainderBounds(weights, reward, Sum(weights));
    if IsHeaviest(weights, a) { HeaviestUnique(weights, a, top); }
  }

  /** **No dust.** For a positive reward the payouts sum to exactly the reward. */
  lemma SplitIsExact(weights: Amounts, reward: nat)
    requires Sum(weights) > 0 && reward > 0
    ensures Sum(Split(weights, reward)) == reward
  {
    SomeoneEarns(weights);
    assert weights != map[];
    hide Sum, Cut, IsHeaviest, Owed, Paid;
    HeaviestExists(weights);
    var top :| IsHeaviest(weights, top);
    HeaviestIsKnown(weights, top);
    var cuts := Cuts(weights, reward, Sum(weights));
    PaidIsOwed(weights, reward, top, top);
    var owed := cuts[top := cuts[top] + (reward - Sum(cuts))];
    SumInsert(cuts, top, cuts[top] + (reward - Sum(cuts)));
    forall a | a in owed ensures owed[a] == Paid(Split(weights, reward), a) {
      PaidIsOwed(weights, reward, top, a);
    }
    SumIgnoresZeros(owed, Split(weights, reward));
  }

  lemma HeaviestIsKnown(weights: Amounts, top: AccountId)
    requires IsHeaviest(weights, top)
    ensures top in weights
  {
  }

  /** **Fair shares.** Everyone gets at least the floor of their proportion; only the heaviest account gets more,
      and then fewer extra grains than there are earning accounts; nobody outside the window is paid. */
  lemma SplitIsFair(weights: Amounts, reward: nat, a: AccountId)
    requires Sum(weights) > 0 && reward > 0
    ensures a !in weights ==> a !in Split(weights, reward)
    ensures a in Split(weights, reward) ==> Split(weights, reward)[a] > 0
    ensures a in weights ==>
              var floor := Cut(reward, weights[a], Sum(weights));
              && floor <= Paid(Split(weights, reward), a) < floor + |Earners(weights)|
              && (Paid(Split(weights, reward), a) > floor ==> IsHeaviest(weights, a))
  {
    RemainderBounds(weights, reward, Sum(weights));
  }

  /** `a` precedes `b`: it is a prefix of it, or smaller at the first byte where they differ. */
  ghost predicate Precedes(a: AccountId, b: AccountId) {
    a <= b || exists k :: 0 <= k < |a| && k < |b| && a[..k] == b[..k] && a[k] < b[k]
  }

  /** **To the grain.** Everyone is paid the floor of their proportion, and whatever the floors leave over goes to the
      heaviest account, on a tie to the one that precedes the others. */
  lemma RemainderGoesToTop(weights: Amounts, reward: nat, top: AccountId, a: AccountId)
    requires Sum(weights) > 0 && reward > 0 && top in weights && a in weights
    requires forall b | b in weights :: weights[b] < weights[top] || (weights[b] == weights[top] && Precedes(top, b))
    ensures var left := reward - Sum(Cuts(weights, reward, Sum(weights)));
            Paid(Split(weights, reward), a) == reward * weights[a] / Sum(weights) + if a == top then left else 0
  {
    hide Sum, Cuts, Split;
    forall b | b in weights && weights[b] == weights[top] ensures AtMost(top, b) { AtMostIff(top, b); }
    PaidIsOwed(weights, reward, top, a);
  }

  /** **Monotonicity.** A larger weight never earns less. */
  lemma SplitIsMonotone(weights: Amounts, reward: nat, a: AccountId, b: AccountId)
    requires a in weights && b in weights && weights[a] < weights[b]
    ensures Paid(Split(weights, reward), a) <= Paid(Split(weights, reward), b)
  {
    if Sum(weights) > 0 && reward > 0 {
      CutMonotone(reward, weights[a], weights[b], Sum(weights));
      RemainderBounds(weights, reward, Sum(weights));
    }
  }
}
