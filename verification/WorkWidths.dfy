/** When the sharechain's 128-bit arithmetic is exact. The model counts work and grains without bound; this says, for
    one payout, one delivery and a whole run, exactly when no value the code computes leaves 128 bits. */
module WorkWidths {
  import opened ByteStrings
  import opened Shares
  import opened Payouts
  import opened ShareLedger
  import opened ShareTheorems
  import opened AcceptRules
  import opened WindowWeights

  predicate Narrow(n: nat) { n <= U128_MAX }

  /** The product behind an uncle's weight, before it is divided. */
  function UncleProduct(work: nat): nat { work * UNCLE_WEIGHT_PCT }

  // ----- the tally -----

  /** After `k` contributions no counter of the tally has left 128 bits. */
  ghost predicate PrefixFits(cs: seq<Contribution>, k: nat)
    requires k <= |cs|
  {
    var weights := WeightsOf(cs[..k]);
    Narrow(TotalOf(cs[..k])) && forall a | a in weights :: Narrow(weights[a])
  }

  lemma {:induction false} TallyGrows(cs: seq<Contribution>, k: nat)
    requires k <= |cs|
    ensures TotalOf(cs[..k]) <= TotalOf(cs)
  {
    if k == |cs| {
      assert cs[..k] == cs;
    } else {
      assert cs[..|cs| - 1][..k] == cs[..k];
      TallyGrows(cs[..|cs| - 1], k);
    }
  }

  lemma PrefixesFitIff(cs: seq<Contribution>)
    ensures (forall k | 0 <= k <= |cs| :: PrefixFits(cs, k)) <==> Narrow(TotalOf(cs))
  {
    hide WeightsOf, TotalOf;
    assert cs[..|cs|] == cs;
    if Narrow(TotalOf(cs)) {
      forall k | 0 <= k <= |cs| ensures PrefixFits(cs, k) {
        TallyGrows(cs, k);
        WeightsSumToTotal(cs[..k]);
        var weights := WeightsOf(cs[..k]);
        forall a | a in weights ensures Narrow(weights[a]) { SumAtLeast(weights, a); }
      }
    } else {
      assert !PrefixFits(cs, |cs|);
    }
  }

  /** Every uncle the shares of a window cite. */
  function WindowUncles(e: Entries, cur: Option<ShareId>, n: nat): seq<ShareId>
    decreases n
  {
    if n == 0 || cur.None? || cur.value !in e then [] else
      var s := e[cur.value].share;
      s.uncles + WindowUncles(e, s.prev, n - 1)
  }

  ghost predicate ProductsFit(e: Entries, uncles: seq<ShareId>) {
    forall u | u in uncles && u in e :: Narrow(UncleProduct(e[u].share.work))
  }

  // ----- the division -----

  /** Every product, every partial sum of what is handed out, and every amount paid. */
  ghost predicate DivisionFits(weights: Amounts, reward: nat)
    requires Sum(weights) > 0
  {
    var cuts := Cuts(weights, reward, Sum(weights));
    && (forall a | a in weights :: Narrow(reward * weights[a]))
    && (forall done :: Narrow(Sum(Restrict(cuts, done))))
    && (forall a | a in Split(weights, reward) :: Narrow(Split(weights, reward)[a]))
  }

  /** The product for the heaviest account fits. */
  ghost predicate HeaviestFits(weights: Amounts, reward: nat) {
    forall top | IsHeaviest(weights, top) :: Narrow(reward * weights[top])
  }

  lemma {:induction false} SumRestrict(m: Amounts, keys: set<AccountId>)
    ensures Sum(Restrict(m, keys)) <= Sum(m)
    decreases |m|
  {
    if m == map[] {
      assert Restrict(m, keys) == map[];
    } else {
      var a :| a in m;
      SumRemove(m, a);
      SumRestrict(m - {a}, keys);
      var r := Restrict(m, keys);
      if a in r {
        SumRemove(r, a);
        assert r - {a} == Restrict(m - {a}, keys);
      } else {
        assert r == Restrict(m - {a}, keys);
      }
    }
  }

  lemma ProductMonotone(n: nat, w: nat, w': nat)
    requires w <= w'
    ensures n * w <= n * w'
  {
  }

  lemma ProductsBelowHeaviest(weights: Amounts, reward: nat)
    requires weights != map[]
    ensures (forall a | a in weights :: Narrow(reward * weights[a])) <==> HeaviestFits(weights, reward)
  {
    hide AtMost;
    HeaviestExists(weights);
    var top :| IsHeaviest(weights, top);
    forall a | a in weights ensures reward * weights[a] <= reward * weights[top] {
      ProductMonotone(reward, weights[a], weights[top]);
    }
  }

  lemma PaidBelowReward(weights: Amounts, reward: nat)
    requires Sum(weights) > 0 && reward > 0
    ensures forall a | a in Split(weights, reward) :: Split(weights, reward)[a] <= reward
  {
    hide Split, Sum;
    SplitIsExact(weights, reward);
    forall a | a in Split(weights, reward) ensures Split(weights, reward)[a] <= reward {
      SumAtLeast(Split(weights, reward), a);
    }
  }

  lemma DivisionFitsIff(weights: Amounts, reward: nat)
    requires Sum(weights) > 0 && 0 < reward && Narrow(reward)
    ensures DivisionFits(weights, reward) <==> HeaviestFits(weights, reward)
  {
    SomeoneEarns(weights);
    assert weights != map[];
    hide Sum, Cuts, Split, IsHeaviest, HeaviestFits, Restrict;
    var cuts := Cuts(weights, reward, Sum(weights));
    RemainderBounds(weights, reward, Sum(weights));
    forall done ensures Narrow(Sum(Restrict(cuts, done))) { SumRestrict(cuts, done); }
    PaidBelowReward(weights, reward);
    ProductsBelowHeaviest(weights, reward);
  }

  // ----- one payout -----

  /** No value computed for the payouts on `parent` leaves 128 bits: the uncle products, the counters of the tally
      after every contribution, and the division when there is one. */
  ghost predicate PayoutsFit(e: Entries, parent: Option<ShareId>, reward: nat) {
    var cs := Window(e, parent, PPLNS_WINDOW);
    && ProductsFit(e, WindowUncles(e, parent, PPLNS_WINDOW))
    && (forall k | 0 <= k <= |cs| :: PrefixFits(cs, k))
    && (Sum(WeightsOf(cs)) > 0 && reward > 0 ==> DivisionFits(WeightsOf(cs), reward))
  }

  lemma IdleDivision(weights: Amounts, reward: nat)
    requires Sum(weights) == 0 || reward == 0
    ensures HeaviestFits(weights, reward)
  {
    hide Sum;
    forall top | IsHeaviest(weights, top) ensures Narrow(reward * weights[top]) {
      SumAtLeast(weights, top);
      ZeroProduct(reward, weights[top]);
    }
  }

  lemma ZeroProduct(m: nat, n: nat)
    requires m == 0 || n == 0
    ensures m * n == 0
  {
  }

  /** **One payout.** The payout arithmetic is exact exactly when the products of the cited uncles fit, the window's
      total does, and so does the reward times the heaviest weight. */
  lemma PayoutsFitIff(e: Entries, parent: Option<ShareId>, reward: nat)
    requires Narrow(reward)
    ensures PayoutsFit(e, parent, reward)
       <==> && ProductsFit(e, WindowUncles(e, parent, PPLNS_WINDOW))
            && Narrow(TotalOf(Window(e, parent, PPLNS_WINDOW)))
            && HeaviestFits(WeightsOf(Window(e, parent, PPLNS_WINDOW)), reward)
  {
    hide Window, WindowUncles, ProductsFit, WeightsOf, TotalOf, PrefixFits, DivisionFits, HeaviestFits, Sum;
    var cs := Window(e, parent, PPLNS_WINDOW);
    PrefixesFitIff(cs);
    if Sum(WeightsOf(cs)) > 0 && reward > 0 {
      DivisionFitsIff(WeightsOf(cs), reward);
    } else {
      IdleDivision(WeightsOf(cs), reward);
    }
  }

  // ----- one delivery -----

  /** How many of the first `n` uncles the scan takes in before it meets an offender. */
  ghost function Scanned(e: Entries, s: Share, n: nat): (k: nat)
    requires Rooted(e) && n <= |s.uncles|
    ensures k <= n && FirstBadUncle(e, s, k).None?
  {
    if FirstBadUncle(e, s, n).None? then n else Scanned(e, s, n - 1)
  }

  /** Taking in the `k`-th uncle computes its product and adds to the running sum. */
  ghost predicate ScanStepFits(e: Entries, s: Share, k: nat)
    requires k < |s.uncles|
  {
    && (s.uncles[k] in e ==> Narrow(UncleProduct(e[s.uncles[k]].share.work)))
    && Narrow(UncleWork(e, s.uncles[..k + 1]))
  }

  function ParentWork(c: Chain, s: Share): nat {
    if s.prev.Some? && s.prev.value in c.entries then c.entries[s.prev.value].cumulativeWork else 0
  }

  /** The cumulative work a share is recorded with. */
  function NewWork(c: Chain, s: Share): nat { ParentWork(c, s) + s.work + UncleWork(c.entries, s.uncles) }

  /** No value computed for a delivery, accepted or refused, leaves 128 bits. */
  ghost predicate AcceptFits(c: Chain, d: Delivery)
    requires Rooted(c.entries)
  {
    var e, s := c.entries, d.share;
    Linked(c, s) ==>
      && (forall k | 0 <= k < Scanned(e, s, |s.uncles|) :: ScanStepFits(e, s, k))
      && (FirstBadUncle(e, s, |s.uncles|).None? && s.isBlock ==> PayoutsFit(e, s.prev, d.reward))
      && (Accept(c, s, d.reward, d.embedded).Accepted? ==>
            Narrow(ParentWork(c, s) + s.work) && Narrow(ParentWork(c, s) + s.work + UncleWork(e, s.uncles)))
  }

  lemma {:induction false} UncleWorkGrows(e: Entries, uncles: seq<ShareId>, k: nat)
    requires k <= |uncles|
    ensures UncleWork(e, uncles[..k]) <= UncleWork(e, uncles)
  {
    if k == |uncles| {
      assert uncles[..k] == uncles;
    } else {
      assert uncles[..|uncles| - 1][..k] == uncles[..k];
      UncleWorkGrows(e, uncles[..|uncles| - 1], k);
    }
  }

  /** The scan of `n` uncles is exact when their products fit and so does their sum. */
  lemma ScanFitsIff(e: Entries, s: Share, n: nat)
    requires n <= |s.uncles|
    ensures (forall k | 0 <= k < n :: ScanStepFits(e, s, k))
       <==> ProductsFit(e, s.uncles[..n]) && Narrow(UncleWork(e, s.uncles[..n]))
  {
    hide UncleWork, UncleProduct;
    var taken := s.uncles[..n];
    if forall k | 0 <= k < n :: ScanStepFits(e, s, k) {
      forall u | u in taken && u in e ensures Narrow(UncleProduct(e[u].share.work)) {
        var k :| 0 <= k < n && taken[k] == u;
        assert ScanStepFits(e, s, k);
      }
      if n > 0 { assert ScanStepFits(e, s, n - 1); } else { NoUncleWork(e, taken); }
    }
    if ProductsFit(e, taken) && Narrow(UncleWork(e, taken)) {
      forall k | 0 <= k < n ensures ScanStepFits(e, s, k) {
        assert s.uncles[k] == taken[k] && taken[k] in taken;
        assert taken[..k + 1] == s.uncles[..k + 1];
        UncleWorkGrows(e, taken, k + 1);
      }
    }
  }

  lemma NoUncleWork(e: Entries, uncles: seq<ShareId>)
    requires uncles == []
    ensures UncleWork(e, uncles) == 0
  {
  }

  /** **One delivery.** The arithmetic of a delivery is exact exactly when the uncles it takes in have products and a
      sum that fit, the payouts of a block with clean uncles do, and, when it is accepted, its cumulative work does. */
  lemma AcceptFitsIff(c: Chain, d: Delivery)
    requires Rooted(c.entries) && Narrow(d.reward)
    ensures var e, s := c.entries, d.share;
            var taken := s.uncles[..Scanned(e, s, |s.uncles|)];
            AcceptFits(c, d) <==> (Linked(c, s) ==>
              && ProductsFit(e, taken) && Narrow(UncleWork(e, taken))
              && (taken == s.uncles && s.isBlock ==>
                    && ProductsFit(e, WindowUncles(e, s.prev, PPLNS_WINDOW))
                    && Narrow(TotalOf(Window(e, s.prev, PPLNS_WINDOW)))
                    && HeaviestFits(WeightsOf(Window(e, s.prev, PPLNS_WINDOW)), d.reward))
              && (Accept(c, s, d.reward, d.embedded).Accepted? ==> Narrow(NewWork(c, s))))
  {
    hide Accept, FirstBadUncle, PayoutsFit, ScanStepFits, ProductsFit, HeaviestFits, Window, WindowUncles, UncleWork,
         WeightsOf, TotalOf, Rooted, Linked;
    var e, s := c.entries, d.share;
    var n := Scanned(e, s, |s.uncles|);
    ScanFitsIff(e, s, n);
    PayoutsFitIff(e, s.prev, d.reward);
    assert s.uncles[..n] == s.uncles <==> n == |s.uncles|;
  }

  // ----- whole runs -----

  /** Recording an accepted share is exact. */
  ghost predicate RecordFits(c: Chain, s: Share) {
    && (forall k | 0 <= k < |s.uncles| :: ScanStepFits(c.entries, s, k))
    && Narrow(ParentWork(c, s) + s.work) && Narrow(ParentWork(c, s) + s.work + UncleWork(c.entries, s.uncles))
  }

  /** Every accepted delivery of the run was recorded exactly. */
  ghost predicate RunFits(ds: seq<Delivery>) {
    forall i | 0 <= i < |ds| :: DeliveryFits(ds, i)
  }

  ghost predicate DeliveryFits(ds: seq<Delivery>, i: nat)
    requires i < |ds|
  {
    var c, d := Run(ds[..i]), ds[i];
    Accept(c, d.share, d.reward, d.embedded).Accepted? ==> RecordFits(c, d.share)
  }

  /** The tip's work fits, and so does the product of every cited uncle. */
  ghost predicate NarrowChain(c: Chain) {
    Narrow(TipWork(c)) && forall id | id in c.entries :: ProductsFit(c.entries, c.entries[id].share.uncles)
  }

  lemma RecordFitsIff(c: Chain, s: Share)
    ensures RecordFits(c, s) <==> ProductsFit(c.entries, s.uncles) && Narrow(NewWork(c, s))
  {
    hide ScanStepFits, ProductsFit, UncleWork;
    ScanFitsIff(c.entries, s, |s.uncles|);
    assert s.uncles[..|s.uncles|] == s.uncles;
  }

  lemma ProductsStable(e: Entries, f: Entries, uncles: seq<ShareId>)
    requires Extends(e, f) && forall u | u in uncles :: u in e
    ensures ProductsFit(f, uncles) <==> ProductsFit(e, uncles)
  {
    hide UncleProduct;
  }

  lemma NarrowStep(c: Chain, d: Delivery)
    requires Inv(c) && Accept(c, d.share, d.reward, d.embedded).Accepted?
    ensures NarrowChain(Step(c, d)) <==> NarrowChain(c) && RecordFits(c, d.share)
  {
    hide ProductsFit, UncleWork, RecordFits, FirstBadUncle, PayoutsFor, Branch;
    var s := d.share;
    var c' := Step(c, d);
    var e, f := c.entries, c'.entries;
    AcceptInv(c, s, d.reward, d.embedded);
    RecordFitsIff(c, s);
    InvUncles(c);
    InvUncles(c');
    NewUnclesKnown(c, s);
    ProductsStable(e, f, s.uncles);
    forall id | id in e ensures ProductsFit(f, f[id].share.uncles) <==> ProductsFit(e, e[id].share.uncles) {
      assert UnclesRight(e, e[id].share);
      ProductsStable(e, f, e[id].share.uncles);
    }
    TipWorkGrows(c, s);
  }

  lemma NewUnclesKnown(c: Chain, s: Share)
    requires Rooted(c.entries) && FirstBadUncle(c.entries, s, |s.uncles|).None?
    ensures forall u | u in s.uncles :: u in c.entries
  {
    NoBadUncle(c.entries, s, |s.uncles|);
    assert s.uncles[..|s.uncles|] == s.uncles;
  }

  lemma TipWorkGrows(c: Chain, s: Share)
    requires Inv(c) && s.id !in c.entries && (s.prev.Some? ==> s.prev.value in c.entries)
    ensures TipWork(Record(c, s)) == if TipWork(c) < NewWork(c, s) || c.tip.None? then NewWork(c, s) else TipWork(c)
  {
    hide UncleWork, EntryRight, Rooted;
  }

  /** **Whole runs.** Every accepted share of a run was recorded exactly if and only if, in the chain it leaves, the
      tip's work and the products of the cited uncles fit. */
  lemma {:induction false} RunFitsIff(ds: seq<Delivery>)
    ensures RunFits(ds) <==> NarrowChain(Run(ds))
  {
    hide DeliveryFits;
    if ds == [] {
      assert Run(ds) == EMPTY;
    } else {
      RunFitsIff(ds[..|ds| - 1]);
      RunFitsStep(ds);
      LastStep(ds);
    }
  }

  lemma RunFitsStep(ds: seq<Delivery>)
    requires ds != []
    ensures RunFits(ds) <==> RunFits(ds[..|ds| - 1]) && DeliveryFits(ds, |ds| - 1)
  {
    hide Run, RecordFits, Accept;
    var n := |ds| - 1;
    var front := ds[..n];
    forall i | 0 <= i < n ensures DeliveryFits(ds, i) <==> DeliveryFits(front, i) { assert front[..i] == ds[..i]; }
  }

  lemma LastStep(ds: seq<Delivery>)
    requires ds != []
    ensures NarrowChain(Run(ds)) <==> NarrowChain(Run(ds[..|ds| - 1])) && DeliveryFits(ds, |ds| - 1)
  {
    hide NarrowChain, RecordFits, Accept, EntryRight;
    var c, d := Run(ds[..|ds| - 1]), ds[|ds| - 1];
    if Accept(c, d.share, d.reward, d.embedded).Accepted? { NarrowStep(c, d); }
  }

  // ----- payouts on a chain that was recorded exactly -----

  lemma {:induction false} WindowProductsFit(e: Entries, cur: Option<ShareId>, n: nat)
    requires forall id | id in e :: ProductsFit(e, e[id].share.uncles)
    ensures ProductsFit(e, WindowUncles(e, cur, n))
    decreases n
  {
    hide UncleProduct;
    if n > 0 && cur.Some? && cur.value in e {
      assert ProductsFit(e, e[cur.value].share.uncles);
      WindowProductsFit(e, e[cur.value].share.prev, n - 1);
    }
  }

  /** **Payouts of a run.** In a chain that was recorded exactly, the tally on any parent is exact, and the whole
      payout is exactly when the reward times the heaviest weight fits. */
  lemma RunPayoutsFitIff(ds: seq<Delivery>, parent: Option<ShareId>, reward: nat)
    requires RunFits(ds) && Narrow(reward)
    ensures var e := Run(ds).entries;
            PayoutsFit(e, parent, reward) <==> HeaviestFits(WeightsOf(Window(e, parent, PPLNS_WINDOW)), reward)
  {
    hide RunFits, PayoutsFit, HeaviestFits, ProductsFit, WeightsOf, Window, WindowUncles, Run, Branch;
    var c := Run(ds);
    RunFitsIff(ds);
    WindowBelowWork(c.entries, parent, PPLNS_WINDOW);
    WindowProductsFit(c.entries, parent, PPLNS_WINDOW);
    PayoutsFitIff(c.entries, parent, reward);
    if parent.Some? && parent.value in c.entries { assert EntryRight(c.entries, parent.value); }
  }
}
