/** The `ShareChain` object: mutable entries and tip, with the loops the ledger runs over them. Its state is always
    the state `ShareTheorems.Run` gives its history, so every theorem there is a theorem about this object. */
module ShareChainStore {
  import opened ByteStrings
  import opened Shares
  import opened Payouts
  import opened ShareLedger
  import opened ShareTheorems

  lemma CutsGrow(weights: Amounts, keys: set<AccountId>, a: AccountId, reward: nat, total: nat)
    requires total > 0 && a in weights && a !in keys
    ensures Sum(Cuts(Restrict(weights, keys + {a}), reward, total))
         == Sum(Cuts(Restrict(weights, keys), reward, total)) + Cut(reward, weights[a], total)
  {
    var small, big := Cuts(Restrict(weights, keys), reward, total), Cuts(Restrict(weights, keys + {a}), reward, total);
    assert big == small[a := Cut(reward, weights[a], total)];
    SumInsert(small, a, Cut(reward, weights[a], total));
  }

  /** The heaviest account, smallest id on a tie. */
  method FindHeaviest(weights: Amounts) returns (top: AccountId)
    requires weights != map[]
    ensures IsHeaviest(weights, top)
  {
    var left := weights.Keys;
    top :| top in left;
    left := left - {top};
    AtMostTotal(top, top);
    while left != {}
      invariant top in weights && left <= weights.Keys
      invariant forall b | b in weights && b !in left ::
                  weights[b] < weights[top] || (weights[b] == weights[top] && AtMost(top, b))
      decreases left
    {
      var a :| a in left;
      AtMostTotal(a, top);
      AtMostTotal(a, a);
      if weights[a] > weights[top] || (weights[a] == weights[top] && AtMost(a, top)) {
        forall b | b in weights && b !in left && weights[b] == weights[a] ensures AtMost(a, b) {
          AtMostTransitive(a, top, b);
        }
        top := a;
      }
      left := left - {a};
    }
  }

  ghost function PositiveCuts(weights: Amounts, keys: set<AccountId>, reward: nat, total: nat): Amounts
    requires total > 0
  {
    map a | a in weights && a in keys && Cut(reward, weights[a], total) > 0 :: Cut(reward, weights[a], total)
  }

  /** The rounded-down cuts and their sum, in whatever order the accounts are visited. */
  method CutAll(weights: Amounts, total: nat, reward: nat) returns (out: Amounts, handedOut: nat)
    requires total > 0
    ensures out == PositiveCuts(weights, weights.Keys, reward, total)
    ensures handedOut == Sum(Cuts(weights, reward, total))
  {
    out, handedOut := map[], 0;
    var left := weights.Keys;
    ghost var done: set<AccountId> := {};
    assert Restrict(weights, done) == map[];
    assert Cuts(map[], reward, total) == map[];
    while left != {}
      invariant left + done == weights.Keys && left !! done
      invariant out == PositiveCuts(weights, done, reward, total)
      invariant handedOut == Sum(Cuts(Restrict(weights, done), reward, total))
      decreases left
    {
      var a :| a in left;
      var cut := Cut(reward, weights[a], total);
      CutsGrow(weights, done, a, reward, total);
      if cut > 0 {
        out := out[a := cut];
        handedOut := handedOut + cut;
      }
      left, done := left - {a}, done + {a};
    }
    assert Restrict(weights, done) == weights && done == weights.Keys;
  }

  lemma OwedGivenTop(weights: Amounts, reward: nat, top: AccountId, a: AccountId)
    requires Sum(weights) > 0 && reward > 0 && IsHeaviest(weights, top) && a in weights
    ensures Sum(Cuts(weights, reward, Sum(weights))) <= reward
    ensures Owed(weights, reward, Sum(weights), a)
         == Cut(reward, weights[a], Sum(weights))
            + if a == top then reward - Sum(Cuts(weights, reward, Sum(weights))) else 0
  {
    RemainderBounds(weights, reward, Sum(weights));
    if IsHeaviest(weights, a) { HeaviestUnique(weights, a, top); }
  }

  /** The cuts, with the remainder given to `top`. */
  function WithRemainder(cuts: Amounts, top: AccountId, remainder: nat): Amounts {
    if remainder > 0 then cuts[top := Paid(cuts, top) + remainder] else cuts
  }

  lemma SplitAt(weights: Amounts, reward: nat, top: AccountId, remainder: nat, a: AccountId)
    requires Sum(weights) > 0 && reward > 0 && IsHeaviest(weights, top)
    requires remainder == reward - Sum(Cuts(weights, reward, Sum(weights)))
    ensures var out := WithRemainder(PositiveCuts(weights, weights.Keys, reward, Sum(weights)), top, remainder);
            (a in Split(weights, reward) <==> a in out) && (a in out ==> Split(weights, reward)[a] == out[a])
  {
    if a in weights { OwedGivenTop(weights, reward, top, a); }
  }

  lemma SplitFromCuts(weights: Amounts, reward: nat, top: AccountId, remainder: nat)
    requires Sum(weights) > 0 && reward > 0 && IsHeaviest(weights, top)
    requires remainder == reward - Sum(Cuts(weights, reward, Sum(weights)))
    ensures Split(weights, reward)
         == WithRemainder(PositiveCuts(weights, weights.Keys, reward, Sum(weights)), top, remainder)
  {
    var out := WithRemainder(PositiveCuts(weights, weights.Keys, reward, Sum(weights)), top, remainder);
    var paid := Split(weights, reward);
    forall a ensures (a in paid <==> a in out) && (a in out ==> paid[a] == out[a]) {
      SplitAt(weights, reward, top, remainder, a);
    }
  }

  /** Divide the reward over the weights; the largest earner takes what the divisions lose. */
  method SplitReward(weights: Amounts, total: nat, reward: nat) returns (out: Amounts)
    requires Sum(weights) == total
    ensures out == Split(weights, reward)
  {
    out := map[];
    if total == 0 || reward == 0 { return; }
    var handedOut;
    out, handedOut := CutAll(weights, total, reward);
    HeaviestExists(weights);
    var top := FindHeaviest(weights);
    OwedGivenTop(weights, reward, top, top);
    SplitFromCuts(weights, reward, top, reward - handedOut);
    if handedOut < reward {
      out := out[top := Paid(out, top) + (reward - handedOut)];
    }
  }

  /** What the loops of one share add to the tally. */
  lemma {:induction false} TallyAppend(cs: seq<Contribution>, c: Contribution)
    ensures WeightsOf(cs + [c]) == AddWeight(WeightsOf(cs), c) && TotalOf(cs + [c]) == TotalOf(cs) + c.weight
  {
    assert (cs + [c])[..|cs|] == cs;
  }

  lemma {:induction false} BadUncleStays(e: Entries, s: Share, k: nat, n: nat)
    requires Rooted(e) && k <= n <= |s.uncles| && FirstBadUncle(e, s, k).Some?
    ensures FirstBadUncle(e, s, n) == FirstBadUncle(e, s, k)
  {
    if k < n { BadUncleStays(e, s, k, n - 1); }
  }

  lemma NothingTallied()
    ensures WeightsOf([]) == map[] && TotalOf([]) == 0
  {
  }

  lemma WindowStep(e: Entries, cur: Option<ShareId>, n: nat)
    ensures n == 0 || cur.None? || cur.value !in e ==> Window(e, cur, n) == []
    ensures n > 0 && cur.Some? && cur.value in e ==>
              Window(e, cur, n) == ShareContributions(e, e[cur.value].share) + Window(e, e[cur.value].share.prev, n - 1)
  {
  }

  lemma NoUncleContributions(e: Entries)
    ensures UncleContributions(e, []) == []
  {
  }

  lemma UncleContributionsStep(e: Entries, uncles: seq<ShareId>, k: nat)
    requires k < |uncles|
    ensures var u := uncles[k];
            var added := if u in e then [Contribution(e[u].share.finder, UncleWeight(e[u].share.work))] else [];
            UncleContributions(e, uncles[..k + 1]) == UncleContributions(e, uncles[..k]) + added
  {
    assert uncles[..k + 1][..k] == uncles[..k];
  }

  lemma UncleWorkStep(e: Entries, uncles: seq<ShareId>, k: nat)
    requires k < |uncles| && uncles[k] in e
    ensures UncleWork(e, uncles[..k + 1]) == UncleWork(e, uncles[..k]) + UncleWeight(e[uncles[k]].share.work)
  {
    assert uncles[..k + 1][..k] == uncles[..k];
  }

  lemma NoUncles(e: Entries, s: Share)
    requires Rooted(e)
    ensures FirstBadUncle(e, s, 0).None? && UncleWork(e, []) == 0
  {
  }

  lemma BadUncleStep(e: Entries, s: Share, k: nat)
    requires Rooted(e) && k < |s.uncles| && FirstBadUncle(e, s, k).None?
    ensures var u := s.uncles[k];
            var offends := u == s.id || u in Branch(e, s.prev) || u in s.uncles[..k] || u !in e;
            FirstBadUncle(e, s, k + 1) == if offends then Some(u) else None
  {
  }

  lemma RunNext(ds: seq<Delivery>, d: Delivery)
    ensures Rooted(Run(ds).entries) && Run(ds + [d]) == Step(Run(ds), d)
  {
    assert (ds + [d])[..|ds|] == ds;
  }

  class ShareChain {
    var entries: Entries
    var tip: Option<ShareId>
    /** Every delivery so far, accepted or refused. */
    ghost var deliveries: seq<Delivery>

    ghost predicate Valid()
      reads this
    {
      Chain(entries, tip) == Run(deliveries)
    }

    constructor ()
      ensures Valid() && deliveries == [] && entries == map[] && tip == None
    {
      entries, tip, deliveries := map[], None, [];
    }

    method TipWork() returns (work: nat)
      requires Valid()
      ensures work == ShareLedger.TipWork(Run(deliveries))
      ensures forall id | id in entries :: entries[id].cumulativeWork <= work
    {
      work := if tip.Some? && tip.value in entries then entries[tip.value].cumulativeWork else 0;
    }

    method HeightOf(id: ShareId) returns (height: Option<nat>)
      requires Valid()
      ensures height == if id in entries then Some(|Branch(entries, Some(id))| - 1) else None
    {
      height := if id in entries then Some(entries[id].height) else None;
      if id in entries { BranchReachesRoot(entries, id); }
    }

    /** The best branch, newest first: it ends at a share that builds on nothing. */
    method BestBranch() returns (out: seq<Share>)
      requires Valid()
      ensures |out| == |Branch(entries, tip)|
      ensures forall i | 0 <= i < |out| :: out[i].id == Branch(entries, tip)[i]
      ensures tip.Some? ==> |out| == entries[tip.value].height + 1 && out[|out| - 1].prev.None?
    {
      hide Run, Branch;
      out := [];
      var cur := tip;
      ghost var ids: seq<ShareId> := [];
      while cur.Some?
        invariant |out| == |ids| && ids + Branch(entries, cur) == Branch(entries, tip)
        invariant forall i | 0 <= i < |out| :: ids[i] in entries && out[i] == entries[ids[i]].share
        invariant cur.Some? ==> cur.value in entries
        decreases Rank(entries, cur)
      {
        var e := entries[cur.value];
        assert RootedAt(entries, cur.value);
        BranchUnfold(entries, cur.value);
        ids, out := ids + [cur.value], out + [e.share];
        cur := e.share.prev;
      }
      BranchOfNone(entries);
      assert ids == Branch(entries, tip);
      forall i | 0 <= i < |out| ensures out[i].id == Branch(entries, tip)[i] { assert RootedAt(entries, ids[i]); }
      if tip.Some? { BranchReachesRoot(entries, tip.value); }
    }

    /** Add one share and its uncles to the tally. */
    method TallyShare(s: Share, weights0: Amounts, total0: nat, ghost cs: seq<Contribution>)
      returns (weights: Amounts, total: nat)
      requires weights0 == WeightsOf(cs) && total0 == TotalOf(cs)
      ensures weights == WeightsOf(cs + ShareContributions(entries, s))
      ensures total == TotalOf(cs + ShareContributions(entries, s))
    {
      hide WeightsOf, TotalOf, AddWeight, UncleContributions, UncleWeight;
      var own := Contribution(s.finder, s.work);
      weights, total := AddWeight(weights0, own), total0 + s.work;
      TallyAppend(cs, own);
      ghost var done := cs + [own];
      var k := 0;
      NoUncleContributions(entries);
      while k < |s.uncles|
        invariant 0 <= k <= |s.uncles|
        invariant done == cs + [own] + UncleContributions(entries, s.uncles[..k])
        invariant weights == WeightsOf(done) && total == TotalOf(done)
      {
        var u := s.uncles[k];
        UncleContributionsStep(entries, s.uncles, k);
        if u in entries {
          var c := Contribution(entries[u].share.finder, UncleWeight(entries[u].share.work));
          TallyAppend(done, c);
          weights, total := AddWeight(weights, c), total + c.weight;
          done := done + [c];
        }
        k := k + 1;
      }
      assert s.uncles[..k] == s.uncles;
      assert done == cs + ShareContributions(entries, s);
    }

    /** Walk back at most `PPLNS_WINDOW` shares and split the reward over what they contributed. */
    method PayoutsFor(parent: Option<ShareId>, reward: nat) returns (out: Amounts)
      ensures out == ShareLedger.PayoutsFor(entries, parent, reward)
    {
      hide WeightsOf, TotalOf, ShareContributions, Window, Split;
      var weights: Amounts, total: nat := map[], 0;
      NothingTallied();
      var cur, seen: nat := parent, 0;
      ghost var cs: seq<Contribution> := [];
      ghost var window := Window(entries, parent, PPLNS_WINDOW);
      while cur.Some? && seen < PPLNS_WINDOW && cur.value in entries
        invariant seen <= PPLNS_WINDOW && weights == WeightsOf(cs) && total == TotalOf(cs)
        invariant cs + Window(entries, cur, PPLNS_WINDOW - seen) == window
        decreases PPLNS_WINDOW - seen
      {
        var s := entries[cur.value].share;
        WindowStep(entries, cur, PPLNS_WINDOW - seen);
        weights, total := TallyShare(s, weights, total, cs);
        cs := cs + ShareContributions(entries, s);
        seen, cur := seen + 1, s.prev;
      }
      WindowStep(entries, cur, PPLNS_WINDOW - seen);
      assert cs == window;
      WeightsSumToTotal(cs);
      out := SplitReward(weights, total, reward);
    }

    /** The ids a share builds on. */
    method AncestryOf(prev: Option<ShareId>) returns (ancestry: set<ShareId>)
      requires Rooted(entries) && (prev.Some? ==> prev.value in entries)
      ensures ancestry == set id | id in Branch(entries, prev)
    {
      ancestry := {};
      var cur := prev;
      while cur.Some? && cur.value !in ancestry
        invariant cur.Some? ==> cur.value in entries
        invariant forall id | id in ancestry :: id in entries && entries[id].height >= Rank(entries, cur)
        invariant forall id :: id in Branch(entries, prev) <==> id in ancestry || id in Branch(entries, cur)
        decreases Rank(entries, cur)
      {
        assert RootedAt(entries, cur.value);
        BranchUnfold(entries, cur.value);
        ancestry := ancestry + {cur.value};
        cur := entries[cur.value].share.prev;
      }
    }

    /** Scan the uncles in order; the work they add when none offends. */
    method CheckUncles(s: Share, ancestry: set<ShareId>) returns (bad: Option<ShareId>, work: nat)
      requires Rooted(entries) && ancestry == set id | id in Branch(entries, s.prev)
      ensures bad == FirstBadUncle(entries, s, |s.uncles|)
      ensures bad.None? ==> work == UncleWork(entries, s.uncles)
    {
      hide FirstBadUncle, UncleWork, UncleWeight, Branch, Rooted;
      work := 0;
      var seen: set<ShareId> := {};
      NoUncles(entries, s);
      var k := 0;
      while k < |s.uncles|
        invariant 0 <= k <= |s.uncles| && seen == set u | u in s.uncles[..k]
        invariant FirstBadUncle(entries, s, k).None? && work == UncleWork(entries, s.uncles[..k])
      {
        var u := s.uncles[k];
        assert s.uncles[..k + 1] == s.uncles[..k] + [u];
        BadUncleStep(entries, s, k);
        if u == s.id || u in ancestry || u in seen || u !in entries {
          BadUncleStays(entries, s, k + 1, |s.uncles|);
          return Some(u), work;
        }
        UncleWorkStep(entries, s.uncles, k);
        seen, work := seen + {u}, work + UncleWeight(entries[u].share.work);
        k := k + 1;
      }
      assert s.uncles[..k] == s.uncles;
      bad := None;
    }

    /** Enforce every rule; a refused share leaves no trace. */
    method Accept(share: Share, reward: nat, embedded: Amounts) returns (error: Option<ShareError>)
      requires Valid()
      modifies this
      ensures Valid() && deliveries == old(deliveries) + [Delivery(share, reward, embedded)]
      ensures match ShareLedger.Accept(old(Chain(entries, tip)), share, reward, embedded)
              case Refused(e) => error == Some(e) && entries == old(entries) && tip == old(tip)
              case Accepted(c) => error == None && Chain(entries, tip) == c
    {
      hide Run, FirstBadUncle, ShareLedger.PayoutsFor, Branch, UncleWork, Inv;
      ghost var before := Chain(entries, tip);
      RunNext(deliveries, Delivery(share, reward, embedded));
      deliveries := deliveries + [Delivery(share, reward, embedded)];
      if share.id in entries { return Some(Duplicate(share.id)); }
      if share.work == 0 { return Some(ZeroWork); }
      if share.prev.Some? && share.prev.value !in entries { return Some(UnknownParent(share.prev.value)); }
      var ancestry := AncestryOf(share.prev);
      var bad, uncleWork := CheckUncles(share, ancestry);
      if bad.Some? { return Some(BadUncle(bad.value)); }
      if share.isBlock {
        var expected := PayoutsFor(share.prev, reward);
        if expected != embedded { return Some(WrongPayouts(expected, embedded)); }
      }
      var height := if share.prev.Some? then entries[share.prev.value].height + 1 else 0;
      var work := (if share.prev.Some? then entries[share.prev.value].cumulativeWork else 0) + share.work + uncleWork;
      var better := tip.None? || tip.value !in entries || work > entries[tip.value].cumulativeWork;
      entries := entries[share.id := Entry(share, height, work)];
      if better { tip := Some(share.id); }
      assert Chain(entries, tip) == Record(before, share);
      error := None;
    }
  }
}
