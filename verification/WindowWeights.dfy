/** What a payout window weighs: which shares it counts, at what weight, and for whom. */
module WindowWeights {
  import opened ByteStrings
  import opened Shares
  import opened Payouts
  import opened ShareLedger
  import opened ShareTheorems
  import opened UncleCitations
  import opened AcceptRules

  /** Work on the main line counts in full, an uncle's at three quarters, rounded down. */
  function Worth(e: Entries, line: seq<ShareId>, id: ShareId): nat
    requires id in e
  {
    if id in line then e[id].share.work else 3 * e[id].share.work / 4
  }

  /** What the shares of `ids` found by `a` are worth. */
  function EarnedBy(e: Entries, line: seq<ShareId>, ids: seq<ShareId>, a: AccountId): nat {
    if ids == [] then 0 else
      (if ids[0] in e && e[ids[0]].share.finder == a then Worth(e, line, ids[0]) else 0)
      + EarnedBy(e, line, ids[1..], a)
  }

  function TotalWorth(e: Entries, line: seq<ShareId>, ids: seq<ShareId>): nat {
    if ids == [] then 0 else (if ids[0] in e then Worth(e, line, ids[0]) else 0) + TotalWorth(e, line, ids[1..])
  }

  ghost predicate Contributes(e: Entries, line: seq<ShareId>, c: Contribution, id: ShareId) {
    id in e && c == Contribution(e[id].share.finder, Worth(e, line, id))
  }

  // ----- the contributions of a window -----

  /** **Weights.** Contribution `i` of a window of any reachable chain is made to the finder of its `i`-th counted
      share: the share's work if it is on the main line, three quarters of it if it is an uncle. */
  lemma {:induction false} CountedContribute(ds: seq<Delivery>, cur: Option<ShareId>, n: nat)
    ensures var e := Run(ds).entries;
            var cs, ids, line := Window(e, cur, n), CountedIds(e, cur, n), MainLine(e, cur, n);
            |cs| == |ids| && forall i | 0 <= i < |cs| :: Contributes(e, line, cs[i], ids[i])
    decreases n
  {
    hide Run, UncleContributions, UncleWeight, Branch, Contributes;
    var e := Run(ds).entries;
    if n > 0 && cur.Some? && cur.value in e {
      var s := e[cur.value].share;
      var rest, restIds, restLine := Window(e, s.prev, n - 1), CountedIds(e, s.prev, n - 1), MainLine(e, s.prev, n - 1);
      CountedContribute(ds, s.prev, n - 1);
      UnclesKnown(ds, cur.value);
      UnclesContribute(e, s.uncles);
      var line := MainLine(e, cur, n);
      assert line == [cur.value] + restLine;
      OwnContributes(e, cur.value, line);
      forall i | 0 <= i < |s.uncles|
        ensures Contributes(e, line, UncleContributions(e, s.uncles)[i], s.uncles[i])
      {
        UncleContributes(ds, cur.value, n, i);
      }
      forall i | 0 <= i < |rest| ensures Contributes(e, line, rest[i], restIds[i]) {
        NewestMeetsRest(ds, cur.value, n - 1);
        LineGrows(e, restLine, cur.value, rest[i], restIds[i]);
      }
    }
  }

  lemma UnclesKnown(ds: seq<Delivery>, id: ShareId)
    requires id in Run(ds).entries
    ensures forall u | u in Run(ds).entries[id].share.uncles :: u in Run(ds).entries
  {
    assert EntryRight(Run(ds).entries, id);
  }

  lemma OwnContributes(e: Entries, id: ShareId, line: seq<ShareId>)
    requires id in e && id in line
    ensures Contributes(e, line, Contribution(e[id].share.finder, e[id].share.work), id)
  {
  }

  lemma UncleContributes(ds: seq<Delivery>, cur: ShareId, n: nat, i: nat)
    requires var e := Run(ds).entries; cur in e && i < |e[cur].share.uncles|
    requires var e := Run(ds).entries; |UncleContributions(e, e[cur].share.uncles)| == |e[cur].share.uncles|
    requires var e := Run(ds).entries; forall u | u in e[cur].share.uncles :: u in e
    ensures var e := Run(ds).entries;
            var uncles := e[cur].share.uncles;
            Contributes(e, MainLine(e, Some(cur), n), UncleContributions(e, uncles)[i], uncles[i])
  {
    hide Run, UncleContributions, UncleWeight, Branch, MainLine;
    var e := Run(ds).entries;
    var u := e[cur].share.uncles[i];
    assert u in e[cur].share.uncles;
    UnclesContribute(e, e[cur].share.uncles);
    UncleWeightIsThreeQuarters(e[u].share.work);
    NewestOnBranch(ds, cur);
    MainLineNeverUncle(ds, cur, cur, u);
    MainLineOnBranch(e, Some(cur), n);
  }

  lemma NewestOnBranch(ds: seq<Delivery>, cur: ShareId)
    requires cur in Run(ds).entries
    ensures cur in Branch(Run(ds).entries, Some(cur))
  {
    BranchUnfold(Run(ds).entries, cur);
  }

  lemma LineGrows(e: Entries, line: seq<ShareId>, cur: ShareId, c: Contribution, id: ShareId)
    requires Contributes(e, line, c, id) && id != cur
    ensures Contributes(e, [cur] + line, c, id)
  {
  }

  // ----- what each account weighs -----

  lemma {:induction false} EarnedAppend(e: Entries, line: seq<ShareId>, ids: seq<ShareId>, id: ShareId, a: AccountId)
    requires id in e
    ensures EarnedBy(e, line, ids + [id], a)
         == EarnedBy(e, line, ids, a) + if e[id].share.finder == a then Worth(e, line, id) else 0
    ensures TotalWorth(e, line, ids + [id]) == TotalWorth(e, line, ids) + Worth(e, line, id)
  {
    hide Worth;
    var w := ids + [id];
    if ids == [] {
      assert w[1..] == [];
    } else {
      assert w[1..] == ids[1..] + [id];
      EarnedAppend(e, line, ids[1..], id, a);
    }
  }

  lemma {:induction false} WeightsAreEarned(e: Entries, line: seq<ShareId>, cs: seq<Contribution>, ids: seq<ShareId>,
                                            a: AccountId)
    requires |cs| == |ids| && forall i | 0 <= i < |cs| :: Contributes(e, line, cs[i], ids[i])
    ensures forall id | id in ids :: id in e
    ensures Paid(WeightsOf(cs), a) == EarnedBy(e, line, ids, a) && TotalOf(cs) == TotalWorth(e, line, ids)
    ensures a in WeightsOf(cs) <==> exists id :: id in ids && id in e && e[id].share.finder == a
  {
    forall id | id in ids ensures id in e {
      var i :| 0 <= i < |ids| && ids[i] == id;
      assert Contributes(e, line, cs[i], ids[i]);
    }
    if cs != [] {
      hide Worth;
      var n := |cs| - 1;
      var front, last := ids[..n], ids[n];
      assert ids == front + [last] && Contributes(e, line, cs[n], ids[n]);
      WeightsAreEarned(e, line, cs[..n], front, a);
      EarnedAppend(e, line, front, last, a);
    }
  }

  /** **The branch.** A window's main line is the front of the parent's branch. */
  lemma {:induction false} MainLineIsPrefix(e: Entries, cur: Option<ShareId>, n: nat)
    requires Rooted(e)
    ensures var b := Branch(e, cur); MainLine(e, cur, n) == b[..if n < |b| then n else |b|]
    decreases n
  {
    if n > 0 && cur.Some? && cur.value in e {
      assert RootedAt(e, cur.value);
      BranchUnfold(e, cur.value);
      MainLineIsPrefix(e, e[cur.value].share.prev, n - 1);
    }
  }

  ghost function Newest(b: seq<ShareId>, n: nat): seq<ShareId> { if n < |b| then b[..n] else b }

  /** `weights` holds exactly the finders of `ids`, each with what its shares are worth. */
  ghost predicate WeighsAsEarned(weights: Amounts, e: Entries, line: seq<ShareId>, ids: seq<ShareId>) {
    forall a :: (a in weights <==> exists id :: id in ids && id in e && e[id].share.finder == a)
             && (a in weights ==> weights[a] == EarnedBy(e, line, ids, a))
  }

  /** **Payouts.** The payouts due on any parent are the split of the reward over the last 1000 shares of its branch and
      the uncles those cite, each finder weighing the work of their own shares and three quarters of each of their
      uncles'. */
  lemma PayoutsSplitTheWindow(ds: seq<Delivery>, parent: Option<ShareId>, reward: nat, weights: Amounts)
    requires var e := Run(ds).entries;
             WeighsAsEarned(weights, e, Newest(Branch(e, parent), 1000), CountedIds(e, parent, 1000))
    ensures PayoutsFor(Run(ds).entries, parent, reward) == Split(weights, reward)
  {
    hide Run, Branch, MainLine, CountedIds, Window, Split, WeightsOf, EarnedBy, TotalOf, TotalWorth;
    var e := Run(ds).entries;
    var cs, ids := Window(e, parent, 1000), CountedIds(e, parent, 1000);
    CountedContribute(ds, parent, 1000);
    MainLineIsPrefix(e, parent, 1000);
    var line := Newest(Branch(e, parent), 1000);
    assert line == MainLine(e, parent, 1000);
    forall a ensures (a in WeightsOf(cs) <==> a in weights) && (a in weights ==> WeightsOf(cs)[a] == weights[a]) {
      WeightsAreEarned(e, line, cs, ids, a);
    }
    assert WeightsOf(cs) == weights;
  }

  // ----- cumulative work -----

  lemma {:induction false} UncleTotal(e: Entries, uncles: seq<ShareId>)
    ensures TotalOf(UncleContributions(e, uncles)) == UncleWork(e, uncles)
  {
    if uncles != [] {
      var front, last := uncles[..|uncles| - 1], uncles[|uncles| - 1];
      UncleTotal(e, front);
      var own := if last in e then [Contribution(e[last].share.finder, UncleWeight(e[last].share.work))] else [];
      TotalOfAppend(UncleContributions(e, front), own);
      if last in e { TotalOfOne(own[0]); }
    }
  }

  lemma TotalOfOne(c: Contribution)
    ensures TotalOf([c]) == c.weight
  {
    assert [c][..0] == [];
  }

  lemma NoTotal()
    ensures TotalOf([]) == 0
  {
  }

  /** A window never holds more than the cumulative work of its parent, and all of it once it reaches the root. */
  lemma {:induction false} WindowBelowWork(e: Entries, cur: Option<ShareId>, n: nat)
    requires Rooted(e)
    ensures TotalOf(Window(e, cur, n)) <= WorkOf(e, cur)
    ensures Rank(e, cur) <= n ==> TotalOf(Window(e, cur, n)) == WorkOf(e, cur)
    decreases n
  {
    hide TotalOf, UncleContributions, UncleWork;
    if n == 0 || cur.None? || cur.value !in e {
      NoTotal();
    } else {
      assert RootedAt(e, cur.value);
      var s := e[cur.value].share;
      var own := Contribution(s.finder, s.work);
      WindowBelowWork(e, s.prev, n - 1);
      UncleTotal(e, s.uncles);
      TotalOfOne(own);
      TotalOfAppend([own], UncleContributions(e, s.uncles));
      TotalOfAppend(ShareContributions(e, s), Window(e, s.prev, n - 1));
    }
  }

  /** **Cumulative work.** A share's cumulative work is what its whole branch and the uncles cited on it are worth. */
  lemma CumulativeWorkIsWorth(ds: seq<Delivery>, id: ShareId)
    requires id in Run(ds).entries
    ensures var e := Run(ds).entries;
            var b := Branch(e, Some(id));
            e[id].cumulativeWork == TotalWorth(e, b, CountedIds(e, Some(id), |b|))
  {
    hide Run, Branch, MainLine, CountedIds, Window, WeightsOf, EarnedBy, TotalOf, TotalWorth, WorkOf;
    var e := Run(ds).entries;
    var b := Branch(e, Some(id));
    assert EntryRight(e, id);
    BranchReachesRoot(e, id);
    CountedContribute(ds, Some(id), |b|);
    MainLineIsPrefix(e, Some(id), |b|);
    assert b[..|b|] == b;
    WeightsAreEarned(e, b, Window(e, Some(id), |b|), CountedIds(e, Some(id), |b|), []);
    WindowBelowWork(e, Some(id), |b|);
  }
}
