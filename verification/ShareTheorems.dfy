/** What holds of the sharechain over whole runs: any deliveries, in any order, accepted or refused. */
module ShareTheorems {
  import opened ByteStrings
  import opened Shares
  import opened Payouts
  import opened ShareLedger

  datatype Delivery = Delivery(share: Share, reward: nat, embedded: Amounts)

  const EMPTY: Chain := Chain(map[], None)

  ghost function Step(c: Chain, d: Delivery): Chain
    requires Rooted(c.entries)
  {
    match Accept(c, d.share, d.reward, d.embedded)
    case Accepted(c') => c'
    case Refused(_) => c
  }

  /** The chain after a run of deliveries; every reachable chain obeys the invariant. */
  ghost function Run(ds: seq<Delivery>): (c: Chain)
    ensures Inv(c)
  {
    if ds == [] then EMPTY else
      var c := Run(ds[..|ds| - 1]);
      var d := ds[|ds| - 1];
      AcceptInv(c, d.share, d.reward, d.embedded);
      Step(c, d)
  }

  lemma StepExtends(ds: seq<Delivery>)
    requires ds != []
    ensures Extends(Run(ds[..|ds| - 1]).entries, Run(ds).entries)
    ensures TipWork(Run(ds[..|ds| - 1])) <= TipWork(Run(ds))
  {
    var d := ds[|ds| - 1];
    AcceptInv(Run(ds[..|ds| - 1]), d.share, d.reward, d.embedded);
  }

  /** Nothing accepted is ever altered or forgotten, and the tip never gets lighter. */
  lemma {:induction false} RunExtends(ds: seq<Delivery>, i: nat)
    requires i <= |ds|
    ensures Extends(Run(ds[..i]).entries, Run(ds).entries)
    ensures TipWork(Run(ds[..i])) <= TipWork(Run(ds))
  {
    if i == |ds| {
      assert ds[..i] == ds;
    } else {
      RunExtends(ds[..|ds| - 1], i);
      assert ds[..|ds| - 1][..i] == ds[..i];
      StepExtends(ds);
    }
  }

  // ----- a branch never meets its own uncles -----

  lemma BranchUnfold(e: Entries, id: ShareId)
    requires Rooted(e) && id in e
    ensures Branch(e, Some(id)) == [id] + Branch(e, e[id].share.prev)
  {
  }

  lemma BranchOfNone(e: Entries)
    requires Rooted(e)
    ensures Branch(e, None) == []
  {
  }

  /** Of two shares on one branch, one builds on the other. */
  lemma {:induction false} BranchLinear(e: Entries, cur: Option<ShareId>, x: ShareId, y: ShareId)
    requires Rooted(e) && x in Branch(e, cur) && y in Branch(e, cur)
    ensures x in Branch(e, Some(y)) || y in Branch(e, Some(x))
    decreases Rank(e, cur)
  {
    assert RootedAt(e, cur.value);
    if x != cur.value && y != cur.value { BranchLinear(e, e[cur.value].share.prev, x, y); }
  }

  /** **Paid once.** On any branch of any reachable chain, no main-line share is cited as an uncle by another:
      not by a descendant, which the ancestor check refuses, nor by an ancestor, which was accepted first. */
  lemma MainLineNeverUncle(ds: seq<Delivery>, top: ShareId, x: ShareId, u: ShareId)
    requires top in Run(ds).entries && x in Branch(Run(ds).entries, Some(top))
    requires x in Run(ds).entries && u in Run(ds).entries[x].share.uncles
    ensures u !in Branch(Run(ds).entries, Some(top))
  {
    var e := Run(ds).entries;
    assert RootedAt(e, x) && EntryRight(e, x);
    BranchUnfold(e, x);
    if u in Branch(e, Some(top)) { BranchLinear(e, Some(top), x, u); }
  }

  // ----- delivery order does not matter -----

  function SharesOf(e: Entries): map<ShareId, Share> { map id | id in e :: e[id].share }

  lemma {:induction false} SameUncleWork(e: Entries, f: Entries, uncles: seq<ShareId>)
    requires SharesOf(e) == SharesOf(f)
    ensures UncleWork(e, uncles) == UncleWork(f, uncles)
    ensures UncleContributions(e, uncles) == UncleContributions(f, uncles)
  {
    if uncles != [] {
      var u := uncles[|uncles| - 1];
      SameUncleWork(e, f, uncles[..|uncles| - 1]);
      assert u in SharesOf(e) <==> u in SharesOf(f);
      if u in e { assert SharesOf(e)[u] == SharesOf(f)[u]; }
    }
  }

  lemma {:induction false} SameEntry(c: Chain, d: Chain, id: ShareId)
    requires Inv(c) && Inv(d) && SharesOf(c.entries) == SharesOf(d.entries) && id in c.entries
    ensures id in d.entries && c.entries[id] == d.entries[id]
    decreases c.entries[id].height
  {
    assert id in SharesOf(d.entries) && SharesOf(c.entries)[id] == SharesOf(d.entries)[id];
    assert RootedAt(c.entries, id) && RootedAt(d.entries, id);
    assert EntryRight(c.entries, id) && EntryRight(d.entries, id);
    var s := c.entries[id].share;
    SameUncleWork(c.entries, d.entries, s.uncles);
    if s.prev.Some? {
      assert EntryRight(c.entries, s.prev.value) && EntryRight(d.entries, s.prev.value);
      SameEntry(c, d, s.prev.value);
      assert s.prev == Some(s.prev.value);
    }
    assert WorkOf(c.entries, s.prev) == WorkOf(d.entries, s.prev);
  }

  ghost predicate UniquelyHeaviest(e: Entries, id: ShareId) {
    id in e && forall other | other in e && other != id :: e[other].cumulativeWork < e[id].cumulativeWork
  }

  /** **Convergence.** Two peers holding the same shares, however they were delivered, agree on every height and
      every cumulative work, on the payouts due on every parent, on the tip's work, and on the tip itself
      whenever one share is strictly heaviest. */
  lemma SameSharesSameChain(ds: seq<Delivery>, ds': seq<Delivery>)
    requires SharesOf(Run(ds).entries) == SharesOf(Run(ds').entries)
    ensures Run(ds).entries == Run(ds').entries
    ensures forall parent, reward :: PayoutsFor(Run(ds).entries, parent, reward)
                                  == PayoutsFor(Run(ds').entries, parent, reward)
    ensures TipWork(Run(ds)) == TipWork(Run(ds'))
    ensures forall id | UniquelyHeaviest(Run(ds).entries, id) :: Run(ds).tip == Run(ds').tip == Some(id)
  {
    var c, c' := Run(ds), Run(ds');
    forall id | id in c.entries ensures id in c'.entries && c.entries[id] == c'.entries[id] {
      SameEntry(c, c', id);
    }
    forall id | id in c'.entries ensures id in c.entries { SameEntry(c', c, id); }
    assert c.entries == c'.entries;
  }

  // ----- payouts are settled once and for all -----

  lemma PayoutsStable(e: Entries, f: Entries, parent: Option<ShareId>, reward: nat)
    requires Rooted(e) && AllUnclesRight(e) && Extends(e, f) && (parent.Some? ==> parent.value in e)
    ensures PayoutsFor(f, parent, reward) == PayoutsFor(e, parent, reward)
  {
    WindowStable(e, f, parent, PPLNS_WINDOW);
  }

  /** **Stability.** What is due on a known parent never changes, whatever is delivered afterwards. */
  lemma PayoutsNeverChange(ds: seq<Delivery>, i: nat, parent: Option<ShareId>, reward: nat)
    requires i <= |ds| && (parent.Some? ==> parent.value in Run(ds[..i]).entries)
    ensures PayoutsFor(Run(ds).entries, parent, reward) == PayoutsFor(Run(ds[..i]).entries, parent, reward)
  {
    RunExtends(ds, i);
    InvUncles(Run(ds[..i]));
    PayoutsStable(Run(ds[..i]).entries, Run(ds).entries, parent, reward);
  }

  /** **Trustless payout.** Once a block share is accepted, the payouts it embeds are exactly those any peer
      recomputes for it, then and in every later state. */
  lemma AcceptedBlocksStayRight(ds: seq<Delivery>, i: nat)
    requires i < |ds| && ds[i].share.isBlock
    requires Accept(Run(ds[..i]), ds[i].share, ds[i].reward, ds[i].embedded).Accepted?
    ensures PayoutsFor(Run(ds).entries, ds[i].share.prev, ds[i].reward) == ds[i].embedded
  {
    PayoutsNeverChange(ds, i, ds[i].share.prev, ds[i].reward);
  }

  /** The main-line ids of a window and the uncles they cite. */
  function WindowIds(e: Entries, cur: Option<ShareId>, n: nat): set<ShareId>
    decreases n
  {
    if n == 0 || cur.None? || cur.value !in e then {} else
      var s := e[cur.value].share;
      {cur.value} + (set u | u in s.uncles) + WindowIds(e, s.prev, n - 1)
  }

  /** Both know `id`, as the same share, or neither does. */
  predicate SameShareAt(e: Entries, f: Entries, id: ShareId) {
    (id in e <==> id in f) && (id in e && id in f ==> e[id].share == f[id].share)
  }

  lemma {:induction false} UnclesLocal(e: Entries, f: Entries, uncles: seq<ShareId>)
    requires forall u | u in uncles :: SameShareAt(e, f, u)
    ensures UncleContributions(e, uncles) == UncleContributions(f, uncles)
  {
    if uncles != [] {
      assert SameShareAt(e, f, uncles[|uncles| - 1]);
      UnclesLocal(e, f, uncles[..|uncles| - 1]);
    }
  }

  lemma {:induction false} WindowLocal(e: Entries, f: Entries, cur: Option<ShareId>, n: nat)
    requires cur.Some? ==> SameShareAt(e, f, cur.value)
    requires Rooted(e) && forall id | id in WindowIds(e, cur, n) :: SameShareAt(e, f, id)
    ensures Window(e, cur, n) == Window(f, cur, n)
    decreases n
  {
    if n > 0 && cur.Some? && cur.value in e {
      var s := e[cur.value].share;
      assert RootedAt(e, cur.value);
      assert SameShareAt(e, f, cur.value);
      UnclesLocal(e, f, s.uncles);
      if n > 1 {
        if s.prev.Some? { assert s.prev.value in WindowIds(e, s.prev, n - 1); }
        WindowLocal(e, f, s.prev, n - 1);
      }
    }
  }

  /** **Locality.** Payouts read only the last `PPLNS_WINDOW` shares and the uncles those cite. */
  lemma PayoutsReadOnlyTheWindow(ds: seq<Delivery>, f: Entries, parent: Option<ShareId>, reward: nat)
    requires parent.Some? ==> SameShareAt(Run(ds).entries, f, parent.value)
    requires forall id | id in WindowIds(Run(ds).entries, parent, PPLNS_WINDOW) :: SameShareAt(Run(ds).entries, f, id)
    ensures PayoutsFor(Run(ds).entries, parent, reward) == PayoutsFor(f, parent, reward)
  {
    WindowLocal(Run(ds).entries, f, parent, PPLNS_WINDOW);
  }

  lemma {:induction false} TotalOfAppend(cs: seq<Contribution>, cs': seq<Contribution>)
    ensures TotalOf(cs + cs') == TotalOf(cs) + TotalOf(cs')
  {
    if cs' == [] {
      assert cs + cs' == cs;
    } else {
      assert (cs + cs')[..|cs + cs'| - 1] == cs + cs'[..|cs'| - 1];
      TotalOfAppend(cs, cs'[..|cs'| - 1]);
    }
  }

  lemma WindowWeighs(ds: seq<Delivery>, parent: ShareId)
    requires parent in Run(ds).entries
    ensures Sum(WeightsOf(Window(Run(ds).entries, Some(parent), PPLNS_WINDOW))) > 0
  {
    var e := Run(ds).entries;
    var s, w := e[parent].share, Window(e, Some(parent), PPLNS_WINDOW);
    assert EntryRight(e, parent);
    var first := [Contribution(s.finder, s.work)];
    assert w == first + (UncleContributions(e, s.uncles) + Window(e, s.prev, PPLNS_WINDOW - 1));
    TotalOfAppend(first, UncleContributions(e, s.uncles) + Window(e, s.prev, PPLNS_WINDOW - 1));
    assert first[..0] == [] && TotalOf(first) == s.work;
    WeightsSumToTotal(w);
  }

  lemma NothingDue(e: Entries, parent: Option<ShareId>, reward: nat)
    requires parent.None? || parent.value !in e
    ensures PayoutsFor(e, parent, reward) == map[]
  {
  }

  /** **Exact payout.** In every reachable chain the whole reward is paid out, to the last grain, on every known
      parent; with no parent, or an unknown one, there is no window to pay and nothing is. */
  lemma PayoutsSumToReward(ds: seq<Delivery>, parent: Option<ShareId>, reward: nat)
    ensures var e := Run(ds).entries;
            Sum(PayoutsFor(e, parent, reward)) == if parent.Some? && parent.value in e then reward else 0
  {
    var e := Run(ds).entries;
    if parent.None? || parent.value !in e {
      NothingDue(e, parent, reward);
    } else {
      WindowWeighs(ds, parent.value);
      if reward > 0 { SplitIsExact(WeightsOf(Window(e, parent, PPLNS_WINDOW)), reward); }
    }
  }

  /** **Who is paid.** An accepted block pays out its reward exactly when it builds on another share; one that
      builds on nothing is accepted exactly with empty payouts. */
  lemma BlockPaysIffItBuilds(ds: seq<Delivery>, i: nat)
    requires i < |ds| && ds[i].share.isBlock && ds[i].reward > 0
    requires Accept(Run(ds[..i]), ds[i].share, ds[i].reward, ds[i].embedded).Accepted?
    ensures Sum(ds[i].embedded) == ds[i].reward <==> ds[i].share.prev.Some?
    ensures ds[i].embedded == map[] <==> ds[i].share.prev.None?
  {
    PayoutsSumToReward(ds[..i], ds[i].share.prev, ds[i].reward);
    if ds[i].share.prev.None? { NothingDue(Run(ds[..i]).entries, None, ds[i].reward); }
  }

  // ----- the tip -----

  /** The tip is known, heaviest, and nobody's parent. */
  lemma TipIsHeaviestLeaf(ds: seq<Delivery>, id: ShareId)
    requires id in Run(ds).entries
    ensures var c := Run(ds);
            && c.tip.Some? && c.tip.value in c.entries
            && c.entries[id].cumulativeWork <= TipWork(c)
            && c.entries[id].share.prev != c.tip
  {
    var c := Run(ds);
    assert RootedAt(c.entries, id) && EntryRight(c.entries, id);
    var s := c.entries[id].share;
    if s.prev.Some? { assert EntryRight(c.entries, s.prev.value); }
  }

  /** A branch counts `height + 1` shares and ends at one that builds on nothing. */
  lemma {:induction false} BranchReachesRoot(e: Entries, id: ShareId)
    requires Rooted(e) && id in e
    ensures var b := Branch(e, Some(id));
            |b| == e[id].height + 1 && b[|b| - 1] in e && e[b[|b| - 1]].share.prev.None?
    decreases e[id].height
  {
    assert RootedAt(e, id);
    BranchUnfold(e, id);
    if e[id].share.prev.Some? { BranchReachesRoot(e, e[id].share.prev.value); }
  }
}
