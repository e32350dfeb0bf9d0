/** Shares that build on nothing. A share's `prev` is meant to be absent only for the first share ever; the rules
    admit any number of such shares, and this says exactly when a second one appears. */
module ShareRoots {
  import opened ByteStrings
  import opened Shares
  import opened Payouts
  import opened ShareLedger
  import opened ShareTheorems

  ghost predicate IsRoot(e: Entries, id: ShareId) { id in e && e[id].share.prev.None? }

  ghost predicate OneRoot(e: Entries) { forall a, b | IsRoot(e, a) && IsRoot(e, b) :: a == b }

  /** The rules let a share that builds on nothing in: it is new, has work and clean uncles, and a block of this
      kind pays nobody. */
  ghost predicate AdmitsRoot(c: Chain, d: Delivery)
    requires Rooted(c.entries)
  {
    && d.share.prev.None? && d.share.id !in c.entries && d.share.work > 0
    && FirstBadUncle(c.entries, d.share, |d.share.uncles|).None?
    && (d.share.isBlock ==> d.embedded == map[])
  }

  lemma AcceptsRoot(c: Chain, d: Delivery)
    requires Inv(c) && d.share.prev.None?
    ensures AdmitsRoot(c, d) <==> Accept(c, d.share, d.reward, d.embedded).Accepted?
  {
    NothingDue(c.entries, None, d.reward);
  }

  lemma NonEmptyHasRoot(c: Chain) returns (root: ShareId)
    requires Inv(c) && c.entries != map[]
    ensures IsRoot(c.entries, root)
  {
    var id :| id in c.entries;
    BranchReachesRoot(c.entries, id);
    var b := Branch(c.entries, Some(id));
    root := b[|b| - 1];
  }

  /** **One step.** A chain with at most one root keeps at most one, unless it has one already and admits another. */
  lemma StepKeepsOneRootIff(c: Chain, d: Delivery)
    requires Inv(c) && OneRoot(c.entries)
    ensures OneRoot(Step(c, d).entries) <==> c.entries == map[] || !AdmitsRoot(c, d)
  {
    hide FirstBadUncle, UncleWork, Branch, PayoutsFor, EntryRight;
    var c' := Step(c, d);
    AcceptInv(c, d.share, d.reward, d.embedded);
    if d.share.prev.None? { AcceptsRoot(c, d); }
    if c.entries == map[] {
      assert forall id | id in c'.entries :: id == d.share.id;
    } else if AdmitsRoot(c, d) {
      var root := NonEmptyHasRoot(c);
      assert IsRoot(c'.entries, root) && IsRoot(c'.entries, d.share.id);
    } else {
      forall id | IsRoot(c'.entries, id) ensures IsRoot(c.entries, id) {
      }
    }
  }

  lemma RootsStay(e: Entries, f: Entries)
    requires Extends(e, f) && !OneRoot(e)
    ensures !OneRoot(f)
  {
    var a, b :| IsRoot(e, a) && IsRoot(e, b) && a != b;
    assert IsRoot(f, a) && IsRoot(f, b);
  }

  /** Delivery `i` of a run adds a root to a chain that has one. */
  ghost predicate SecondRootAt(ds: seq<Delivery>, i: nat)
    requires i < |ds|
  {
    Run(ds[..i]).entries != map[] && AdmitsRoot(Run(ds[..i]), ds[i])
  }

  /** **Whole runs.** Only the first share ever is without a parent exactly when no delivery of the run is a share
      without one, admitted by the rules to a chain that is not empty. */
  lemma {:induction false} RunHasOneRootIff(ds: seq<Delivery>)
    ensures OneRoot(Run(ds).entries) <==> forall i | 0 <= i < |ds| :: !SecondRootAt(ds, i)
  {
    if ds != [] {
      hide AdmitsRoot, OneRoot;
      var n := |ds| - 1;
      var front := ds[..n];
      RunHasOneRootIff(front);
      forall i | 0 <= i < n ensures SecondRootAt(ds, i) <==> SecondRootAt(front, i) { assert front[..i] == ds[..i]; }
      StepExtends(ds);
      if OneRoot(Run(front).entries) {
        StepKeepsOneRootIff(Run(front), ds[n]);
        assert SecondRootAt(ds, n) <==> !OneRoot(Run(ds).entries);
      } else {
        RootsStay(Run(front).entries, Run(ds).entries);
      }
    } else {
      assert Run(ds).entries == map[];
    }
  }

  /** A share that builds on nothing, cites nothing and carries no block. */
  function Lone(id: ShareId, finder: AccountId, work: nat): Delivery {
    Delivery(Share(id, None, [], finder, work, false, 0), 0, map[])
  }

  lemma LoneIsAccepted(ds: seq<Delivery>, id: ShareId, finder: AccountId, work: nat)
    requires id !in Run(ds).entries && work > 0
    ensures var d := Lone(id, finder, work);
            var e, e' := Run(ds).entries, Run(ds + [d]).entries;
            e'.Keys == e.Keys + {id} && Extends(e, e') && e'[id].share == d.share
  {
    var d := Lone(id, finder, work);
    assert (ds + [d])[..|ds|] == ds;
    assert FirstBadUncle(Run(ds).entries, d.share, 0).None?;
    AcceptInv(Run(ds), d.share, d.reward, d.embedded);
  }

  lemma NothingRun()
    ensures Run([]).entries == map[]
  {
  }

  /** The run that breaks the documented rule: two shares without a parent, both accepted. */
  lemma TwoRoots(a: ShareId, b: ShareId, finder: AccountId, work: nat)
    requires a != b && work > 0
    ensures var e := Run([Lone(a, finder, work), Lone(b, finder, work)]).entries;
            IsRoot(e, a) && IsRoot(e, b) && !OneRoot(e)
  {
    hide Run, AdmitsRoot;
    var first, second := Lone(a, finder, work), Lone(b, finder, work);
    NothingRun();
    LoneIsAccepted([], a, finder, work);
    assert [] + [first] == [first];
    LoneIsAccepted([first], b, finder, work);
    assert [first] + [second] == [first, second];
    var e := Run([first, second]).entries;
    assert IsRoot(e, a) && IsRoot(e, b);
  }

  /** The run that breaks the documented payout: the first block of a chain is accepted with the whole reward kept. */
  lemma FirstBlockPaysNobody(id: ShareId, finder: AccountId, reward: nat)
    requires reward > 0
    ensures var s := Share(id, None, [], finder, 1, true, 0);
            Accept(Run([]), s, reward, map[]) == Accepted(Record(Run([]), s)) && Sum(map[]) != reward
  {
    var s := Share(id, None, [], finder, 1, true, 0);
    assert FirstBadUncle(Run([]).entries, s, 0).None?;
    NothingDue(Run([]).entries, None, reward);
  }
}
