/** How often a payout window counts a piece of work. A branch never meets its own uncles, but nothing stops two of
    its shares from citing the same one, and then it is paid for each citation. */
module UncleCitations {
  import opened ByteStrings
  import opened Shares
  import opened Payouts
  import opened ShareLedger
  import opened ShareTheorems
  import opened ShareRoots

  /** The last `n` shares up to `cur`. */
  function MainLine(e: Entries, cur: Option<ShareId>, n: nat): seq<ShareId>
    decreases n
  {
    if n == 0 || cur.None? || cur.value !in e then [] else [cur.value] + MainLine(e, e[cur.value].share.prev, n - 1)
  }

  /** The shares a window counts, one for each contribution. */
  function CountedIds(e: Entries, cur: Option<ShareId>, n: nat): seq<ShareId>
    decreases n
  {
    if n == 0 || cur.None? || cur.value !in e then [] else
      var s := e[cur.value].share;
      [cur.value] + s.uncles + CountedIds(e, s.prev, n - 1)
  }

  ghost predicate ShareAnUncle(e: Entries, x: ShareId, y: ShareId)
    requires x in e && y in e
  {
    exists u :: u in e[x].share.uncles && u in e[y].share.uncles
  }

  /** No two shares of `line` cite a common uncle. */
  ghost predicate UnclesApart(e: Entries, line: seq<ShareId>)
    requires forall x | x in line :: x in e
  {
    forall x, y | x in line && y in line && x != y :: !ShareAnUncle(e, x, y)
  }

  // ----- the counted shares are the contributors -----

  lemma {:induction false} UnclesContribute(e: Entries, uncles: seq<ShareId>)
    requires forall u | u in uncles :: u in e
    ensures var cs := UncleContributions(e, uncles);
            |cs| == |uncles| && forall i | 0 <= i < |cs| ::
              cs[i] == Contribution(e[uncles[i]].share.finder, UncleWeight(e[uncles[i]].share.work))
  {
    if uncles != [] {
      var front, last := uncles[..|uncles| - 1], uncles[|uncles| - 1];
      assert last in uncles;
      UnclesContribute(e, front);
    }
  }

  // ----- where counted shares come from -----

  lemma {:induction false} MainLineOnBranch(e: Entries, cur: Option<ShareId>, n: nat)
    requires Rooted(e)
    ensures forall id | id in MainLine(e, cur, n) :: id in e && id in Branch(e, cur)
    decreases n
  {
    if n > 0 && cur.Some? && cur.value in e {
      assert RootedAt(e, cur.value);
      BranchUnfold(e, cur.value);
      MainLineOnBranch(e, e[cur.value].share.prev, n - 1);
    }
  }

  /** A counted share is on the main line or an uncle of a share that is. */
  lemma {:induction false} CountedFrom(e: Entries, cur: Option<ShareId>, n: nat, id: ShareId)
    requires Rooted(e)
    ensures forall x | x in MainLine(e, cur, n) :: x in e
    ensures id in CountedIds(e, cur, n)
       <==> id in MainLine(e, cur, n) || exists x :: x in MainLine(e, cur, n) && id in e[x].share.uncles
    decreases n
  {
    MainLineOnBranch(e, cur, n);
    if n > 0 && cur.Some? && cur.value in e {
      var prev, line := e[cur.value].share.prev, MainLine(e, cur, n);
      CountedFrom(e, prev, n - 1, id);
      assert forall x :: x in line <==> x == cur.value || x in MainLine(e, prev, n - 1);
    }
  }

  lemma {:induction false} BranchIsOlder(e: Entries, cur: Option<ShareId>, id: ShareId)
    requires Rooted(e) && id in Branch(e, cur)
    ensures id in e && e[id].height < Rank(e, cur)
    decreases Rank(e, cur)
  {
    assert RootedAt(e, cur.value);
    if id != cur.value { BranchIsOlder(e, e[cur.value].share.prev, id); }
  }

  /** The newest share and its uncles meet the rest of the window only in uncles cited again. */
  lemma NewestMeetsRest(ds: seq<Delivery>, cur: ShareId, n: nat)
    requires cur in Run(ds).entries
    ensures var e := Run(ds).entries;
            var s := e[cur].share;
            var line, rest := MainLine(e, s.prev, n), CountedIds(e, s.prev, n);
            && (forall x | x in line :: x in e)
            && cur !in s.uncles && cur !in rest && cur !in line && Distinct(s.uncles)
            && forall u | u in s.uncles :: u in rest <==> exists x :: x in line && u in e[x].share.uncles
  {
    hide Run;
    var e := Run(ds).entries;
    var s := e[cur].share;
    var line, rest := MainLine(e, s.prev, n), CountedIds(e, s.prev, n);
    assert EntryRight(e, cur) && RootedAt(e, cur);
    BranchUnfold(e, cur);
    MainLineOnBranch(e, s.prev, n);
    CountedFrom(e, s.prev, n, cur);
    if cur in line { BranchIsOlder(e, s.prev, cur); }
    forall x | x in line ensures cur !in e[x].share.uncles {
      if cur in e[x].share.uncles { MainLineNeverUncle(ds, cur, x, cur); }
    }
    forall u | u in s.uncles ensures u in rest <==> exists x :: x in line && u in e[x].share.uncles {
      CountedFrom(e, s.prev, n, u);
      MainLineNeverUncle(ds, cur, cur, u);
    }
  }

  lemma DistinctAppend(a: seq<ShareId>, b: seq<ShareId>)
    ensures Distinct(a + b) <==> Distinct(a) && Distinct(b) && forall x | x in a :: x !in b
  {
    var w := a + b;
    if Distinct(w) {
      forall i, j | 0 <= i < j < |a| ensures a[i] != a[j] { assert w[i] != w[j]; }
      forall i, j | 0 <= i < j < |b| ensures b[i] != b[j] { assert w[|a| + i] != w[|a| + j]; }
      forall i, j | 0 <= i < |a| && 0 <= j < |b| ensures a[i] != b[j] { assert w[i] != w[|a| + j]; }
    }
    if Distinct(a) && Distinct(b) && forall x | x in a :: x !in b {
      forall i, j | 0 <= i < j < |w| ensures w[i] != w[j] {
        if i < |a| <= j { assert w[i] in a && w[j] in b; }
      }
    }
  }

  lemma ApartStep(e: Entries, cur: ShareId, line: seq<ShareId>)
    requires cur in e && cur !in line && forall x | x in line :: x in e
    ensures UnclesApart(e, [cur] + line)
       <==> UnclesApart(e, line) && forall x | x in line :: !ShareAnUncle(e, cur, x)
  {
    hide ShareAnUncle;
    ShareAnUncleSymmetric(e, cur, line);
    assert forall x :: x in [cur] + line <==> x == cur || x in line;
  }

  lemma ShareAnUncleSymmetric(e: Entries, cur: ShareId, line: seq<ShareId>)
    requires cur in e && forall x | x in line :: x in e
    ensures forall x | x in line :: ShareAnUncle(e, cur, x) <==> ShareAnUncle(e, x, cur)
  {
  }

  lemma DistinctStep(cur: ShareId, uncles: seq<ShareId>, rest: seq<ShareId>)
    requires cur !in uncles && cur !in rest && Distinct(uncles)
    ensures Distinct([cur] + uncles + rest) <==> Distinct(rest) && forall u | u in uncles :: u !in rest
  {
    DistinctAppend([cur], uncles);
    DistinctAppend([cur] + uncles, rest);
    assert forall x :: x in [cur] + uncles <==> x == cur || x in uncles;
  }

  /** **Counted once.** A window of any length, on any parent of any reachable chain, counts every piece of work once
      exactly when no two of its shares cite a common uncle. */
  lemma {:induction false} CountedOnceIff(ds: seq<Delivery>, cur: Option<ShareId>, n: nat)
    ensures forall x | x in MainLine(Run(ds).entries, cur, n) :: x in Run(ds).entries
    ensures Distinct(CountedIds(Run(ds).entries, cur, n))
       <==> UnclesApart(Run(ds).entries, MainLine(Run(ds).entries, cur, n))
    decreases n
  {
    hide Run, Distinct, UnclesApart;
    var e := Run(ds).entries;
    if n > 0 && cur.Some? && cur.value in e {
      var s := e[cur.value].share;
      var line, rest := MainLine(e, s.prev, n - 1), CountedIds(e, s.prev, n - 1);
      CountedOnceIff(ds, s.prev, n - 1);
      NewestMeetsRest(ds, cur.value, n - 1);
      DistinctStep(cur.value, s.uncles, rest);
      ApartStep(e, cur.value, line);
      assert (forall u | u in s.uncles :: u !in rest) <==> (forall x | x in line :: !ShareAnUncle(e, cur.value, x));
    } else {
      NothingCounted(e);
    }
  }

  lemma NothingCounted(e: Entries)
    ensures Distinct<ShareId>([]) && UnclesApart(e, [])
  {
  }

  // ----- an uncle paid twice -----

  /** A share on `parent` that cites one uncle and carries no block. */
  function Citing(id: ShareId, parent: ShareId, uncle: ShareId, finder: AccountId, work: nat): Delivery {
    Delivery(Share(id, Some(parent), [uncle], finder, work, false, 0), 0, map[])
  }

  /** Any known share off the parent's branch may be cited, whoever else has cited it. */
  lemma CitingIsAccepted(ds: seq<Delivery>, d: Delivery, parent: ShareId, uncle: ShareId)
    requires d == Citing(d.share.id, parent, uncle, d.share.finder, d.share.work) && d.share.work > 0
    requires var e := Run(ds).entries;
             && parent in e && uncle in e && d.share.id !in e
             && uncle !in Branch(e, Some(parent))
    ensures var e, e' := Run(ds).entries, Run(ds + [d]).entries;
            e'.Keys == e.Keys + {d.share.id} && Extends(e, e') && e'[d.share.id].share == d.share
  {
    var e := Run(ds).entries;
    assert (ds + [d])[..|ds|] == ds;
    assert FirstBadUncle(e, d.share, 0).None?;
    assert FirstBadUncle(e, d.share, 1).None?;
    AcceptInv(Run(ds), d.share, d.reward, d.embedded);
  }

  /** **Cited again.** Whatever share of a branch cited an uncle, the next share on that branch may cite it too. */
  lemma CitedAgain(ds: seq<Delivery>, d: Delivery, parent: ShareId, x: ShareId, uncle: ShareId)
    requires d == Citing(d.share.id, parent, uncle, d.share.finder, d.share.work) && d.share.work > 0
    requires var e := Run(ds).entries;
             && parent in e && x in e && d.share.id !in e
             && x in Branch(e, Some(parent)) && uncle in e[x].share.uncles
    ensures var e' := Run(ds + [d]).entries;
            && d.share.id in e' && x in e' && e'[d.share.id].share == d.share
            && ShareAnUncle(e', d.share.id, x)
  {
    var e := Run(ds).entries;
    assert EntryRight(e, x);
    MainLineNeverUncle(ds, parent, x, uncle);
    CitingIsAccepted(ds, d, parent, uncle);
    assert uncle in d.share.uncles;
  }

  lemma RootBranch(e: Entries, id: ShareId)
    requires Rooted(e) && IsRoot(e, id)
    ensures Branch(e, Some(id)) == [id]
  {
    BranchUnfold(e, id);
  }

  lemma CountedUnfold(e: Entries, id: ShareId, n: nat)
    requires id in e && n > 0
    ensures CountedIds(e, Some(id), n) == [id] + e[id].share.uncles + CountedIds(e, e[id].share.prev, n - 1)
  {
  }

  /** Two roots, and a share on the first that cites the second. */
  lemma CiteOther(r: ShareId, u: ShareId, x: ShareId, finder: AccountId, work: nat) returns (ds: seq<Delivery>)
    requires r != u && u != x && x != r && work > 0
    ensures ds == [Lone(r, finder, work), Lone(u, finder, work), Citing(x, r, u, finder, work)]
    ensures var e := Run(ds).entries;
            && e.Keys == {r, u, x} && e[x].share == Citing(x, r, u, finder, work).share
            && IsRoot(e, r) && e[r].share.uncles == []
  {
    hide Run;
    var a, b, c := Lone(r, finder, work), Lone(u, finder, work), Citing(x, r, u, finder, work);
    NothingRun();
    LoneIsAccepted([], r, finder, work);
    assert [] + [a] == [a];
    LoneIsAccepted([a], u, finder, work);
    assert [a] + [b] == [a, b];
    RootBranch(Run([a, b]).entries, r);
    CitingIsAccepted([a, b], c, r, u);
    assert [a, b] + [c] == [a, b, c];
    ds := [a, b, c];
  }

  /** The run that pays one piece of work twice: the uncle `u` is counted for `x` and again for `y`. */
  lemma CountedTwice(r: ShareId, u: ShareId, x: ShareId, y: ShareId, finder: AccountId, work: nat, n: nat)
    requires Distinct([r, u, x, y]) && work > 0 && n >= 3
    ensures var ds := [Lone(r, finder, work), Lone(u, finder, work), Citing(x, r, u, finder, work),
                       Citing(y, x, u, finder, work)];
            CountedIds(Run(ds).entries, Some(y), n) == [y, u, x, u, r]
  {
    hide Run, CountedIds;
    var v := [r, u, x, y];
    assert v[0] != v[1] && v[0] != v[2] && v[0] != v[3] && v[1] != v[2] && v[1] != v[3] && v[2] != v[3];
    var ds := CiteOther(r, u, x, finder, work);
    var d := Citing(y, x, u, finder, work);
    var e0 := Run(ds).entries;
    BranchUnfold(e0, x);
    RootBranch(e0, r);
    CitingIsAccepted(ds, d, x, u);
    assert ds + [d] == [ds[0], ds[1], ds[2], d];
    var e := Run(ds + [d]).entries;
    CountedUnfold(e, y, n);
    CountedUnfold(e, x, n - 1);
    CountedUnfold(e, r, n - 2);
    NobodyCounted(e, n - 3);
  }

  lemma NobodyCounted(e: Entries, n: nat)
    ensures CountedIds(e, None, n) == []
  {
  }
}
