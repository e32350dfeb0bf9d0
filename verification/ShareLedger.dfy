/** The sharechain as a transition system: acceptance, ancestry, fork choice and the payout window. */
module ShareLedger {
  import opened ByteStrings
  import opened Shares
  import opened Payouts

  const PPLNS_WINDOW: nat := 1000
  const UNCLE_WEIGHT_PCT: nat := 75

  datatype Entry = Entry(share: Share, height: nat, cumulativeWork: nat)

  type Entries = map<ShareId, Entry>

  datatype Chain = Chain(entries: Entries, tip: Option<ShareId>)

  datatype ShareError =
    | Duplicate(id: ShareId)
    | UnknownParent(id: ShareId)
    | ZeroWork
    | BadUncle(id: ShareId)
    | WrongPayouts(expected: Amounts, got: Amounts)

  datatype Outcome = Accepted(chain: Chain) | Refused(error: ShareError)

  function UncleWeight(work: nat): nat { work * UNCLE_WEIGHT_PCT / 100 }

  // ----- ancestry -----

  /** The entry is filed under its own id, and its parent is known one level below. */
  ghost predicate RootedAt(e: Entries, id: ShareId)
    requires id in e
  {
    && e[id].share.id == id
    && match e[id].share.prev
       case None => e[id].height == 0
       case Some(p) => p in e && e[id].height == e[p].height + 1
  }

  ghost predicate Rooted(e: Entries) {
    forall id {:trigger RootedAt(e, id)} | id in e :: RootedAt(e, id)
  }

  function Rank(e: Entries, cur: Option<ShareId>): nat {
    if cur.Some? && cur.value in e then e[cur.value].height + 1 else 0
  }

  /** A share and everything it builds on, newest first. */
  ghost function Branch(e: Entries, cur: Option<ShareId>): seq<ShareId>
    requires Rooted(e)
    decreases Rank(e, cur)
  {
    if cur.None? || cur.value !in e then [] else
      assert RootedAt(e, cur.value);
      [cur.value] + Branch(e, e[cur.value].share.prev)
  }

  /** The recursive meaning of cumulative work. */
  ghost function WorkOf(e: Entries, cur: Option<ShareId>): nat
    requires Rooted(e)
    decreases Rank(e, cur)
  {
    if cur.None? || cur.value !in e then 0 else
      assert RootedAt(e, cur.value);
      var s := e[cur.value].share;
      WorkOf(e, s.prev) + s.work + UncleWork(e, s.uncles)
  }

  function UncleWork(e: Entries, uncles: seq<ShareId>): nat {
    if uncles == [] then 0 else
      var last := uncles[|uncles| - 1];
      UncleWork(e, uncles[..|uncles| - 1]) + if last in e then UncleWeight(e[last].share.work) else 0
  }

  // ----- the payout window -----

  function UncleContributions(e: Entries, uncles: seq<ShareId>): seq<Contribution> {
    if uncles == [] then [] else
      var last := uncles[|uncles| - 1];
      UncleContributions(e, uncles[..|uncles| - 1])
      + if last in e then [Contribution(e[last].share.finder, UncleWeight(e[last].share.work))] else []
  }

  function ShareContributions(e: Entries, s: Share): seq<Contribution> {
    [Contribution(s.finder, s.work)] + UncleContributions(e, s.uncles)
  }

  /** What the last `n` shares up to `cur`, and the uncles they cite, contribute. */
  function Window(e: Entries, cur: Option<ShareId>, n: nat): seq<Contribution>
    decreases n
  {
    if n == 0 || cur.None? || cur.value !in e then [] else
      var s := e[cur.value].share;
      ShareContributions(e, s) + Window(e, s.prev, n - 1)
  }

  ghost function PayoutsFor(e: Entries, parent: Option<ShareId>, reward: nat): Amounts {
    Split(WeightsOf(Window(e, parent, PPLNS_WINDOW)), reward)
  }

  // ----- acceptance -----

  /** The first offending uncle, scanning in order: self, ancestor, repeated or unknown. */
  ghost function FirstBadUncle(e: Entries, s: Share, n: nat): Option<ShareId>
    requires Rooted(e) && n <= |s.uncles|
  {
    if n == 0 then None else
      var earlier := FirstBadUncle(e, s, n - 1);
      if earlier.Some? then earlier else
        var u := s.uncles[n - 1];
        if u == s.id || u in Branch(e, s.prev) || u in s.uncles[..n - 1] || u !in e then Some(u) else None
  }

  ghost function Accept(c: Chain, s: Share, reward: nat, embedded: Amounts): Outcome
    requires Rooted(c.entries)
  {
    if s.id in c.entries then Refused(Duplicate(s.id))
    else if s.work == 0 then Refused(ZeroWork)
    else if s.prev.Some? && s.prev.value !in c.entries then Refused(UnknownParent(s.prev.value))
    else
      var bad := FirstBadUncle(c.entries, s, |s.uncles|);
      if bad.Some? then Refused(BadUncle(bad.value))
      else if s.isBlock && PayoutsFor(c.entries, s.prev, reward) != embedded then
        Refused(WrongPayouts(PayoutsFor(c.entries, s.prev, reward), embedded))
      else
        Accepted(Record(c, s))
  }

  function Record(c: Chain, s: Share): Chain {
    var parent := if s.prev.Some? && s.prev.value in c.entries then Some(c.entries[s.prev.value]) else None;
    var height := if parent.Some? then parent.value.height + 1 else 0;
    var work := (if parent.Some? then parent.value.cumulativeWork else 0) + s.work + UncleWork(c.entries, s.uncles);
    var better := c.tip.None? || c.tip.value !in c.entries || work > c.entries[c.tip.value].cumulativeWork;
    Chain(c.entries[s.id := Entry(s, height, work)], if better then Some(s.id) else c.tip)
  }

  ghost function TipWork(c: Chain): nat {
    if c.tip.Some? && c.tip.value in c.entries then c.entries[c.tip.value].cumulativeWork else 0
  }

  // ----- the invariant -----

  /** Each uncle is a known share, cited once, off the citing share's own branch in both directions. */
  ghost predicate UnclesRight(e: Entries, s: Share)
    requires Rooted(e)
  {
    && (forall u | u in s.uncles :: u in e && u != s.id && u !in Branch(e, s.prev) && s.id !in Branch(e, Some(u)))
    && (forall i, j | 0 <= i < j < |s.uncles| :: s.uncles[i] != s.uncles[j])
  }

  ghost predicate EntryRight(e: Entries, id: ShareId)
    requires Rooted(e) && id in e
  {
    && e[id].share.work > 0
    && UnclesRight(e, e[id].share)
    && e[id].cumulativeWork == WorkOf(e, Some(id))
  }

  ghost predicate AllUnclesRight(e: Entries)
    requires Rooted(e)
  {
    forall id {:trigger UnclesRight(e, e[id].share)} | id in e :: UnclesRight(e, e[id].share)
  }

  ghost predicate TipRight(c: Chain) {
    && (c.tip.None? <==> c.entries == map[])
    && (c.tip.Some? ==>
          && c.tip.value in c.entries
          && forall id | id in c.entries :: c.entries[id].cumulativeWork <= c.entries[c.tip.value].cumulativeWork)
  }

  ghost predicate Inv(c: Chain) {
    && Rooted(c.entries) && TipRight(c)
    && forall id {:trigger EntryRight(c.entries, id)} | id in c.entries :: EntryRight(c.entries, id)
  }

  lemma InvUncles(c: Chain)
    requires Inv(c)
    ensures AllUnclesRight(c.entries)
  {
    forall id | id in c.entries ensures UnclesRight(c.entries, c.entries[id].share) {
      assert EntryRight(c.entries, id);
    }
  }

  // ----- entries are only ever added -----

  /** `f` holds every share `e` holds. */
  ghost predicate Extends(e: Entries, f: Entries) {
    forall id | id in e :: id in f && f[id] == e[id]
  }

  lemma {:induction false} BranchKnown(e: Entries, cur: Option<ShareId>)
    requires Rooted(e)
    ensures forall id | id in Branch(e, cur) :: id in e
    decreases Rank(e, cur)
  {
    if cur.Some? && cur.value in e {
      assert RootedAt(e, cur.value);
      BranchKnown(e, e[cur.value].share.prev);
    }
  }

  lemma {:induction false} BranchStable(e: Entries, f: Entries, cur: Option<ShareId>)
    requires Rooted(e) && Rooted(f) && Extends(e, f) && (cur.Some? ==> cur.value in e)
    ensures Branch(f, cur) == Branch(e, cur)
    decreases Rank(e, cur)
  {
    if cur.Some? {
      assert RootedAt(e, cur.value);
      BranchStable(e, f, e[cur.value].share.prev);
    }
  }

  lemma {:induction false} UncleWorkStable(e: Entries, f: Entries, uncles: seq<ShareId>)
    requires Extends(e, f) && forall u | u in uncles :: u in e
    ensures UncleWork(f, uncles) == UncleWork(e, uncles)
    ensures UncleContributions(f, uncles) == UncleContributions(e, uncles)
  {
    if uncles != [] {
      assert uncles[|uncles| - 1] in uncles;
      UncleWorkStable(e, f, uncles[..|uncles| - 1]);
    }
  }

  lemma {:induction false} WorkStable(e: Entries, f: Entries, cur: Option<ShareId>)
    requires Rooted(e) && Rooted(f) && Extends(e, f) && (cur.Some? ==> cur.value in e)
    requires AllUnclesRight(e)
    ensures WorkOf(f, cur) == WorkOf(e, cur)
    decreases Rank(e, cur)
  {
    if cur.Some? {
      assert RootedAt(e, cur.value) && UnclesRight(e, e[cur.value].share);
      UncleWorkStable(e, f, e[cur.value].share.uncles);
      WorkStable(e, f, e[cur.value].share.prev);
    }
  }

  /** The window of a known parent reads nothing that later arrives. */
  lemma {:induction false} WindowStable(e: Entries, f: Entries, cur: Option<ShareId>, n: nat)
    requires Rooted(e) && Extends(e, f) && (cur.Some? ==> cur.value in e)
    requires AllUnclesRight(e)
    ensures Window(f, cur, n) == Window(e, cur, n)
    decreases n
  {
    if n > 0 && cur.Some? {
      assert RootedAt(e, cur.value) && UnclesRight(e, e[cur.value].share);
      UncleWorkStable(e, f, e[cur.value].share.uncles);
      WindowStable(e, f, e[cur.value].share.prev, n - 1);
    }
  }

  // ----- accept keeps the invariant -----

  lemma {:induction false} NoBadUncle(e: Entries, s: Share, n: nat)
    requires Rooted(e) && n <= |s.uncles| && FirstBadUncle(e, s, n).None?
    ensures forall u | u in s.uncles[..n] :: u in e && u != s.id && u !in Branch(e, s.prev)
    ensures forall i, j | 0 <= i < j < n :: s.uncles[i] != s.uncles[j]
  {
    if n > 0 {
      NoBadUncle(e, s, n - 1);
      assert s.uncles[..n] == s.uncles[..n - 1] + [s.uncles[n - 1]];
      forall i | 0 <= i < n - 1 ensures s.uncles[i] != s.uncles[n - 1] {
        assert s.uncles[i] in s.uncles[..n - 1];
      }
    }
  }

  lemma RecordRooted(c: Chain, s: Share)
    requires Rooted(c.entries) && s.id !in c.entries && (s.prev.Some? ==> s.prev.value in c.entries)
    ensures Rooted(Record(c, s).entries) && Extends(c.entries, Record(c, s).entries)
  {
    var f := Record(c, s).entries;
    forall id | id in f ensures RootedAt(f, id) {
      if id != s.id { assert RootedAt(c.entries, id); }
    }
  }

  lemma UnclesRightStable(e: Entries, f: Entries, s: Share)
    requires Rooted(e) && Rooted(f) && Extends(e, f) && UnclesRight(e, s) && (s.prev.Some? ==> s.prev.value in e)
    ensures UnclesRight(f, s)
  {
    BranchStable(e, f, s.prev);
    forall u | u in s.uncles ensures s.id !in Branch(f, Some(u)) { BranchStable(e, f, Some(u)); }
  }

  lemma NewUnclesRight(c: Chain, s: Share)
    requires Rooted(c.entries) && s.id !in c.entries && (s.prev.Some? ==> s.prev.value in c.entries)
    requires FirstBadUncle(c.entries, s, |s.uncles|).None?
    ensures UnclesRight(c.entries, s)
  {
    NoBadUncle(c.entries, s, |s.uncles|);
    assert s.uncles[..|s.uncles|] == s.uncles;
    forall u | u in s.uncles ensures s.id !in Branch(c.entries, Some(u)) { BranchKnown(c.entries, Some(u)); }
  }

  lemma RecordWork(c: Chain, s: Share)
    requires Inv(c) && s.id !in c.entries && (s.prev.Some? ==> s.prev.value in c.entries)
    requires UnclesRight(c.entries, s)
    ensures Rooted(Record(c, s).entries)
    ensures Record(c, s).entries[s.id].cumulativeWork == WorkOf(Record(c, s).entries, Some(s.id))
  {
    var f := Record(c, s).entries;
    RecordRooted(c, s);
    InvUncles(c);
    UncleWorkStable(c.entries, f, s.uncles);
    WorkStable(c.entries, f, s.prev);
    if s.prev.Some? { assert EntryRight(c.entries, s.prev.value); }
  }

  lemma EntryRightStable(c: Chain, f: Entries, id: ShareId)
    requires Inv(c) && Rooted(f) && Extends(c.entries, f) && id in c.entries
    ensures EntryRight(f, id)
  {
    assert RootedAt(c.entries, id) && EntryRight(c.entries, id);
    InvUncles(c);
    UnclesRightStable(c.entries, f, c.entries[id].share);
    WorkStable(c.entries, f, Some(id));
  }

  lemma RecordInv(c: Chain, s: Share)
    requires Inv(c) && s.id !in c.entries && s.work > 0 && (s.prev.Some? ==> s.prev.value in c.entries)
    requires UnclesRight(c.entries, s)
    ensures Inv(Record(c, s))
  {
    hide WorkOf, UnclesRight, UncleWork, Rooted;
    var d := Record(c, s);
    RecordRooted(c, s);
    RecordWork(c, s);
    UnclesRightStable(c.entries, d.entries, s);
    InvUncles(c);
    forall id | id in d.entries ensures EntryRight(d.entries, id) {
      if id != s.id { EntryRightStable(c, d.entries, id); }
    }
  }

  /** Accepting keeps every rule, adds exactly one entry, and never lightens the tip. */
  lemma AcceptInv(c: Chain, s: Share, reward: nat, embedded: Amounts)
    requires Inv(c)
    ensures var o := Accept(c, s, reward, embedded);
            o.Accepted? ==>
              && Inv(o.chain) && Extends(c.entries, o.chain.entries)
              && o.chain.entries.Keys == c.entries.Keys + {s.id} && s.id !in c.entries
              && TipWork(o.chain) >= TipWork(c)
  {
    if Accept(c, s, reward, embedded).Accepted? {
      NewUnclesRight(c, s);
      RecordInv(c, s);
    }
  }
}
