/** When a share is accepted, which error a refusal gives, and what an acceptance records: the rules of the
    sharechain, stated without the order in which the code applies them. */
module AcceptRules {
  import opened ByteStrings
  import opened Shares
  import opened Payouts
  import opened ShareLedger
  import opened ShareTheorems

  /** The share's `k`-th uncle is unknown, the share itself, on its branch, or cited before. */
  ghost predicate Offends(e: Entries, s: Share, k: nat)
    requires Rooted(e) && k < |s.uncles|
  {
    var u := s.uncles[k];
    u !in e || u == s.id || u in Branch(e, s.prev) || exists j :: 0 <= j < k && s.uncles[j] == u
  }

  ghost predicate CleanBefore(e: Entries, s: Share, n: nat)
    requires Rooted(e) && n <= |s.uncles|
  {
    forall k | 0 <= k < n :: !Offends(e, s, k)
  }

  /** New, with work, on a known parent or none. */
  predicate Linked(c: Chain, s: Share) {
    s.id !in c.entries && s.work > 0 && (s.prev.Some? ==> s.prev.value in c.entries)
  }

  lemma OffendsIff(e: Entries, s: Share, k: nat)
    requires Rooted(e) && k < |s.uncles|
    ensures var u := s.uncles[k];
            Offends(e, s, k) <==> u == s.id || u in Branch(e, s.prev) || u in s.uncles[..k] || u !in e
  {
    var u, earlier := s.uncles[k], s.uncles[..k];
    if u in earlier {
      var j :| 0 <= j < |earlier| && earlier[j] == u;
      assert s.uncles[j] == u;
    }
    if Offends(e, s, k) && u in e && u != s.id && u !in Branch(e, s.prev) {
      var j :| 0 <= j < k && s.uncles[j] == u;
      assert earlier[j] == u;
    }
  }

  lemma {:induction false} CleanIff(e: Entries, s: Share, n: nat)
    requires Rooted(e) && n <= |s.uncles|
    ensures FirstBadUncle(e, s, n).None? <==> CleanBefore(e, s, n)
  {
    hide Offends, Branch;
    if n > 0 {
      CleanIff(e, s, n - 1);
      OffendsIff(e, s, n - 1);
    }
  }

  /** The uncle the scan stops at is the first offender. */
  lemma {:induction false} FirstOffender(e: Entries, s: Share, n: nat) returns (k: nat)
    requires Rooted(e) && n <= |s.uncles| && FirstBadUncle(e, s, n).Some?
    ensures k < n && FirstBadUncle(e, s, n) == Some(s.uncles[k]) && Offends(e, s, k) && CleanBefore(e, s, k)
  {
    hide Offends, Branch, CleanBefore;
    if FirstBadUncle(e, s, n - 1).Some? {
      k := FirstOffender(e, s, n - 1);
    } else {
      k := n - 1;
      CleanIff(e, s, k);
      OffendsIff(e, s, k);
    }
  }

  /** **Accepted.** A share is accepted exactly when it is new, has work and a known parent or none, each of its uncles
      is known, not itself, off its branch and cited once, and a block embeds exactly the payouts due. */
  lemma AcceptedIff(c: Chain, s: Share, reward: nat, embedded: Amounts)
    requires Rooted(c.entries)
    ensures Accept(c, s, reward, embedded).Accepted?
       <==> && Linked(c, s)
            && (forall u | u in s.uncles :: u in c.entries && u != s.id && u !in Branch(c.entries, s.prev))
            && Distinct(s.uncles)
            && (s.isBlock ==> embedded == PayoutsFor(c.entries, s.prev, reward))
  {
    hide FirstBadUncle, Branch, PayoutsFor;
    CleanIff(c.entries, s, |s.uncles|);
    AllClean(c.entries, s);
  }

  lemma AllClean(e: Entries, s: Share)
    requires Rooted(e)
    ensures CleanBefore(e, s, |s.uncles|)
       <==> (forall u | u in s.uncles :: u in e && u != s.id && u !in Branch(e, s.prev)) && Distinct(s.uncles)
  {
    hide Branch;
    if CleanBefore(e, s, |s.uncles|) {
      forall u | u in s.uncles ensures u in e && u != s.id && u !in Branch(e, s.prev) {
        var k :| 0 <= k < |s.uncles| && s.uncles[k] == u;
        assert !Offends(e, s, k);
      }
      forall i, j | 0 <= i < j < |s.uncles| ensures s.uncles[i] != s.uncles[j] { assert !Offends(e, s, j); }
    }
    if (forall u | u in s.uncles :: u in e && u != s.id && u !in Branch(e, s.prev)) && Distinct(s.uncles) {
      forall k | 0 <= k < |s.uncles| ensures !Offends(e, s, k) { assert s.uncles[k] in s.uncles; }
    }
  }

  /** Why a share is refused: the earliest of the five rules it breaks, and for the uncles the first offender. */
  ghost predicate RefusedFor(c: Chain, s: Share, reward: nat, embedded: Amounts, error: ShareError)
    requires Rooted(c.entries)
  {
    var e := c.entries;
    match error
    case Duplicate(id) => id == s.id && s.id in e
    case ZeroWork => s.id !in e && s.work == 0
    case UnknownParent(p) => s.id !in e && s.work > 0 && s.prev == Some(p) && p !in e
    case BadUncle(u) =>
      Linked(c, s) && exists k :: 0 <= k < |s.uncles| && s.uncles[k] == u && Offends(e, s, k) && CleanBefore(e, s, k)
    case WrongPayouts(expected, got) =>
      && Linked(c, s) && CleanBefore(e, s, |s.uncles|) && s.isBlock
      && expected == PayoutsFor(e, s.prev, reward) && got == embedded && expected != got
  }

  /** **Refused.** Each refusal gives exactly the error of the rule broken. */
  lemma RefusedIff(c: Chain, s: Share, reward: nat, embedded: Amounts, error: ShareError)
    requires Rooted(c.entries)
    ensures Accept(c, s, reward, embedded) == Refused(error) <==> RefusedFor(c, s, reward, embedded, error)
  {
    hide FirstBadUncle, Branch, PayoutsFor, Offends, CleanBefore, Rooted;
    CleanIff(c.entries, s, |s.uncles|);
    if error.BadUncle? { BadUncleIff(c.entries, s, error.id); }
  }

  lemma BadUncleIff(e: Entries, s: Share, u: ShareId)
    requires Rooted(e)
    ensures FirstBadUncle(e, s, |s.uncles|) == Some(u)
       <==> exists k :: 0 <= k < |s.uncles| && s.uncles[k] == u && Offends(e, s, k) && CleanBefore(e, s, k)
  {
    hide FirstBadUncle, Branch, Offends, Rooted;
    CleanIff(e, s, |s.uncles|);
    if FirstBadUncle(e, s, |s.uncles|).Some? {
      var first := FirstOffender(e, s, |s.uncles|);
      forall k | 0 <= k < |s.uncles| && Offends(e, s, k) && CleanBefore(e, s, k) ensures k == first {
      }
    }
  }

  // ----- what is recorded -----

  /** Three quarters of each uncle's work, rounded down one by one. */
  function ThreeQuarterSum(e: Entries, uncles: seq<ShareId>): nat
    requires forall u | u in uncles :: u in e
  {
    if uncles == [] then 0 else 3 * e[uncles[0]].share.work / 4 + ThreeQuarterSum(e, uncles[1..])
  }

  /** An uncle's weight is three quarters of its work, rounded down. */
  lemma UncleWeightIsThreeQuarters(work: nat)
    ensures UncleWeight(work) == 3 * work / 4
    ensures 4 * UncleWeight(work) <= 3 * work < 4 * UncleWeight(work) + 4
  {
  }

  lemma {:induction false} ThreeQuarterAppend(e: Entries, uncles: seq<ShareId>, u: ShareId)
    requires (forall v | v in uncles :: v in e) && u in e
    ensures ThreeQuarterSum(e, uncles + [u]) == ThreeQuarterSum(e, uncles) + 3 * e[u].share.work / 4
  {
    var w := uncles + [u];
    if uncles == [] {
      assert w[1..] == [];
    } else {
      assert w[1..] == uncles[1..] + [u];
      ThreeQuarterAppend(e, uncles[1..], u);
    }
  }

  lemma {:induction false} UncleWorkIsThreeQuarters(e: Entries, uncles: seq<ShareId>)
    requires forall u | u in uncles :: u in e
    ensures UncleWork(e, uncles) == ThreeQuarterSum(e, uncles)
  {
    hide UncleWeight;
    if uncles != [] {
      var front, last := uncles[..|uncles| - 1], uncles[|uncles| - 1];
      assert last in uncles && uncles == front + [last];
      UncleWorkIsThreeQuarters(e, front);
      ThreeQuarterAppend(e, front, last);
      UncleWeightIsThreeQuarters(e[last].share.work);
    }
  }

  /** **Recorded.** An accepted share is filed under its id, one above its parent, with the parent's work, its own and
      three quarters of each uncle's; it becomes the tip exactly when it is strictly heavier than the tip, or the
      first share. Nothing else changes. */
  lemma AcceptedRecords(c: Chain, s: Share, reward: nat, embedded: Amounts)
    requires Inv(c) && Accept(c, s, reward, embedded).Accepted?
    ensures forall u | u in s.uncles :: u in c.entries
    ensures var e, c' := c.entries, Accept(c, s, reward, embedded).chain;
            var work := (if s.prev.None? then 0 else WorkOf(e, s.prev)) + s.work + ThreeQuarterSum(e, s.uncles);
            && c'.entries == e[s.id := Entry(s, |Branch(e, s.prev)|, work)]
            && c'.tip == if c.tip.None? || work > e[c.tip.value].cumulativeWork then Some(s.id) else c.tip
  {
    AcceptedIff(c, s, reward, embedded);
    hide FirstBadUncle, PayoutsFor, UncleWork, Branch;
    UncleWorkIsThreeQuarters(c.entries, s.uncles);
    if s.prev.Some? {
      BranchReachesRoot(c.entries, s.prev.value);
      assert EntryRight(c.entries, s.prev.value);
    } else {
      BranchOfNone(c.entries);
    }
  }
}
