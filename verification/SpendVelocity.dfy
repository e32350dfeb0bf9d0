/** Compliance controls: the transfer decision, and what a spend-velocity limit guarantees over whole runs. */
module SpendVelocity {
  import opened ByteStrings
  import opened Shares
  import Actions

  predicate Permits(c: Actions.TransferControl, to: AccountId) {
    match c
    case Unrestricted => true
    case AllowList(allowed) => to in allowed
    case DenyList(denied) => to !in denied
  }

  datatype SpendLimit = SpendLimit(maxPerWindow: nat, windowBlocks: nat)

  datatype SpendWindow = SpendWindow(windowStart: nat, spent: nat)

  datatype CompliancePolicy =
    CompliancePolicy(frozen: bool, control: Actions.TransferControl, limit: Option<SpendLimit>)

  datatype ComplianceError =
    | Frozen
    | CounterpartyBlocked(to: AccountId)
    | SpendLimitExceeded(cap: nat, windowSpent: nat, attempted: nat)
    | Overflow

  datatype Decision = Approve(window: SpendWindow) | Reject(error: ComplianceError)

  /** Whether the window has run its course at `height`; a height before its start counts as no time passed. */
  predicate Elapsed(limit: SpendLimit, w: SpendWindow, height: nat) {
    (if height < w.windowStart then 0 else height - w.windowStart) >= limit.windowBlocks
  }

  function CheckTransfer(p: CompliancePolicy, to: AccountId, amount: nat, height: nat, w: SpendWindow): Decision {
    if p.frozen then Reject(Frozen)
    else if !Permits(p.control, to) then Reject(CounterpartyBlocked(to))
    else
      match p.limit
      case None => Approve(w)
      case Some(limit) =>
        var base := if Elapsed(limit, w, height) then SpendWindow(height, 0) else w;
        var spent := base.spent + amount;
        if spent > U128_MAX then Reject(Overflow)
        else if spent > limit.maxPerWindow then Reject(SpendLimitExceeded(limit.maxPerWindow, base.spent, amount))
        else Approve(SpendWindow(base.windowStart, spent))
  }

  // ----- what the decision comes to -----

  /** The counterparty rules, list by list. */
  predicate Allowed(p: CompliancePolicy, to: AccountId) {
    && (p.control.AllowList? ==> to in p.control.accounts)
    && (p.control.DenyList? ==> to !in p.control.accounts)
  }

  /** The window that counts at `height` starts there, with nothing spent, once `windowBlocks` heights have passed since
      the last one started; otherwise it is the last one. */
  function Current(limit: SpendLimit, w: SpendWindow, height: nat): SpendWindow {
    if limit.windowBlocks == 0 || height >= w.windowStart + limit.windowBlocks then SpendWindow(height, 0) else w
  }

  /** **Approved.** A transfer is approved exactly when the account is not frozen, the counterparty is listed if there
      is an allow list and not listed if there is a deny list, and what is spent with it fits the limit and 128 bits. An
      approval returns the window that counted, with the amount added. */
  lemma ApprovedIff(p: CompliancePolicy, to: AccountId, amount: nat, height: nat, w: SpendWindow)
    ensures var d := CheckTransfer(p, to, amount, height, w);
            && (p.limit.None? ==>
                  && (d.Approve? <==> !p.frozen && Allowed(p, to))
                  && (d.Approve? ==> d.window == w))
            && (p.limit.Some? ==>
                  var base := Current(p.limit.value, w, height);
                  && (d.Approve? <==>
                        && !p.frozen && Allowed(p, to)
                        && base.spent + amount <= p.limit.value.maxPerWindow && base.spent + amount <= U128_MAX)
                  && (d.Approve? ==> d.window == SpendWindow(base.windowStart, base.spent + amount)))
  {
  }

  /** Why a transfer is rejected: the earliest of the rules it breaks. */
  predicate RejectedFor(p: CompliancePolicy, to: AccountId, amount: nat, height: nat, w: SpendWindow,
                        error: ComplianceError)
  {
    match error
    case Frozen => p.frozen
    case CounterpartyBlocked(x) => x == to && !p.frozen && !Allowed(p, to)
    case Overflow =>
      && !p.frozen && Allowed(p, to) && p.limit.Some?
      && Current(p.limit.value, w, height).spent + amount > U128_MAX
    case SpendLimitExceeded(cap, windowSpent, attempted) =>
      && !p.frozen && Allowed(p, to) && p.limit.Some? && cap == p.limit.value.maxPerWindow && attempted == amount
      && windowSpent == Current(p.limit.value, w, height).spent
      && cap < windowSpent + amount <= U128_MAX
  }

  /** **Rejected.** Each rejection gives exactly the error of the rule broken. */
  lemma RejectedIff(p: CompliancePolicy, to: AccountId, amount: nat, height: nat, w: SpendWindow,
                    error: ComplianceError)
    ensures CheckTransfer(p, to, amount, height, w) == Reject(error) <==> RejectedFor(p, to, amount, height, w, error)
  {
  }

  // ----- whole runs -----

  datatype Attempt = Attempt(to: AccountId, amount: nat, height: nat)

  /** An approved transfer and the ordinal of the accounting window it was counted in. */
  datatype Approved = Approved(to: AccountId, height: nat, amount: nat, index: nat)

  datatype Ledger = Ledger(window: SpendWindow, index: nat, approved: seq<Approved>)

  function Step(p: CompliancePolicy, l: Ledger, a: Attempt): Ledger {
    match CheckTransfer(p, a.to, a.amount, a.height, l.window)
    case Reject(_) => l
    case Approve(w) =>
      var index := if p.limit.Some? && Elapsed(p.limit.value, l.window, a.height) then l.index + 1 else l.index;
      Ledger(w, index, l.approved + [Approved(a.to, a.height, a.amount, index)])
  }

  /** The attempts of a run in order, each decided on the window the last approval left. */
  function Run(p: CompliancePolicy, w: SpendWindow, attempts: seq<Attempt>): Ledger {
    if attempts == [] then Ledger(w, 0, [])
    else Step(p, Run(p, w, attempts[..|attempts| - 1]), attempts[|attempts| - 1])
  }

  ghost predicate Chronological(attempts: seq<Attempt>) {
    forall i, j | 0 <= i < j < |attempts| :: attempts[i].height <= attempts[j].height
  }

  /** Value approved in one accounting window. */
  function SpentIn(v: seq<Approved>, index: nat): nat {
    if v == [] then 0 else
      var last := v[|v| - 1];
      SpentIn(v[..|v| - 1], index) + if last.index == index then last.amount else 0
  }

  /** Value approved at heights `lo` up to but not including `hi`. */
  function SpentBetween(v: seq<Approved>, lo: nat, hi: nat): nat {
    if v == [] then 0 else
      var last := v[|v| - 1];
      SpentBetween(v[..|v| - 1], lo, hi) + if lo <= last.height < hi then last.amount else 0
  }

  // ----- who is paid -----

  /** **Only permitted transfers.** Whatever a run approves was attempted as it stands, by an account that is not
      frozen, to a counterparty on its allow list if it has one and off its deny list if it has one. */
  lemma {:induction false} OnlyPermitted(p: CompliancePolicy, w: SpendWindow, attempts: seq<Attempt>, a: Approved)
    requires a in Run(p, w, attempts).approved
    ensures !p.frozen && Allowed(p, a.to) && Attempt(a.to, a.amount, a.height) in attempts
  {
    var front, last := attempts[..|attempts| - 1], attempts[|attempts| - 1];
    ApprovedIff(p, last.to, last.amount, last.height, Run(p, w, front).window);
    if a in Run(p, w, front).approved { OnlyPermitted(p, w, front, a); }
  }

  // ----- one accounting window -----

  lemma SpentInAppend(v: seq<Approved>, a: Approved, index: nat)
    ensures SpentIn(v + [a], index) == SpentIn(v, index) + if a.index == index then a.amount else 0
  {
    assert (v + [a])[..|v|] == v;
  }

  lemma {:induction false} NothingYet(v: seq<Approved>, index: nat)
    requires forall a | a in v :: a.index < index
    ensures SpentIn(v, index) == 0
  {
    if v != [] {
      assert v[|v| - 1] in v;
      NothingYet(v[..|v| - 1], index);
    }
  }

  /** The current window's counter is what was approved in it, on top of what it started with. */
  ghost predicate Counted(limit: SpendLimit, w: SpendWindow, l: Ledger) {
    && (forall a | a in l.approved :: a.index <= l.index)
    && l.window.spent == SpentIn(l.approved, l.index) + (if l.index == 0 then w.spent else 0)
    && forall k: nat :: SpentIn(l.approved, k) <= limit.maxPerWindow
  }

  lemma StepCounted(p: CompliancePolicy, limit: SpendLimit, w: SpendWindow, l: Ledger, a: Attempt)
    requires p.limit == Some(limit) && Counted(limit, w, l)
    ensures Counted(limit, w, Step(p, l, a))
  {
    hide SpentIn, Permits;
    var l' := Step(p, l, a);
    NothingYet(l.approved, l.index + 1);
    if l' != l {
      var x := Approved(a.to, a.height, a.amount, l'.index);
      forall k: nat ensures SpentIn(l'.approved, k) == SpentIn(l.approved, k) + if x.index == k then x.amount else 0 {
        SpentInAppend(l.approved, x, k);
      }
    }
  }

  lemma {:induction false} RunCounted(p: CompliancePolicy, limit: SpendLimit, w: SpendWindow, attempts: seq<Attempt>)
    requires p.limit == Some(limit)
    ensures Counted(limit, w, Run(p, w, attempts))
  {
    if attempts != [] {
      RunCounted(p, limit, w, attempts[..|attempts| - 1]);
      StepCounted(p, limit, w, Run(p, w, attempts[..|attempts| - 1]), attempts[|attempts| - 1]);
    }
  }

  /** **Per window.** However the attempts fall, no accounting window approves more than the limit. */
  lemma WindowNeverExceeds(p: CompliancePolicy, limit: SpendLimit, w: SpendWindow, attempts: seq<Attempt>, index: nat)
    requires p.limit == Some(limit)
    ensures SpentIn(Run(p, w, attempts).approved, index) <= limit.maxPerWindow
  {
    RunCounted(p, limit, w, attempts);
  }

  // ----- any span of heights -----

  /** Approvals two accounting windows apart are more than `windowBlocks` heights apart. */
  ghost predicate Spaced(limit: SpendLimit, l: Ledger) {
    && (forall a | a in l.approved :: a.index <= l.index)
    && (forall a | a in l.approved && a.index == l.index :: a.height < l.window.windowStart + limit.windowBlocks)
    && (forall a | a in l.approved && a.index < l.index :: a.height < l.window.windowStart)
    && (forall a | a in l.approved && a.index + 1 < l.index :: a.height + limit.windowBlocks < l.window.windowStart)
    && (forall a, b | a in l.approved && b in l.approved && a.index < b.index :: a.height < b.height)
    && (forall a, b | a in l.approved && b in l.approved && a.index + 2 <= b.index ::
          a.height + limit.windowBlocks < b.height)
  }

  ghost predicate UpTo(l: Ledger, height: nat) {
    l.index > 0 ==> l.window.windowStart <= height
  }

  /** What an approval does to the ledger: it joins the current window, or opens one at its own height. */
  lemma StepShape(p: CompliancePolicy, limit: SpendLimit, l: Ledger, a: Attempt)
    requires p.limit == Some(limit)
    ensures var l' := Step(p, l, a);
            l' == l || (
              && l'.approved == l.approved + [Approved(a.to, a.height, a.amount, l'.index)]
              && (if Elapsed(limit, l.window, a.height)
                  then l'.index == l.index + 1 && l'.window.windowStart == a.height
                  else l'.index == l.index && l'.window.windowStart == l.window.windowStart))
  {
  }

  lemma JoinSpaced(limit: SpendLimit, l: Ledger, l': Ledger, x: Approved)
    requires Spaced(limit, l) && UpTo(l, x.height) && x.index == l.index == l'.index
    requires x.height < l.window.windowStart + limit.windowBlocks
    requires l'.approved == l.approved + [x] && l'.window.windowStart == l.window.windowStart
    ensures Spaced(limit, l')
  {
    assert forall a :: a in l'.approved <==> a in l.approved || a == x;
  }

  lemma OpenSpaced(limit: SpendLimit, l: Ledger, l': Ledger, x: Approved)
    requires Spaced(limit, l) && limit.windowBlocks > 0 && l.window.windowStart + limit.windowBlocks <= x.height
    requires x.index == l.index + 1 == l'.index
    requires l'.approved == l.approved + [x] && l'.window.windowStart == x.height
    ensures Spaced(limit, l')
  {
    assert forall a :: a in l'.approved <==> a in l.approved || a == x;
  }

  lemma {:induction false} RunSpaced(p: CompliancePolicy, limit: SpendLimit, w: SpendWindow, attempts: seq<Attempt>)
    requires p.limit == Some(limit) && limit.windowBlocks > 0 && Chronological(attempts)
    ensures Spaced(limit, Run(p, w, attempts))
    ensures attempts != [] ==> UpTo(Run(p, w, attempts), attempts[|attempts| - 1].height)
  {
    if attempts != [] {
      var front, a := attempts[..|attempts| - 1], attempts[|attempts| - 1];
      RunSpaced(p, limit, w, front);
      assert front != [] ==> front[|front| - 1].height <= a.height;
      var l := Run(p, w, front);
      assert UpTo(l, a.height);
      StepSpaced(p, limit, l, a);
    }
  }

  lemma StepSpaced(p: CompliancePolicy, limit: SpendLimit, l: Ledger, a: Attempt)
    requires p.limit == Some(limit) && limit.windowBlocks > 0 && Spaced(limit, l) && UpTo(l, a.height)
    ensures Spaced(limit, Step(p, l, a)) && UpTo(Step(p, l, a), a.height)
  {
    hide Step, Spaced;
    StepShape(p, limit, l, a);
    var l' := Step(p, l, a);
    if l' != l {
      var x := Approved(a.to, a.height, a.amount, l'.index);
      if Elapsed(limit, l.window, a.height) { OpenSpaced(limit, l, l', x); } else { JoinSpaced(limit, l, l', x); }
    }
  }

  lemma {:induction false} TwoWindowsCover(v: seq<Approved>, lo: nat, hi: nat, k: nat)
    requires forall a | a in v && lo <= a.height < hi :: a.index == k || a.index == k + 1
    ensures SpentBetween(v, lo, hi) <= SpentIn(v, k) + SpentIn(v, k + 1)
  {
    if v != [] {
      assert v[|v| - 1] in v;
      TwoWindowsCover(v[..|v| - 1], lo, hi, k);
    }
  }

  /** The earliest window met by a span of heights, or any when none is. */
  lemma {:induction false} EarliestIn(v: seq<Approved>, lo: nat, hi: nat) returns (k: nat)
    ensures forall a | a in v && lo <= a.height < hi :: k <= a.index
    ensures (exists a :: a in v && lo <= a.height < hi) ==> exists a :: a in v && lo <= a.height < hi && a.index == k
  {
    if v == [] {
      k := 0;
    } else {
      var front, last := v[..|v| - 1], v[|v| - 1];
      assert v == front + [last];
      k := EarliestIn(front, lo, hi);
      if lo <= last.height < hi {
        assert last in v;
        if exists a :: a in front && lo <= a.height < hi {
          var b :| b in front && lo <= b.height < hi && b.index == k;
          assert b in v;
          if last.index < k { k := last.index; }
        } else {
          k := last.index;
        }
      }
      assert forall a | a in v :: a in front || a == last;
    }
  }

  lemma SpanMeetsTwoWindows(limit: SpendLimit, l: Ledger, lo: nat) returns (k: nat)
    requires Spaced(limit, l)
    ensures forall a | a in l.approved && lo <= a.height < lo + limit.windowBlocks :: a.index == k || a.index == k + 1
  {
    k := EarliestIn(l.approved, lo, lo + limit.windowBlocks);
    forall a | a in l.approved && lo <= a.height < lo + limit.windowBlocks ensures a.index == k || a.index == k + 1 {
      var b :| b in l.approved && lo <= b.height < lo + limit.windowBlocks && b.index == k;
    }
  }

  /** **Any span.** In any `windowBlocks` consecutive heights at most twice the limit is approved: such a span meets
      at most two accounting windows. */
  lemma SpanNeverExceedsTwice(p: CompliancePolicy, limit: SpendLimit, w: SpendWindow, attempts: seq<Attempt>, lo: nat)
    requires p.limit == Some(limit) && Chronological(attempts)
    ensures SpentBetween(Run(p, w, attempts).approved, lo, lo + limit.windowBlocks) <= 2 * limit.maxPerWindow
  {
    hide Run, Spaced, SpentBetween, SpentIn;
    var l := Run(p, w, attempts);
    if limit.windowBlocks == 0 {
      EmptySpan(l.approved, lo);
    } else {
      RunSpaced(p, limit, w, attempts);
      var k := SpanMeetsTwoWindows(limit, l, lo);
      TwoWindowsCover(l.approved, lo, lo + limit.windowBlocks, k);
      WindowNeverExceeds(p, limit, w, attempts, k);
      WindowNeverExceeds(p, limit, w, attempts, k + 1);
    }
  }

  lemma {:induction false} EmptySpan(v: seq<Approved>, lo: nat)
    ensures SpentBetween(v, lo, lo) == 0
  {
    if v != [] { EmptySpan(v[..|v| - 1], lo); }
  }

  // ----- the limit as documented: any window of heights, not any accounting window -----

  const FRESH: SpendWindow := SpendWindow(0, 0)

  /** What a run from a fresh window lets out in the `windowBlocks` heights from `lo`. */
  function SpanSpend(p: CompliancePolicy, limit: SpendLimit, attempts: seq<Attempt>, lo: nat): nat {
    SpentBetween(Run(p, FRESH, attempts).approved, lo, lo + limit.windowBlocks)
  }

  /** At most `maxPerWindow` leaves in any `windowBlocks` consecutive heights of any run. */
  ghost predicate LimitsEverySpan(p: CompliancePolicy, limit: SpendLimit) {
    forall attempts, lo: nat | Chronological(attempts) :: SpanSpend(p, limit, attempts, lo) <= limit.maxPerWindow
  }

  /** Nothing can be sent at all. */
  predicate SendsNothing(p: CompliancePolicy) { p.frozen || (p.control.AllowList? && p.control.accounts == []) }

  /** There is always an account a list leaves out. */
  lemma {:induction false} Unlisted(v: seq<AccountId>) returns (to: AccountId)
    ensures forall x | x in v :: |x| < |to|
  {
    if v == [] {
      to := [];
    } else {
      to := Unlisted(v[1..]);
      if |to| <= |v[0]| { to := v[0] + [0]; }
      forall x | x in v ensures |x| < |to| { assert x == v[0] || x in v[1..]; }
    }
  }

  lemma SomeonePermitted(p: CompliancePolicy) returns (to: AccountId)
    requires !SendsNothing(p)
    ensures Permits(p.control, to)
  {
    match p.control {
      case Unrestricted => to := [];
      case AllowList(allowed) => to := allowed[0];
      case DenyList(denied) => to := Unlisted(denied);
    }
  }

  lemma {:induction false} NothingApproved(p: CompliancePolicy, w: SpendWindow, attempts: seq<Attempt>)
    requires SendsNothing(p)
    ensures Run(p, w, attempts).approved == []
  {
    if attempts != [] { NothingApproved(p, w, attempts[..|attempts| - 1]); }
  }

  lemma {:induction false} OneWindowCovers(v: seq<Approved>, lo: nat, hi: nat, k: nat)
    requires forall a | a in v && lo <= a.height < hi :: a.index == k
    ensures SpentBetween(v, lo, hi) <= SpentIn(v, k)
  {
    if v != [] {
      assert v[|v| - 1] in v;
      OneWindowCovers(v[..|v| - 1], lo, hi, k);
    }
  }

  lemma OneBlockSpans(p: CompliancePolicy, limit: SpendLimit, w: SpendWindow, attempts: seq<Attempt>, lo: nat)
    requires p.limit == Some(limit) && limit.windowBlocks == 1 && Chronological(attempts)
    ensures SpentBetween(Run(p, w, attempts).approved, lo, lo + 1) <= limit.maxPerWindow
  {
    var l := Run(p, w, attempts);
    RunSpaced(p, limit, w, attempts);
    var k := EarliestIn(l.approved, lo, lo + 1);
    forall a | a in l.approved && lo <= a.height < lo + 1 ensures a.index == k {
      var b :| b in l.approved && lo <= b.height < lo + 1 && b.index == k;
    }
    OneWindowCovers(l.approved, lo, lo + 1, k);
    WindowNeverExceeds(p, limit, w, attempts, k);
  }

  /** The straddle: the limit spent in the last block of one accounting window and again in the first of the next. */
  function Straddle(limit: SpendLimit, to: AccountId): seq<Attempt>
    requires limit.windowBlocks >= 1
  {
    [Attempt(to, limit.maxPerWindow, limit.windowBlocks - 1), Attempt(to, limit.maxPerWindow, limit.windowBlocks)]
  }

  lemma StraddleSpendsTwice(p: CompliancePolicy, limit: SpendLimit, to: AccountId)
    requires p.limit == Some(limit) && !p.frozen && Permits(p.control, to)
    requires limit.windowBlocks >= 2 && limit.maxPerWindow <= U128_MAX
    ensures Chronological(Straddle(limit, to))
    ensures var lo: nat := limit.windowBlocks - 1;
            SpanSpend(p, limit, Straddle(limit, to), lo) == 2 * limit.maxPerWindow
  {
    var m, n := limit.maxPerWindow, limit.windowBlocks;
    var attempts := Straddle(limit, to);
    var first := [Attempt(to, m, n - 1)];
    assert attempts[..1] == first && first[..0] == [];
    assert Run(p, FRESH, []) == Ledger(FRESH, 0, []);
    var one := Run(p, FRESH, first);
    assert one == Step(p, Run(p, FRESH, first[..0]), first[0]);
    assert one == Ledger(SpendWindow(0, m), 0, [Approved(to, n - 1, m, 0)]);
    var two := Run(p, FRESH, attempts);
    assert two.approved == [Approved(to, n - 1, m, 0), Approved(to, n, m, 1)];
    assert two.approved[..1] == one.approved && one.approved[..0] == [];
    assert SpentBetween([], n - 1, n - 1 + n) == 0;
    assert SpentBetween(one.approved, n - 1, n - 1 + n) == m;
  }

  /** **When the documented limit holds.** The velocity limit bounds every span of `windowBlocks` heights exactly
      when the policy lets nothing through, the cap is zero, or the window is at most one block long; in every other
      configuration twice the cap can leave within one span, and never more. */
  lemma EverySpanLimitedIff(p: CompliancePolicy, limit: SpendLimit)
    requires p.limit == Some(limit) && limit.maxPerWindow <= U128_MAX
    ensures LimitsEverySpan(p, limit)
            <==> SendsNothing(p) || limit.maxPerWindow == 0 || limit.windowBlocks <= 1
  {
    if SendsNothing(p) || limit.maxPerWindow == 0 || limit.windowBlocks <= 1 {
      forall attempts, lo: nat | Chronological(attempts)
        ensures SpanSpend(p, limit, attempts, lo) <= limit.maxPerWindow
      {
        if SendsNothing(p) { NothingApproved(p, FRESH, attempts); }
        if limit.windowBlocks == 0 { EmptySpan(Run(p, FRESH, attempts).approved, lo); }
        if limit.windowBlocks == 1 { OneBlockSpans(p, limit, FRESH, attempts, lo); }
        SpanNeverExceedsTwice(p, limit, FRESH, attempts, lo);
      }
    } else {
      var to := SomeonePermitted(p);
      StraddleSpendsTwice(p, limit, to);
      var lo: nat := limit.windowBlocks - 1;
      assert SpanSpend(p, limit, Straddle(limit, to), lo) > limit.maxPerWindow;
    }
  }
}
