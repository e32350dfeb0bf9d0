/** The startup health test on the platform's random source: the six tests of the SDK's `healthCheck`, what passing
    them means, and two families of broken sources they always catch. Sections 4.4.1 and 4.4.2 of NIST SP 800-90B
    are the repetition count and adaptive proportion tests. */
module EntropyHealth {
  import opened ByteStrings

  const STARTUP_TEST_BYTES: nat := 8192
  const RCT_CUTOFF: nat := 7
  const APT_WINDOW: nat := 512
  const APT_CUTOFF: nat := 20

  datatype HealthFailure = Stuck | Repetition | Proportion | Coverage | Pattern | Bias

  // ----- the tests, declaratively -----

  ghost predicate AllSame(s: Bytes) { forall i, j | 0 <= i < |s| && 0 <= j < |s| :: s[i] == s[j] }

  /** The `RCT_CUTOFF` bytes from `i` are one repeated value. */
  ghost predicate RunAt(s: Bytes, i: nat) {
    i + RCT_CUTOFF <= |s| && forall j | i <= j < i + RCT_CUTOFF :: s[j] == s[i]
  }

  ghost predicate HasRun(s: Bytes) { exists i: nat :: RunAt(s, i) }

  function Count(s: Bytes, v: Byte): nat {
    if s == [] then 0 else Count(s[..|s| - 1], v) + if s[|s| - 1] == v then 1 else 0
  }

  /** The `w`-th full non-overlapping window. */
  function Window(s: Bytes, w: nat): Bytes
    requires (w + 1) * APT_WINDOW <= |s|
  {
    s[w * APT_WINDOW..(w + 1) * APT_WINDOW]
  }

  /** Some value occurs at least `cutoff` times in some full window. */
  ghost predicate Crowded(s: Bytes, cutoff: nat) {
    exists w: nat, v: Byte :: (w + 1) * APT_WINDOW <= |s| && Count(Window(s, w), v) >= cutoff
  }

  ghost predicate MissesValue(s: Bytes) { exists v: Byte :: v !in s }

  function Delta(a: Byte, b: Byte): Byte { (b - a) % 256 }

  /** First differences mod 256. */
  function Deltas(s: Bytes): (d: Bytes)
    ensures |d| == if |s| == 0 then 0 else |s| - 1
    ensures forall i | 0 <= i < |d| :: d[i] == Delta(s[i], s[i + 1])
  {
    if |s| == 0 then [] else seq(|s| - 1, i requires 0 <= i < |s| - 1 => Delta(s[i], s[i + 1]))
  }

  function Weight(c: bool): nat { if c then 1 else 0 }

  function OneBits(x: bv8): nat {
    Weight(x & 1 != 0) + Weight(x & 2 != 0) + Weight(x & 4 != 0) + Weight(x & 8 != 0)
    + Weight(x & 16 != 0) + Weight(x & 32 != 0) + Weight(x & 64 != 0) + Weight(x & 128 != 0)
  }

  function TotalOneBits(s: Bytes): nat {
    if s == [] then 0 else TotalOneBits(s[..|s| - 1]) + OneBits(s[|s| - 1] as bv8)
  }

  /** More than five standard deviations of a fair coin away from half the bits. */
  predicate Skewed(ones: nat, bits: nat) {
    var dev := if ones < bits / 2 then bits / 2 - ones else ones - bits / 2;
    4 * dev * dev > 25 * bits
  }

  /** **Bias.** Of an even number of bits, the ones and the zeros differ by more than five times its square root. */
  lemma SkewedIff(ones: nat, half: nat)
    requires ones <= 2 * half
    ensures var zeros := 2 * half - ones;
            Skewed(ones, 2 * half) <==> (ones - zeros) * (ones - zeros) > 25 * (ones + zeros)
  {
    var zeros := 2 * half - ones;
    var dev := if ones < half then half - ones else ones - half;
    assert 2 * half / 2 == half;
    if ones < half { assert zeros - ones == 2 * dev; } else { assert ones - zeros == 2 * dev; }
    assert (2 * dev) * (2 * dev) == 4 * dev * dev;
  }

  /** The first test that fails, in the order they run; none when the buffer is healthy. */
  ghost function Verdict(s: Bytes): Option<HealthFailure> {
    if s == [] || AllSame(s) then Some(Stuck)
    else if HasRun(s) then Some(Repetition)
    else if Crowded(s, APT_CUTOFF) then Some(Proportion)
    else if |s| >= STARTUP_TEST_BYTES && MissesValue(s) then Some(Coverage)
    else if Crowded(Deltas(s), APT_CUTOFF) then Some(Pattern)
    else if Skewed(TotalOneBits(s), 8 * |s|) then Some(Bias)
    else None
  }

  // ----- what passing means, in numbers -----

  /** The `w`-th block of 512 bytes. */
  function Block(s: Bytes, w: nat): Bytes
    requires 512 * w + 512 <= |s|
  {
    s[512 * w..512 * w + 512]
  }

  /** No byte value occurs 20 times or more in any full block of 512. */
  ghost predicate Spread(s: Bytes) {
    forall w: nat, v: Byte | 512 * w + 512 <= |s| :: multiset(Block(s, w))[v] < 20
  }

  lemma {:induction false} CountIsMultiplicity(s: Bytes, v: Byte)
    ensures Count(s, v) == multiset(s)[v]
  {
    if s != [] {
      assert s == s[..|s| - 1] + [s[|s| - 1]];
      CountIsMultiplicity(s[..|s| - 1], v);
    }
  }

  lemma SpreadIff(s: Bytes)
    ensures Spread(s) <==> !Crowded(s, 20)
  {
    hide Count;
    forall w: nat, v: Byte | 512 * w + 512 <= |s|
      ensures Block(s, w) == Window(s, w) && Count(Window(s, w), v) == multiset(Block(s, w))[v]
    {
      CountIsMultiplicity(Window(s, w), v);
    }
    if !Spread(s) {
      var w: nat, v: Byte :| 512 * w + 512 <= |s| && multiset(Block(s, w))[v] >= 20;
      assert Count(Window(s, w), v) >= 20;
    }
    if Crowded(s, 20) {
      var w: nat, v: Byte :| (w + 1) * APT_WINDOW <= |s| && Count(Window(s, w), v) >= 20;
      assert multiset(Block(s, w))[v] >= 20;
    }
  }

  lemma {:induction false} OnesBounded(s: Bytes)
    ensures TotalOneBits(s) <= 8 * |s|
  {
    hide OneBits;
    if s != [] {
      OnesBounded(s[..|s| - 1]);
      AtMostEight(s[|s| - 1] as bv8);
    }
  }

  lemma AtMostEight(x: bv8)
    ensures OneBits(x) <= 8
  {
  }

  /** The difference is what takes one byte to the next, mod 256. */
  lemma DeltaIs(a: Byte, b: Byte, d: Byte)
    ensures d == Delta(a, b) <==> (a + d) % 256 == b
  {
  }

  /** Seven bytes in a row are one value. */
  ghost predicate SevenAlike(s: Bytes, i: nat) {
    i + 7 <= |s| && s[i] == s[i + 1] == s[i + 2] == s[i + 3] == s[i + 4] == s[i + 5] == s[i + 6]
  }

  lemma RunIs(s: Bytes, i: nat)
    ensures RunAt(s, i) <==> SevenAlike(s, i)
  {
    if RunAt(s, i) {
      assert s[i + 1] == s[i] && s[i + 2] == s[i] && s[i + 3] == s[i] && s[i + 4] == s[i] && s[i + 5] == s[i]
          && s[i + 6] == s[i];
    }
  }

  /** **Healthy.** A buffer passes exactly when it has two different bytes, no seven alike in a row, no value 20 times
      in a block of 512 and no difference either, every byte value if it has 8192 bytes or more, and ones and zeros that
      differ by at most five times the square root of its bits. */
  lemma HealthyIff(s: Bytes)
    ensures TotalOneBits(s) <= 8 * |s|
    ensures var ones := TotalOneBits(s);
            var zeros := 8 * |s| - ones;
            Verdict(s).None? <==>
              && (exists i :: 0 < i < |s| && s[i] != s[0])
              && (forall i: nat :: !SevenAlike(s, i))
              && Spread(s) && Spread(Deltas(s))
              && (|s| >= 8192 ==> forall v: Byte :: v in s)
              && (ones - zeros) * (ones - zeros) <= 25 * (ones + zeros)
  {
    hide Crowded, Spread, Deltas, TotalOneBits, Skewed, RunAt, SevenAlike;
    OnesBounded(s);
    SkewedIff(TotalOneBits(s), 4 * |s|);
    SpreadIff(s);
    SpreadIff(Deltas(s));
    forall i: nat ensures RunAt(s, i) <==> SevenAlike(s, i) { RunIs(s, i); }
    VariedIff(s);
  }

  lemma VariedIff(s: Bytes)
    ensures s == [] || AllSame(s) <==> !exists i :: 0 < i < |s| && s[i] != s[0]
  {
    if s != [] && !exists i :: 0 < i < |s| && s[i] != s[0] {
      assert forall i | 0 <= i < |s| :: s[i] == s[0];
    }
  }

  // ----- the straight-line popcount -----

  function Popcount8(b: bv8): bv8 {
    var x := b - ((b >> 1) & 0x55);
    var y := (x & 0x33) + ((x >> 2) & 0x33);
    (y + (y >> 4)) & 0x0f
  }

  /** The masked sums count the one bits of every byte. */
  lemma PopcountCounts(x: bv8)
    ensures Popcount8(x) as nat == OneBits(x)
  {
  }

  // ----- the tests as loops -----

  method IsStuck(s: Bytes) returns (stuck: bool)
    ensures stuck <==> s == [] || AllSame(s)
  {
    if |s| == 0 { return true; }
    var i := 1;
    while i < |s|
      invariant 1 <= i <= |s| && forall j | 0 <= j < i :: s[j] == s[0]
    {
      if s[i] != s[0] { return false; }
      i := i + 1;
    }
    stuck := true;
  }

  /** `run` bytes up to `i` are equal, and the one before them is not. */
  ghost predicate RunEndsAt(s: Bytes, i: nat, run: nat) {
    && 1 <= run <= i <= |s|
    && (forall j | i - run <= j < i :: s[j] == s[i - 1])
    && (run < i ==> s[i - run - 1] != s[i - 1])
  }

  method FindsRun(s: Bytes) returns (found: bool)
    requires s != []
    ensures found <==> HasRun(s)
  {
    var run := 1;
    var i := 1;
    while i < |s|
      invariant 1 <= i <= |s| && RunEndsAt(s, i, run) && run < RCT_CUTOFF
      invariant forall j: nat | j + RCT_CUTOFF <= i :: !RunAt(s, j)
    {
      if s[i] == s[i - 1] {
        run := run + 1;
        if run >= RCT_CUTOFF {
          assert RunAt(s, i + 1 - RCT_CUTOFF);
          return true;
        }
      } else {
        run := 1;
      }
      if i + 1 >= RCT_CUTOFF { assert !RunAt(s, i + 1 - RCT_CUTOFF); }
      i := i + 1;
    }
    found := false;
  }

  lemma NothingCounted()
    ensures forall v: Byte :: Count([], v) == 0
  {
  }

  lemma CountAppend(s: Bytes, x: Byte, v: Byte)
    ensures Count(s + [x], v) == Count(s, v) + if x == v then 1 else 0
  {
    assert (s + [x])[..|s|] == s;
  }

  /** Tally one window. */
  method CountWindow(s: Bytes, start: nat) returns (counts: seq<nat>)
    requires start + APT_WINDOW <= |s|
    ensures |counts| == 256 && forall v: Byte :: counts[v] == Count(s[start..start + APT_WINDOW], v)
  {
    hide Count;
    var tally := new nat[256](_ => 0);
    var i := start;
    NothingCounted();
    assert s[start..start] == [];
    while i < start + APT_WINDOW
      invariant start <= i <= start + APT_WINDOW
      invariant forall v: Byte :: tally[v] == Count(s[start..i], v)
    {
      assert s[start..i + 1] == s[start..i] + [s[i]];
      forall v: Byte ensures Count(s[start..i + 1], v) == Count(s[start..i], v) + if s[i] == v then 1 else 0 {
        CountAppend(s[start..i], s[i], v);
      }
      tally[s[i]] := tally[s[i]] + 1;
      i := i + 1;
    }
    counts := tally[..];
  }

  method MaxOf(counts: seq<nat>, floor: nat) returns (max: nat)
    ensures max >= floor && forall v | 0 <= v < |counts| :: counts[v] <= max
    ensures max == floor || max in counts
  {
    max := floor;
    var v := 0;
    while v < |counts|
      invariant 0 <= v <= |counts| && max >= floor
      invariant forall u | 0 <= u < v :: counts[u] <= max
      invariant max == floor || max in counts
    {
      if counts[v] > max { max := counts[v]; }
      v := v + 1;
    }
  }

  /** The largest count of any value over all full windows: it reaches a cutoff exactly when some window is that
      crowded. */
  method MaxWindowCount(s: Bytes) returns (max: nat)
    ensures forall cutoff: nat | cutoff > 0 :: max >= cutoff <==> Crowded(s, cutoff)
  {
    max := 0;
    var w: nat := 0;
    ghost var at: nat, value: Byte := 0, 0;
    while (w + 1) * APT_WINDOW <= |s|
      invariant w * APT_WINDOW <= |s|
      invariant forall u: nat, v: Byte | u < w :: Count(Window(s, u), v) <= max
      invariant max == 0 || (at < w && Count(Window(s, at), value) == max)
      decreases |s| - w * APT_WINDOW
    {
      var counts := CountWindow(s, w * APT_WINDOW);
      var higher := MaxOf(counts, max);
      assert Window(s, w) == s[w * APT_WINDOW..w * APT_WINDOW + APT_WINDOW];
      forall v: Byte ensures Count(Window(s, w), v) <= higher { assert counts[v] <= higher; }
      if higher > max {
        value :| 0 <= value < |counts| && counts[value] == higher;
        at := w;
      }
      max := higher;
      w := w + 1;
    }
    forall cutoff: nat | cutoff > 0 ensures max >= cutoff <==> Crowded(s, cutoff) {
      if max >= cutoff {
        assert Count(Window(s, at), value) >= cutoff;
      }
    }
  }

  method MissesSome(s: Bytes) returns (missing: bool)
    ensures missing <==> MissesValue(s)
  {
    var seen := new bool[256](_ => false);
    var i := 0;
    while i < |s|
      invariant 0 <= i <= |s| && forall v: Byte :: seen[v] <==> v in s[..i]
    {
      assert s[..i + 1] == s[..i] + [s[i]];
      seen[s[i]] := true;
      i := i + 1;
    }
    assert s[..i] == s;
    var v := 0;
    while v < 256
      invariant 0 <= v <= 256 && forall u: Byte | u < v :: u in s
    {
      if !seen[v] {
        var x: Byte := v;
        assert x !in s;
        return true;
      }
      v := v + 1;
    }
    missing := false;
  }

  method DeltaStream(s: Bytes) returns (d: Bytes)
    ensures d == Deltas(s)
  {
    d := [];
    var i := 1;
    while i < |s|
      invariant 1 <= i && (|s| > 0 ==> i <= |s|) && |d| == (if |s| == 0 then 0 else i - 1)
      invariant forall j | 0 <= j < |d| :: d[j] == Delta(s[j], s[j + 1])
    {
      var difference: int := s[i] as int - s[i - 1] as int;
      d := d + [difference % 256];
      i := i + 1;
    }
  }

  method CountOnes(s: Bytes) returns (ones: nat)
    ensures ones == TotalOneBits(s)
  {
    hide OneBits, Popcount8;
    ones := 0;
    var i := 0;
    while i < |s|
      invariant 0 <= i <= |s| && ones == TotalOneBits(s[..i])
    {
      PopcountCounts(s[i] as bv8);
      assert s[..i + 1][..i] == s[..i];
      ones := ones + Popcount8(s[i] as bv8) as nat;
      i := i + 1;
    }
    assert s[..i] == s;
  }

  /** **The health check.** The code passes exactly the buffers no test objects to, and otherwise names the first
      test that does. */
  method HealthCheck(s: Bytes) returns (failure: Option<HealthFailure>)
    ensures failure == Verdict(s)
  {
    hide AllSame, HasRun, Crowded, MissesValue, Deltas, TotalOneBits, Skewed;
    var stuck := IsStuck(s);
    if stuck { return Some(Stuck); }
    var repeated := FindsRun(s);
    if repeated { return Some(Repetition); }
    var most := MaxWindowCount(s);
    if most >= APT_CUTOFF { return Some(Proportion); }
    if |s| >= STARTUP_TEST_BYTES {
      var missing := MissesSome(s);
      if missing { return Some(Coverage); }
    }
    var d := DeltaStream(s);
    most := MaxWindowCount(d);
    if most >= APT_CUTOFF { return Some(Pattern); }
    var ones := CountOnes(s);
    failure := if Skewed(ones, 8 * |s|) then Some(Bias) else None;
  }

  // ----- sources that never pass -----

  ghost predicate Periodic(s: Bytes, period: nat) {
    forall i | 0 <= i && i + period < |s| :: s[i + period] == s[i]
  }

  lemma {:induction false} PeriodRepeats(s: Bytes, period: nat, i: nat)
    requires period > 0 && Periodic(s, period) && i < |s|
    ensures s[i] in s[..if period <= |s| then period else |s|]
    decreases i
  {
    if period <= i {
      PeriodRepeats(s, period, i - period);
      assert s[i - period + period] == s[i - period];
    }
  }

  ghost function Values(s: Bytes): set<int> { set i | 0 <= i < |s| :: s[i] }

  lemma {:induction false} FewValues(s: Bytes)
    ensures |Values(s)| <= |s|
  {
    if s != [] {
      var n := |s| - 1;
      FewValues(s[..n]);
      assert Values(s) == Values(s[..n]) + {s[n] as int};
    }
  }

  ghost function Below(n: nat): (r: set<int>)
    ensures forall v :: v in r <==> 0 <= v < n
  {
    if n == 0 then {} else Below(n - 1) + {n - 1}
  }

  lemma {:induction false} BelowSize(n: nat)
    ensures |Below(n)| == n
  {
    if n > 0 { BelowSize(n - 1); }
  }

  lemma SubsetSize(a: set<int>, b: set<int>)
    requires a <= b
    ensures |a| <= |b|
  {
    assert b == a + (b - a);
  }

  /** Fewer than 256 bytes leave some value out. */
  lemma Pigeonhole(s: Bytes)
    requires |s| < 256
    ensures MissesValue(s)
  {
    hide Below;
    if !MissesValue(s) {
      forall v | v in Below(256) ensures v in Values(s) {
        var b: Byte := v;
        assert b in s;
      }
      SubsetSize(Below(256), Values(s));
      BelowSize(256);
      FewValues(s);
    }
  }

  /** **A tiled block is always caught**, whatever the block: every startup-sized buffer of period below 256 is
      rejected. */
  lemma ShortPeriodRejected(s: Bytes, period: nat)
    requires 0 < period < 256 && Periodic(s, period) && |s| >= STARTUP_TEST_BYTES
    ensures Verdict(s).Some?
  {
    Pigeonhole(s[..period]);
    var v: Byte :| v !in s[..period];
    forall i | 0 <= i < |s| ensures s[i] != v { PeriodRepeats(s, period, i); }
    assert v !in s;
    assert MissesValue(s);
  }

  ghost predicate Progression(s: Bytes, step: int) {
    forall i | 0 <= i < |s| - 1 :: s[i + 1] == (s[i] + step) % 256
  }

  lemma {:induction false} CountConstant(s: Bytes, v: Byte)
    requires forall i | 0 <= i < |s| :: s[i] == v
    ensures Count(s, v) == |s|
  {
    if s != [] { CountConstant(s[..|s| - 1], v); }
  }

  lemma DeltaOfStep(a: Byte, b: Byte, step: int)
    requires b == (a + step) % 256
    ensures Delta(a, b) == step % 256
  {
  }

  lemma StepOf(s: Bytes, step: int, i: nat)
    requires Progression(s, step) && i < |s| - 1
    ensures s[i + 1] == (s[i] + step) % 256
  {
  }

  lemma DeltasConstant(s: Bytes, step: int, c: Byte)
    requires Progression(s, step) && c == step % 256
    ensures forall i | 0 <= i < |Deltas(s)| :: Deltas(s)[i] == c
  {
    hide Delta, Deltas, Progression;
    var d := Deltas(s);
    forall i | 0 <= i < |d| ensures d[i] == c {
      assert d[i] == Delta(s[i], s[i + 1]);
      StepOf(s, step, i);
      DeltaOfStep(s[i], s[i + 1], step);
    }
  }

  lemma ConstantIsCrowded(d: Bytes, c: Byte)
    requires |d| >= APT_WINDOW && forall i | 0 <= i < |d| :: d[i] == c
    ensures Crowded(d, APT_CUTOFF)
  {
    CountConstant(Window(d, 0), c);
  }

  /** **A counter is always caught**, whatever its start and stride: every arithmetic progression mod 256 of at least
      513 bytes is rejected, though it may pass the other five tests. */
  lemma ProgressionRejected(s: Bytes, step: int)
    requires Progression(s, step) && |s| > APT_WINDOW
    ensures Verdict(s).Some?
  {
    hide AllSame, HasRun, Crowded, MissesValue, Deltas, TotalOneBits, Skewed, Progression;
    DeltasConstant(s, step, step % 256);
    ConstantIsCrowded(Deltas(s), step % 256);
  }

  // ----- the latch -----

  datatype EntropyError = Unhealthy(failure: HealthFailure) | Source

  /** What one call to the platform gives: bytes, or an error. */
  type Draw = Option<Bytes>

  type StartupBuffer = b: Bytes | |b| == STARTUP_TEST_BYTES witness Zeros(STARTUP_TEST_BYTES)

  ghost function StartupVerdict(startup: Option<StartupBuffer>): Option<EntropyError> {
    if startup.None? then Some(Source)
    else
      match Verdict(startup.value)
      case None => None
      case Some(f) => Some(Unhealthy(f))
  }

  datatype Filled = Delivered(bytes: Bytes) | Refused(error: EntropyError)

  /** What a draw comes to under a latched verdict. */
  function Answer(verdict: Option<EntropyError>, draw: Draw): Filled {
    if verdict.Some? then Refused(verdict.value) else if draw.None? then Refused(Source) else Delivered(draw.value)
  }

  /** One call: what the platform would give for the startup buffer if it were drawn now, and for the caller. */
  datatype Call = Call(startup: Option<StartupBuffer>, draw: Draw)

  ghost function Latch(latched: Option<Option<EntropyError>>, c: Call): Option<EntropyError> {
    if latched.Some? then latched.value else StartupVerdict(c.startup)
  }

  /** What a new gate answers to a sequence of calls, and the verdict it is left with. */
  ghost function Answers(calls: seq<Call>): (seq<Filled>, Option<Option<EntropyError>>) {
    if calls == [] then ([], None) else
      var (before, latched) := Answers(calls[..|calls| - 1]);
      var c := calls[|calls| - 1];
      (before + [Answer(Latch(latched, c), c.draw)], Some(Latch(latched, c)))
  }

  lemma {:induction false} AnswersFollowFirst(calls: seq<Call>)
    ensures |Answers(calls).0| == |calls|
    ensures calls != [] ==> Answers(calls).1 == Some(StartupVerdict(calls[0].startup))
    ensures forall i | 0 <= i < |calls| ::
              Answers(calls).0[i] == Answer(StartupVerdict(calls[0].startup), calls[i].draw)
  {
    hide StartupVerdict, Answer;
    if calls != [] { AnswersFollowFirst(calls[..|calls| - 1]); }
  }

  /** **Fails closed.** Over any sequence of draws the gate delivers bytes only if the startup buffer of the very first
      call was drawn and passed every test; otherwise every call, then and later, is refused with that same error.
      What is delivered is what the platform drew for that call. */
  lemma GateFailsClosed(calls: seq<Call>, i: nat)
    requires i < |calls|
    ensures |Answers(calls).0| == |calls|
    ensures Answers(calls).0[i].Delivered?
       <==> calls[0].startup.Some? && Verdict(calls[0].startup.value).None? && calls[i].draw.Some?
    ensures Answers(calls).0[i].Delivered? ==> Some(Answers(calls).0[i].bytes) == calls[i].draw
    ensures StartupVerdict(calls[0].startup).Some? ==>
              Answers(calls).0[i] == Refused(StartupVerdict(calls[0].startup).value)
  {
    hide Verdict, Answers;
    AnswersFollowFirst(calls);
  }

  /** A platform whose startup buffer repeats with a period below 256 is never drawn from. */
  lemma ShortPeriodNeverDelivers(calls: seq<Call>, i: nat, period: nat)
    requires i < |calls| && calls[0].startup.Some? && 0 < period < 256 && Periodic(calls[0].startup.value, period)
    ensures |Answers(calls).0| == |calls| && Answers(calls).0[i].Refused?
  {
    hide Verdict, Answers;
    ShortPeriodRejected(calls[0].startup.value, period);
    GateFailsClosed(calls, i);
  }

  /** The single entropy chokepoint. */
  class EntropyGate {
    /** `None` until the first draw; then the verdict, for good. */
    var latched: Option<Option<EntropyError>>
    /** Every call so far. */
    ghost var calls: seq<Call>

    ghost predicate Valid()
      reads this
    {
      latched == Answers(calls).1
    }

    constructor ()
      ensures Valid() && calls == []
    {
      latched, calls := None, [];
    }

    /** The answer to one more call is the last of the answers to all of them. */
    method FillSecure(c: Call) returns (r: Filled)
      requires Valid()
      modifies this
      ensures Valid() && calls == old(calls) + [c]
      ensures Answers(calls).0 == Answers(old(calls)).0 + [r]
    {
      hide Verdict;
      ghost var all := calls + [c];
      assert all[..|all| - 1] == calls;
      if latched.None? {
        if c.startup.None? {
          latched := Some(Some(Source));
        } else {
          var failure := HealthCheck(c.startup.value);
          latched := Some(if failure.None? then None else Some(Unhealthy(failure.value)));
        }
      }
      calls := all;
      if latched.value.Some? { return Refused(latched.value.value); }
      r := if c.draw.None? then Refused(Source) else Delivered(c.draw.value);
    }
  }
}
