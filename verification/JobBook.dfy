/** The Stratum pool's job book under concurrency. Each event is one critical section of one thread: issuing a job
    and handling a submit are split exactly where the locks are released, and a run is any interleaving. */
module JobBook {
  import opened ByteStrings
  import opened Hashing
  import opened Targets
  import opened Nonces

  const MAX_LIVE_JOBS: nat := 4096

  type JobId = nat
  type ThreadId = nat

  datatype Template = Template(templateId: Bytes, blob: Bytes, networkTarget: Digest)

  /** Recomputing a seal is a function of the template and the nonce. */
  type SealFn = (Template, nat) -> Digest

  datatype JobEntry = JobEntry(template: Template, minerId: nat, difficulty: nat, shareTarget: Digest)

  /** Where a thread stands between two critical sections. */
  datatype Pc =
    | Idle
    | HasTemplate(template: Template, minerId: nat, difficulty: nat)
    | HasId(jobId: JobId, entry: JobEntry)
    | HasEntry(jobId: JobId, entry: JobEntry, nonce: nat, claimed: Option<string>)
    | HasMark(jobId: JobId, entry: JobEntry, nonce: nat, claimed: Option<string>)
    | HasBlock(jobId: JobId, entry: JobEntry, nonce: nat)

  /** A share credited, or a block forwarded. */
  datatype Award = Award(jobId: JobId, nonce: nat, entry: JobEntry)

  /** `submitted` holds the nonce set each job shares with every clone of its entry: it outlives the book. */
  datatype Pool = Pool(current: Option<Template>, book: map<JobId, JobEntry>, order: seq<JobId>, nextJob: nat,
                       submitted: map<JobId, set<nat>>, threads: map<ThreadId, Pc>,
                       credits: seq<Award>, forwards: seq<Award>)

  datatype Event =
    | NewTemplate(template: Template)
    | ClearBook
    | ReadTemplate(thread: ThreadId, minerId: nat, difficulty: nat)
    | DrawId(thread: ThreadId)
    | FileJob(thread: ThreadId)
    | Lookup(thread: ThreadId, minerId: nat, jobId: JobId, spelled: string, claimed: Option<string>)
    | Mark(thread: ThreadId)
    | Judge(thread: ThreadId)
    | LoseVerifier(thread: ThreadId)
    | Forward(thread: ThreadId)

  const START: Pool := Pool(None, map[], [], 0, map[], map[], [], [])

  function PcOf(s: Pool, t: ThreadId): Pc { if t in s.threads then s.threads[t] else Idle }

  function Goto(s: Pool, t: ThreadId, pc: Pc): Pool { s.(threads := s.threads[t := pc]) }

  /** The share target a job is issued at. */
  function ShareTargetFor(difficulty: nat, network: Digest): Digest {
    EffectiveShareTarget(BigEndian(TargetOf(difficulty), 32), network)
  }

  /** Drop the oldest jobs until the book is within its limit. */
  function EvictBook(book: map<JobId, JobEntry>, order: seq<JobId>): map<JobId, JobEntry>
    decreases |order|
  {
    if |order| <= MAX_LIVE_JOBS then book else EvictBook(book - {order[0]}, order[1..])
  }

  function EvictOrder(order: seq<JobId>): seq<JobId> {
    if |order| <= MAX_LIVE_JOBS then order else EvictOrder(order[1..])
  }

  /** What a marked submit amounts to once its seal is recomputed. */
  function Verdict(seal: SealFn, pc: Pc): ShareOutcome
    requires pc.HasMark?
  {
    var s := seal(pc.entry.template, pc.nonce);
    if pc.claimed.Some? && !SameIgnoringCase(pc.claimed.value, HexEncode(s)) then TooWeak
    else ClassifySeal(s, pc.entry.shareTarget, pc.entry.template.networkTarget)
  }

  function Step(seal: SealFn, s: Pool, e: Event): Pool {
    match e
    case NewTemplate(t) => s.(current := Some(t))
    case ClearBook => s.(book := map[], order := [])
    case ReadTemplate(t, minerId, difficulty) =>
      if PcOf(s, t).Idle? && s.current.Some? then Goto(s, t, HasTemplate(s.current.value, minerId, difficulty)) else s
    case DrawId(t) =>
      var pc := PcOf(s, t);
      if !pc.HasTemplate? then s else
        var entry := JobEntry(pc.template, pc.minerId, pc.difficulty,
                              ShareTargetFor(pc.difficulty, pc.template.networkTarget));
        Goto(s, t, HasId(s.nextJob, entry)).(nextJob := s.nextJob + 1)
    case FileJob(t) =>
      var pc := PcOf(s, t);
      if !pc.HasId? then s else
        var book, order := s.book[pc.jobId := pc.entry], s.order + [pc.jobId];
        Goto(s, t, Idle).(book := EvictBook(book, order), order := EvictOrder(order),
                          submitted := s.submitted[pc.jobId := {}])
    case Lookup(t, minerId, jobId, spelled, claimed) =>
      if PcOf(s, t).Idle? && ParseNonce(spelled).Nonce? && jobId in s.book && s.book[jobId].minerId == minerId
      then Goto(s, t, HasEntry(jobId, s.book[jobId], ParseNonce(spelled).value, claimed))
      else s
    case Mark(t) =>
      var pc := PcOf(s, t);
      if !pc.HasEntry? || pc.jobId !in s.submitted then s
      else if pc.nonce in s.submitted[pc.jobId] then Goto(s, t, Idle)
      else Goto(s, t, HasMark(pc.jobId, pc.entry, pc.nonce, pc.claimed))
             .(submitted := s.submitted[pc.jobId := s.submitted[pc.jobId] + {pc.nonce}])
    case Judge(t) =>
      var pc := PcOf(s, t);
      if !pc.HasMark? then s else
        var award := Award(pc.jobId, pc.nonce, pc.entry);
        (match Verdict(seal, pc)
         case TooWeak => Goto(s, t, Idle)
         case Credited => Goto(s, t, Idle).(credits := s.credits + [award])
         case Block => Goto(s, t, HasBlock(pc.jobId, pc.entry, pc.nonce)).(credits := s.credits + [award]))
    case LoseVerifier(t) => if PcOf(s, t).HasMark? then Goto(s, t, Idle) else s
    case Forward(t) =>
      var pc := PcOf(s, t);
      if !pc.HasBlock? then s
      else Goto(s, t, Idle).(forwards := s.forwards + [Award(pc.jobId, pc.nonce, pc.entry)])
  }

  function Run(seal: SealFn, es: seq<Event>): Pool {
    if es == [] then START else Step(seal, Run(seal, es[..|es| - 1]), es[|es| - 1])
  }

  // ----- the book -----

  ghost predicate BookRight(s: Pool) {
    && (forall id :: id in s.book <==> id in s.order)
    && Distinct(s.order) && |s.order| <= MAX_LIVE_JOBS
    && (forall id | id in s.book :: id in s.submitted)
  }

  /** Every id handed out is below the counter; one not yet filed belongs to a single thread. */
  ghost predicate IdsRight(s: Pool) {
    && (forall id | id in s.submitted :: id < s.nextJob)
    && (forall t | t in s.threads && s.threads[t].HasId? ::
          s.threads[t].jobId < s.nextJob && s.threads[t].jobId !in s.submitted)
    && (forall t, u | t in s.threads && u in s.threads && t != u && s.threads[t].HasId? && s.threads[u].HasId? ::
          s.threads[t].jobId != s.threads[u].jobId)
  }

  // ----- who may still be credited -----

  predicate Holds(pc: Pc, jobId: JobId, nonce: nat) { pc.HasMark? && pc.jobId == jobId && pc.nonce == nonce }

  predicate Winning(pc: Pc, jobId: JobId, nonce: nat) { pc.HasBlock? && pc.jobId == jobId && pc.nonce == nonce }

  predicate Listed(v: seq<Award>, jobId: JobId, nonce: nat) {
    exists i :: 0 <= i < |v| && v[i].jobId == jobId && v[i].nonce == nonce
  }

  ghost predicate NoRepeats(v: seq<Award>) {
    forall i, j | 0 <= i < j < |v| :: !(v[i].jobId == v[j].jobId && v[i].nonce == v[j].nonce)
  }

  predicate IsMarked(submitted: map<JobId, set<nat>>, jobId: JobId, nonce: nat) {
    jobId in submitted && nonce in submitted[jobId]
  }

  /** A mark is held by at most one thread, and only until it is credited. */
  ghost predicate MarksRight(s: Pool) {
    && (forall t | t in s.threads && s.threads[t].HasMark? ::
          && IsMarked(s.submitted, s.threads[t].jobId, s.threads[t].nonce)
          && !Listed(s.credits, s.threads[t].jobId, s.threads[t].nonce))
    && (forall t, u | t in s.threads && u in s.threads && t != u && s.threads[t].HasMark? ::
          !Holds(s.threads[u], s.threads[t].jobId, s.threads[t].nonce))
    && (forall i | 0 <= i < |s.credits| :: IsMarked(s.submitted, s.credits[i].jobId, s.credits[i].nonce))
    && NoRepeats(s.credits)
  }

  /** A block waiting to be forwarded is credited, unforwarded, and in one thread's hands. */
  ghost predicate BlocksRight(s: Pool) {
    && (forall t | t in s.threads && s.threads[t].HasBlock? ::
          && Listed(s.credits, s.threads[t].jobId, s.threads[t].nonce)
          && !Listed(s.forwards, s.threads[t].jobId, s.threads[t].nonce))
    && (forall t, u | t in s.threads && u in s.threads && t != u && s.threads[t].HasBlock? ::
          !Winning(s.threads[u], s.threads[t].jobId, s.threads[t].nonce))
    && (forall i | 0 <= i < |s.forwards| :: Listed(s.credits, s.forwards[i].jobId, s.forwards[i].nonce))
    && NoRepeats(s.forwards)
  }

  // ----- what a credit stands for -----

  predicate EntryRight(e: JobEntry) {
    e.shareTarget == ShareTargetFor(e.difficulty, e.template.networkTarget)
  }

  predicate MeetsShare(seal: SealFn, a: Award) {
    FromBigEndian(seal(a.entry.template, a.nonce)) <= FromBigEndian(a.entry.shareTarget)
  }

  predicate MeetsNetwork(seal: SealFn, a: Award) {
    FromBigEndian(seal(a.entry.template, a.nonce)) <= FromBigEndian(a.entry.template.networkTarget)
  }

  ghost predicate AwardsRight(seal: SealFn, s: Pool) {
    && (forall id | id in s.book :: EntryRight(s.book[id]))
    && (forall t | t in s.threads && !s.threads[t].Idle? && !s.threads[t].HasTemplate? ::
          EntryRight(s.threads[t].entry))
    && (forall t | t in s.threads && s.threads[t].HasBlock? ::
          MeetsNetwork(seal, Award(s.threads[t].jobId, s.threads[t].nonce, s.threads[t].entry)))
    && (forall a | a in s.credits :: EntryRight(a.entry) && MeetsShare(seal, a))
    && (forall a | a in s.forwards :: EntryRight(a.entry) && MeetsNetwork(seal, a))
  }

  ghost predicate Inv(seal: SealFn, s: Pool) {
    BookRight(s) && IdsRight(s) && PointersRight(s) && MarksRight(s) && BlocksRight(s) && AwardsRight(seal, s)
  }

  /** A thread that found a job found one that was filed. */
  ghost predicate PointersRight(s: Pool) {
    forall t | t in s.threads && (s.threads[t].HasEntry? || s.threads[t].HasMark? || s.threads[t].HasBlock?) ::
      s.threads[t].jobId in s.submitted
  }

  lemma {:induction false} EvictRight(book: map<JobId, JobEntry>, order: seq<JobId>)
    requires (forall id :: id in book <==> id in order) && Distinct(order)
    ensures var book', order' := EvictBook(book, order), EvictOrder(order);
            && (forall id :: id in book' <==> id in order') && Distinct(order') && |order'| <= MAX_LIVE_JOBS
            && (forall id | id in book' :: id in book && book'[id] == book[id])
    decreases |order|
  {
    if |order| > MAX_LIVE_JOBS {
      assert order == [order[0]] + order[1..];
      EvictRight(book - {order[0]}, order[1..]);
    }
  }

  lemma FileJobBook(seal: SealFn, s: Pool, t: ThreadId)
    requires BookRight(s) && IdsRight(s)
    ensures BookRight(Step(seal, s, FileJob(t)))
    ensures forall id | id in Step(seal, s, FileJob(t)).book ::
              id in s.book || (PcOf(s, t).HasId? && id == PcOf(s, t).jobId)
    ensures forall id | id in Step(seal, s, FileJob(t)).book ::
              Step(seal, s, FileJob(t)).book[id]
              == if PcOf(s, t).HasId? && id == PcOf(s, t).jobId then PcOf(s, t).entry else s.book[id]
  {
    var pc := PcOf(s, t);
    if pc.HasId? {
      var book, order := s.book[pc.jobId := pc.entry], s.order + [pc.jobId];
      assert pc.jobId !in s.order;
      EvictRight(book, order);
    }
  }

  lemma StepBook(seal: SealFn, s: Pool, e: Event)
    requires BookRight(s) && IdsRight(s)
    ensures BookRight(Step(seal, s, e))
  {
    hide EvictBook, EvictOrder, Verdict, ParseNonce, ShareTargetFor;
    if e.FileJob? { FileJobBook(seal, s, e.thread); }
  }

  lemma StepIds(seal: SealFn, s: Pool, e: Event)
    requires IdsRight(s) && PointersRight(s) && BookRight(s)
    ensures IdsRight(Step(seal, s, e)) && PointersRight(Step(seal, s, e))
  {
    hide Step, IdsRight, PointersRight, BookRight;
    if e.FileJob? {
      FileJobIds(seal, s, e.thread);
    } else if e.Mark? || e.Judge? {
      SubmitIds(seal, s, e);
    } else {
      OtherIds(seal, s, e);
    }
  }

  lemma FileJobIds(seal: SealFn, s: Pool, t: ThreadId)
    requires IdsRight(s) && PointersRight(s)
    ensures IdsRight(Step(seal, s, FileJob(t))) && PointersRight(Step(seal, s, FileJob(t)))
  {
    hide EvictBook, EvictOrder;
  }

  lemma SubmitIds(seal: SealFn, s: Pool, e: Event)
    requires IdsRight(s) && PointersRight(s) && (e.Mark? || e.Judge?)
    ensures IdsRight(Step(seal, s, e)) && PointersRight(Step(seal, s, e))
  {
    hide Verdict;
  }

  lemma OtherIds(seal: SealFn, s: Pool, e: Event)
    requires IdsRight(s) && PointersRight(s) && BookRight(s) && !e.FileJob? && !e.Mark? && !e.Judge?
    ensures IdsRight(Step(seal, s, e)) && PointersRight(Step(seal, s, e))
  {
    hide ParseNonce, ShareTargetFor;
  }

  lemma ListedAppend(v: seq<Award>, a: Award, jobId: JobId, nonce: nat)
    ensures Listed(v + [a], jobId, nonce) <==> Listed(v, jobId, nonce) || (a.jobId == jobId && a.nonce == nonce)
  {
    var w := v + [a];
    if Listed(v, jobId, nonce) {
      var i :| 0 <= i < |v| && v[i].jobId == jobId && v[i].nonce == nonce;
      assert w[i] == v[i];
    }
    assert w[|v|] == a;
  }

  lemma ListedAppendAll(v: seq<Award>, a: Award)
    ensures forall jobId, nonce {:trigger Listed(v + [a], jobId, nonce)} ::
              Listed(v + [a], jobId, nonce) <==> Listed(v, jobId, nonce) || (a.jobId == jobId && a.nonce == nonce)
  {
    forall jobId, nonce
      ensures Listed(v + [a], jobId, nonce) <==> Listed(v, jobId, nonce) || (a.jobId == jobId && a.nonce == nonce)
    {
      ListedAppend(v, a, jobId, nonce);
    }
  }

  lemma NoRepeatsAppend(v: seq<Award>, a: Award)
    requires NoRepeats(v) && !Listed(v, a.jobId, a.nonce)
    ensures NoRepeats(v + [a])
  {
    assert forall i | 0 <= i < |v| :: !(v[i].jobId == a.jobId && v[i].nonce == a.nonce);
  }

  /** Whatever was credited had been marked. */
  lemma CreditWasMarked(s: Pool, jobId: JobId, nonce: nat)
    requires MarksRight(s) && Listed(s.credits, jobId, nonce)
    ensures IsMarked(s.submitted, jobId, nonce)
  {
    var i :| 0 <= i < |s.credits| && s.credits[i].jobId == jobId && s.credits[i].nonce == nonce;
  }

  lemma JudgeMarks(seal: SealFn, s: Pool, t: ThreadId)
    requires MarksRight(s)
    ensures MarksRight(Step(seal, s, Judge(t)))
  {
    hide Verdict, Listed, NoRepeats, IsMarked;
    var pc := PcOf(s, t);
    if pc.HasMark? {
      var a := Award(pc.jobId, pc.nonce, pc.entry);
      ListedAppendAll(s.credits, a);
      NoRepeatsAppend(s.credits, a);
      if Verdict(seal, pc) != TooWeak { CreditAppended(s, a); }
    }
  }

  /** Every credit, the new one included, is of a marked nonce. */
  lemma CreditAppended(s: Pool, a: Award)
    requires MarksRight(s) && IsMarked(s.submitted, a.jobId, a.nonce)
    ensures forall i | 0 <= i < |s.credits + [a]| ::
              IsMarked(s.submitted, (s.credits + [a])[i].jobId, (s.credits + [a])[i].nonce)
  {
    hide IsMarked;
  }

  lemma MarkMarks(seal: SealFn, s: Pool, t: ThreadId)
    requires MarksRight(s)
    ensures MarksRight(Step(seal, s, Mark(t)))
  {
    hide Verdict, Listed, NoRepeats;
    var pc := PcOf(s, t);
    if pc.HasEntry? && Listed(s.credits, pc.jobId, pc.nonce) { CreditWasMarked(s, pc.jobId, pc.nonce); }
  }

  lemma StepMarks(seal: SealFn, s: Pool, e: Event)
    requires MarksRight(s) && IdsRight(s)
    ensures MarksRight(Step(seal, s, e))
  {
    hide MarksRight, IdsRight, Step;
    if e.Judge? {
      JudgeMarks(seal, s, e.thread);
    } else if e.Mark? {
      MarkMarks(seal, s, e.thread);
    } else if e.FileJob? {
      FileJobMarks(seal, s, e.thread);
    } else {
      OtherMarks(seal, s, e);
    }
  }

  lemma FileJobMarks(seal: SealFn, s: Pool, t: ThreadId)
    requires MarksRight(s) && IdsRight(s)
    ensures MarksRight(Step(seal, s, FileJob(t)))
  {
    hide EvictBook, EvictOrder, Listed, NoRepeats;
  }

  lemma OtherMarks(seal: SealFn, s: Pool, e: Event)
    requires MarksRight(s) && !e.Judge? && !e.Mark? && !e.FileJob?
    ensures MarksRight(Step(seal, s, e))
  {
    hide ParseNonce, ShareTargetFor, Listed, NoRepeats, IsMarked;
  }

  lemma JudgeBlocks(seal: SealFn, s: Pool, t: ThreadId)
    requires BlocksRight(s) && MarksRight(s)
    ensures BlocksRight(Step(seal, s, Judge(t)))
  {
    hide Verdict, Listed, NoRepeats, IsMarked;
    var pc := PcOf(s, t);
    if pc.HasMark? {
      ListedAppendAll(s.credits, Award(pc.jobId, pc.nonce, pc.entry));
      if Listed(s.forwards, pc.jobId, pc.nonce) { ForwardWasCredited(s, pc.jobId, pc.nonce); }
    }
  }

  lemma ForwardBlocks(seal: SealFn, s: Pool, t: ThreadId)
    requires BlocksRight(s)
    ensures BlocksRight(Step(seal, s, Forward(t)))
  {
    hide Listed, NoRepeats;
    var pc := PcOf(s, t);
    if pc.HasBlock? {
      var a := Award(pc.jobId, pc.nonce, pc.entry);
      ListedAppendAll(s.forwards, a);
      NoRepeatsAppend(s.forwards, a);
      ForwardAppended(s, a);
    }
  }

  /** Every forward, the new one included, was credited. */
  lemma ForwardAppended(s: Pool, a: Award)
    requires BlocksRight(s) && Listed(s.credits, a.jobId, a.nonce)
    ensures forall i | 0 <= i < |s.forwards + [a]| ::
              Listed(s.credits, (s.forwards + [a])[i].jobId, (s.forwards + [a])[i].nonce)
  {
    hide Listed;
  }

  lemma OtherBlocks(seal: SealFn, s: Pool, e: Event)
    requires BlocksRight(s) && !e.Judge? && !e.Forward?
    ensures BlocksRight(Step(seal, s, e))
  {
    hide EvictBook, EvictOrder, ParseNonce, ShareTargetFor, Listed, NoRepeats;
  }

  lemma StepBlocks(seal: SealFn, s: Pool, e: Event)
    requires BlocksRight(s) && MarksRight(s)
    ensures BlocksRight(Step(seal, s, e))
  {
    hide Step, BlocksRight, MarksRight;
    if e.Judge? {
      JudgeBlocks(seal, s, e.thread);
    } else if e.Forward? {
      ForwardBlocks(seal, s, e.thread);
    } else {
      OtherBlocks(seal, s, e);
    }
  }

  lemma ForwardWasCredited(s: Pool, jobId: JobId, nonce: nat)
    requires BlocksRight(s) && Listed(s.forwards, jobId, nonce)
    ensures Listed(s.credits, jobId, nonce)
  {
    var i :| 0 <= i < |s.forwards| && s.forwards[i].jobId == jobId && s.forwards[i].nonce == nonce;
  }

  lemma FileJobAwards(seal: SealFn, s: Pool, t: ThreadId)
    requires AwardsRight(seal, s) && BookRight(s) && IdsRight(s)
    ensures AwardsRight(seal, Step(seal, s, FileJob(t)))
  {
    FileJobBook(seal, s, t);
    hide EvictBook, EvictOrder, EntryRight, MeetsNetwork, MeetsShare, BookRight, IdsRight;
  }

  lemma JudgeAwards(seal: SealFn, s: Pool, t: ThreadId)
    requires AwardsRight(seal, s)
    ensures AwardsRight(seal, Step(seal, s, Judge(t)))
  {
    hide Verdict, EntryRight, MeetsNetwork, MeetsShare;
    if PcOf(s, t).HasMark? { VerdictRight(seal, PcOf(s, t)); }
  }

  lemma OtherAwards(seal: SealFn, s: Pool, e: Event)
    requires AwardsRight(seal, s) && !e.FileJob? && !e.Judge?
    ensures AwardsRight(seal, Step(seal, s, e))
  {
    hide ParseNonce, ShareTargetFor, MeetsNetwork, MeetsShare;
  }

  lemma StepAwards(seal: SealFn, s: Pool, e: Event)
    requires AwardsRight(seal, s) && BookRight(s) && IdsRight(s)
    ensures AwardsRight(seal, Step(seal, s, e))
  {
    hide Step, AwardsRight, BookRight, IdsRight;
    if e.FileJob? {
      FileJobAwards(seal, s, e.thread);
    } else if e.Judge? {
      JudgeAwards(seal, s, e.thread);
    } else {
      OtherAwards(seal, s, e);
    }
  }

  /** A seal at or below the network target is also at or below the share target a job was issued at. */
  lemma VerdictRight(seal: SealFn, pc: Pc)
    requires pc.HasMark? && EntryRight(pc.entry)
    ensures var a := Award(pc.jobId, pc.nonce, pc.entry);
            && (Verdict(seal, pc) != TooWeak ==> MeetsShare(seal, a))
            && (Verdict(seal, pc) == Block ==> MeetsNetwork(seal, a))
  {
  }

  lemma StepInv(seal: SealFn, s: Pool, e: Event)
    requires Inv(seal, s)
    ensures Inv(seal, Step(seal, s, e))
  {
    hide Step, BookRight, IdsRight, PointersRight, MarksRight, BlocksRight, AwardsRight;
    StepBook(seal, s, e);
    StepIds(seal, s, e);
    StepMarks(seal, s, e);
    StepBlocks(seal, s, e);
    StepAwards(seal, s, e);
  }

  lemma {:induction false} RunInv(seal: SealFn, es: seq<Event>)
    ensures Inv(seal, Run(seal, es))
  {
    if es != [] {
      RunInv(seal, es[..|es| - 1]);
      StepInv(seal, Run(seal, es[..|es| - 1]), es[|es| - 1]);
    }
  }

  /** **At most once.** Over every interleaving, no (job, nonce) pair is credited twice or forwarded twice, and
      nothing is forwarded that was not credited. */
  lemma CreditedAtMostOnce(seal: SealFn, es: seq<Event>)
    ensures NoRepeats(Run(seal, es).credits) && NoRepeats(Run(seal, es).forwards)
    ensures forall a | a in Run(seal, es).forwards :: Listed(Run(seal, es).credits, a.jobId, a.nonce)
  {
    RunInv(seal, es);
  }

  /** **Earned.** A credit means the recomputed seal met the effective share target of the difficulty the job was
      issued at; a forward means it met the network target. */
  lemma AwardsAreEarned(seal: SealFn, es: seq<Event>, a: Award)
    ensures a in Run(seal, es).credits ==>
              FromBigEndian(seal(a.entry.template, a.nonce))
              <= FromBigEndian(ShareTargetFor(a.entry.difficulty, a.entry.template.networkTarget))
    ensures a in Run(seal, es).forwards ==>
              FromBigEndian(seal(a.entry.template, a.nonce)) <= FromBigEndian(a.entry.template.networkTarget)
  {
    RunInv(seal, es);
  }

  /** **The book is consistent.** Its keys are exactly its order queue, which never exceeds the limit. */
  lemma BookMatchesOrder(seal: SealFn, es: seq<Event>)
    ensures var s := Run(seal, es);
            && (forall id :: id in s.book <==> id in s.order) && Distinct(s.order)
            && |s.order| <= 4096 && |s.book| == |s.order|
  {
    var s := Run(seal, es);
    RunInv(seal, es);
    assert s.book.Keys == Elements(s.order);
    DistinctCount(s.order);
  }

  lemma {:induction false} DistinctCount(v: seq<JobId>)
    requires Distinct(v)
    ensures |Elements(v)| == |v|
  {
    if v != [] {
      var n := |v| - 1;
      DistinctCount(v[..n]);
      assert v == v[..n] + [v[n]];
      assert Elements(v) == Elements(v[..n]) + {v[n]};
      assert v[n] !in v[..n];
    }
  }

  ghost function Elements(v: seq<JobId>): set<JobId> { set id | id in v }

  /** The event is a step of thread `t`. */
  predicate ActsFor(e: Event, t: ThreadId) { !e.NewTemplate? && !e.ClearBook? && e.thread == t }

  lemma OthersLeaveThread(seal: SealFn, s: Pool, e: Event, t: ThreadId)
    requires !ActsFor(e, t)
    ensures PcOf(Step(seal, s, e), t) == PcOf(s, t)
  {
    hide EvictBook, EvictOrder, Verdict, ShareTargetFor, ParseNonce;
  }

  lemma MarkStays(seal: SealFn, s: Pool, e: Event, jobId: JobId, nonce: nat)
    requires IdsRight(s) && IsMarked(s.submitted, jobId, nonce)
    ensures IsMarked(Step(seal, s, e).submitted, jobId, nonce)
  {
    hide EvictBook, EvictOrder, Verdict, ShareTargetFor, ParseNonce;
  }

  lemma {:induction false} OthersKeep(seal: SealFn, es: seq<Event>, others: seq<Event>, t: ThreadId, jobId: JobId,
                                      nonce: nat)
    requires IsMarked(Run(seal, es).submitted, jobId, nonce) && forall e | e in others :: !ActsFor(e, t)
    ensures var before, after := Run(seal, es), Run(seal, es + others);
            PcOf(after, t) == PcOf(before, t) && IsMarked(after.submitted, jobId, nonce)
  {
    if others == [] {
      assert es + others == es;
    } else {
      hide Step, IsMarked, PcOf, ActsFor;
      var n := |others| - 1;
      OthersKeep(seal, es, others[..n], t, jobId, nonce);
      var all := es + others;
      assert all[..|all| - 1] == es + others[..n] && all[|all| - 1] == others[n];
      var s := Run(seal, es + others[..n]);
      RunInv(seal, es + others[..n]);
      OthersLeaveThread(seal, s, others[n], t);
      MarkStays(seal, s, others[n], jobId, nonce);
    }
  }

  lemma LookupFinds(seal: SealFn, s: Pool, t: ThreadId, minerId: nat, jobId: JobId, spelled: string, nonce: nat,
                    claimed: Option<string>)
    requires PcOf(s, t).Idle? && ParseNonce(spelled) == Nonce(nonce)
    ensures var pc := PcOf(Step(seal, s, Lookup(t, minerId, jobId, spelled, claimed)), t);
            pc.Idle? || (pc.HasEntry? && pc.jobId == jobId && pc.nonce == nonce)
  {
    hide ParseNonce;
  }

  lemma MarkedAlready(seal: SealFn, s: Pool, t: ThreadId)
    requires var pc := PcOf(s, t); pc.Idle? || (pc.HasEntry? && IsMarked(s.submitted, pc.jobId, pc.nonce))
    ensures var s' := Step(seal, s, Mark(t));
            && PcOf(s', t).Idle? && s'.submitted == s.submitted
            && s'.credits == s.credits && s'.forwards == s.forwards
  {
  }

  /** **Replays earn nothing.** Once a nonce was considered for a job, submitting it again, however it is spelled,
      whatever hash is claimed and whatever other threads do meanwhile, changes no credit, no forward and no mark. */
  lemma ReplayEarnsNothing(seal: SealFn, es: seq<Event>, t: ThreadId, minerId: nat, jobId: JobId, spelled: string,
                           nonce: nat, claimed: Option<string>, others: seq<Event>)
    requires PcOf(Run(seal, es), t).Idle? && IsMarked(Run(seal, es).submitted, jobId, nonce)
    requires ParseNonce(spelled) == Nonce(nonce) && forall e | e in others :: !ActsFor(e, t)
    ensures var before := Run(seal, es + [Lookup(t, minerId, jobId, spelled, claimed)] + others);
            var after := Step(seal, before, Mark(t));
            && PcOf(after, t).Idle? && after.submitted == before.submitted
            && after.credits == before.credits && after.forwards == before.forwards
  {
    hide Step, IsMarked, PcOf, ActsFor, ParseNonce;
    var look := Lookup(t, minerId, jobId, spelled, claimed);
    var es' := es + [look];
    assert es'[..|es'| - 1] == es;
    RunInv(seal, es);
    LookupFinds(seal, Run(seal, es), t, minerId, jobId, spelled, nonce, claimed);
    MarkStays(seal, Run(seal, es), look, jobId, nonce);
    OthersKeep(seal, es', others, t, jobId, nonce);
    MarkedAlready(seal, Run(seal, es' + others), t);
  }

  // ----- the book's own code -----

  /** The live jobs by id, and the order they were issued in. */
  class LiveJobs {
    var jobs: map<JobId, JobEntry>
    var order: seq<JobId>

    constructor ()
      ensures jobs == map[] && order == []
    {
      jobs, order := map[], [];
    }

    /** File a job and evict the oldest past the limit. */
    method File(id: JobId, entry: JobEntry)
      modifies this
      ensures jobs == EvictBook(old(jobs)[id := entry], old(order) + [id])
      ensures order == EvictOrder(old(order) + [id])
    {
      jobs := jobs[id := entry];
      order := order + [id];
      while |order| > MAX_LIVE_JOBS
        invariant EvictBook(jobs, order) == EvictBook(old(jobs)[id := entry], old(order) + [id])
        invariant EvictOrder(order) == EvictOrder(old(order) + [id])
        decreases |order|
      {
        var oldest := order[0];
        order := order[1..];
        jobs := jobs - {oldest};
      }
    }
  }

  // ----- what a job tells the miner -----

  /** The compact `target` field: the hex of its little-endian bytes. */
  function StratumTargetHex(difficulty: nat): string {
    var (value, width) := CompactTarget(difficulty);
    HexEncode(LittleEndian(value, width))
  }

  /** A miner that reads the field back gets exactly the top bits of the full 256-bit target. */
  lemma MinerReadsTopBits(difficulty: nat)
    requires difficulty < LIMB
    ensures var hex := StratumTargetHex(difficulty);
            && |hex| == (if difficulty <= 0xFFFF_FFFF then 8 else 16)
            && HexDecode(hex).Some?
            && FromLittleEndian(HexDecode(hex).value)
               == TargetOf(difficulty) / (if |hex| == 8 then TOP_32_CUT else TOP_64_CUT)
  {
    var (value, width) := CompactTarget(difficulty);
    CompactIsTopOfTarget(difficulty);
    assert Pow256(4) == 0x1_0000_0000 && Pow256(8) == LIMB;
    hide TargetOf, HexDecode, HexEncode, LittleEndian, FromLittleEndian, Pow256;
    HexRoundTrip(LittleEndian(value, width));
    DecodeEncode(value, width);
  }
}
