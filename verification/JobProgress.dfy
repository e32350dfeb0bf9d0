/** What the job book delivers: a job that is issued is live, a good share is credited and a winning one forwarded,
    whatever the other threads do in between. */
module JobProgress {
  import opened ByteStrings
  import opened Hashing
  import opened Targets
  import opened Nonces
  import opened JobBook

  ghost predicate Elsewhere(es: seq<Event>, t: ThreadId) { forall e | e in es :: !ActsFor(e, t) }

  /** The other threads leave thread `t` where it stands. */
  lemma {:induction false} OthersWait(seal: SealFn, es: seq<Event>, others: seq<Event>, t: ThreadId)
    requires Elsewhere(others, t)
    ensures PcOf(Run(seal, es + others), t) == PcOf(Run(seal, es), t)
  {
    if others == [] {
      assert es + others == es;
    } else {
      hide Step, PcOf, ActsFor;
      var n := |others| - 1;
      OthersWait(seal, es, others[..n], t);
      var all := es + others;
      assert all[..|all| - 1] == es + others[..n] && all[|all| - 1] == others[n];
      OthersLeaveThread(seal, Run(seal, es + others[..n]), others[n], t);
    }
  }

  lemma RunNext(seal: SealFn, es: seq<Event>, e: Event)
    ensures Run(seal, es + [e]) == Step(seal, Run(seal, es), e)
  {
    assert (es + [e])[..|es|] == es;
  }

  // ----- judging -----

  /** The hash the miner claims is absent or spells the recomputed seal, in any mixture of cases. */
  predicate ClaimHolds(seal: SealFn, pc: Pc)
    requires pc.HasMark?
  {
    pc.claimed.Some? ==> HexDecode(pc.claimed.value) == Some(seal(pc.entry.template, pc.nonce))
  }

  function SealValue(seal: SealFn, pc: Pc): nat
    requires pc.HasMark?
  {
    FromBigEndian(seal(pc.entry.template, pc.nonce))
  }

  function AwardOf(pc: Pc): Award
    requires pc.HasMark? || pc.HasBlock?
  {
    Award(pc.jobId, pc.nonce, pc.entry)
  }

  lemma VerdictIff(seal: SealFn, pc: Pc)
    requires pc.HasMark? && EntryRight(pc.entry)
    ensures Verdict(seal, pc) != TooWeak
       <==> ClaimHolds(seal, pc) && SealValue(seal, pc) <= FromBigEndian(pc.entry.shareTarget)
    ensures Verdict(seal, pc) == Block
       <==> ClaimHolds(seal, pc) && SealValue(seal, pc) <= FromBigEndian(pc.entry.template.networkTarget)
  {
    hide FromBigEndian, HexDecode, HexEncode, SameIgnoringCase, BigEndian, TargetOf;
    if pc.claimed.Some? { HexDecodesIff(pc.claimed.value, seal(pc.entry.template, pc.nonce)); }
  }

  lemma MarkedEntryRight(seal: SealFn, es: seq<Event>, t: ThreadId)
    requires PcOf(Run(seal, es), t).HasMark?
    ensures EntryRight(PcOf(Run(seal, es), t).entry)
  {
    hide Run;
    RunInv(seal, es);
  }

  /** **Credited.** Judging a marked submit credits it exactly when the claim holds and the seal is at or below the
      job's share target, and moves it on as a block exactly when the seal is at or below the network target. */
  lemma JudgeCredits(seal: SealFn, es: seq<Event>, t: ThreadId)
    requires PcOf(Run(seal, es), t).HasMark?
    ensures var s, s' := Run(seal, es), Run(seal, es + [Judge(t)]);
            var pc := PcOf(s, t);
            var good := ClaimHolds(seal, pc) && SealValue(seal, pc) <= FromBigEndian(pc.entry.shareTarget);
            var wins := ClaimHolds(seal, pc) && SealValue(seal, pc) <= FromBigEndian(pc.entry.template.networkTarget);
            && s'.credits == (if good then s.credits + [AwardOf(pc)] else s.credits)
            && PcOf(s', t) == (if wins then HasBlock(pc.jobId, pc.entry, pc.nonce) else Idle)
            && s'.forwards == s.forwards && s'.submitted == s.submitted && s'.book == s.book
  {
    hide Run, Verdict, EntryRight, ClaimHolds, SealValue;
    MarkedEntryRight(seal, es, t);
    VerdictIff(seal, PcOf(Run(seal, es), t));
    RunNext(seal, es, Judge(t));
  }

  lemma ForwardStep(seal: SealFn, es: seq<Event>, t: ThreadId)
    ensures var s, s' := Run(seal, es), Run(seal, es + [Forward(t)]);
            s'.forwards == if PcOf(s, t).HasBlock? then s.forwards + [AwardOf(PcOf(s, t))] else s.forwards
  {
    hide Run;
    RunNext(seal, es, Forward(t));
  }

  /** **Forwarded.** When a marked submit has been judged, and whatever the other threads did since, forwarding sends it
      to the node exactly when the claim holds and the seal is at or below the network target. */
  lemma WinnersAreForwarded(seal: SealFn, es: seq<Event>, t: ThreadId, others: seq<Event>)
    requires PcOf(Run(seal, es), t).HasMark? && Elsewhere(others, t)
    ensures var pc := PcOf(Run(seal, es), t);
            var s := Run(seal, es + [Judge(t)] + others);
            var s' := Run(seal, es + [Judge(t)] + others + [Forward(t)]);
            var wins := ClaimHolds(seal, pc) && SealValue(seal, pc) <= FromBigEndian(pc.entry.template.networkTarget);
            s'.forwards == if wins then s.forwards + [AwardOf(pc)] else s.forwards
  {
    hide Run, PcOf, ClaimHolds, SealValue, FromBigEndian, Elsewhere;
    JudgeCredits(seal, es, t);
    OthersWait(seal, es + [Judge(t)], others, t);
    ForwardStep(seal, es + [Judge(t)] + others, t);
  }

  // ----- from a submit to its mark -----

  lemma LookupStep(seal: SealFn, es: seq<Event>, t: ThreadId, minerId: nat, jobId: JobId, spelled: string, nonce: nat,
                   claimed: Option<string>)
    requires var s := Run(seal, es);
             PcOf(s, t).Idle? && jobId in s.book && s.book[jobId].minerId == minerId
    requires ParseNonce(spelled) == Nonce(nonce)
    ensures PcOf(Run(seal, es + [Lookup(t, minerId, jobId, spelled, claimed)]), t)
         == HasEntry(jobId, Run(seal, es).book[jobId], nonce, claimed)
  {
    hide Run, ParseNonce;
    RunNext(seal, es, Lookup(t, minerId, jobId, spelled, claimed));
  }

  /** **Own jobs only.** A lookup finds an entry exactly when the nonce is readable and the job is live and was issued
      to the miner who asks; otherwise nothing changes. */
  lemma LookupIff(seal: SealFn, s: Pool, t: ThreadId, minerId: nat, jobId: JobId, spelled: string,
                  claimed: Option<string>)
    requires PcOf(s, t).Idle?
    ensures var s' := Step(seal, s, Lookup(t, minerId, jobId, spelled, claimed));
            var found := ParseNonce(spelled).Nonce? && jobId in s.book && s.book[jobId].minerId == minerId;
            && (PcOf(s', t).HasEntry? <==> found) && (!found ==> s' == s)
            && (found ==> s'.(threads := s.threads) == s)
  {
    hide ParseNonce;
  }

  lemma MarkStep(seal: SealFn, es: seq<Event>, t: ThreadId)
    requires var pc := PcOf(Run(seal, es), t);
             pc.HasEntry? && !IsMarked(Run(seal, es).submitted, pc.jobId, pc.nonce)
    ensures var pc := PcOf(Run(seal, es), t);
            PcOf(Run(seal, es + [Mark(t)]), t) == HasMark(pc.jobId, pc.entry, pc.nonce, pc.claimed)
  {
    hide Run;
    RunNext(seal, es, Mark(t));
    EntryIsFiled(seal, es, t);
  }

  lemma EntryIsFiled(seal: SealFn, es: seq<Event>, t: ThreadId)
    requires PcOf(Run(seal, es), t).HasEntry?
    ensures PcOf(Run(seal, es), t).jobId in Run(seal, es).submitted
  {
    hide Run;
    RunInv(seal, es);
  }

  /** **Submits are heard.** A submit for a live job of the miner's own, with a readable nonce not considered before, is
      taken up for judging under the job's own template and targets, whatever the other threads do meanwhile. */
  lemma SubmitIsTakenUp(seal: SealFn, es: seq<Event>, t: ThreadId, minerId: nat, jobId: JobId, spelled: string,
                        nonce: nat, claimed: Option<string>, others: seq<Event>)
    requires var s := Run(seal, es);
             PcOf(s, t).Idle? && jobId in s.book && s.book[jobId].minerId == minerId
    requires ParseNonce(spelled) == Nonce(nonce) && Elsewhere(others, t)
    requires !IsMarked(Run(seal, es + [Lookup(t, minerId, jobId, spelled, claimed)] + others).submitted, jobId, nonce)
    ensures PcOf(Run(seal, es + [Lookup(t, minerId, jobId, spelled, claimed)] + others + [Mark(t)]), t)
         == HasMark(jobId, Run(seal, es).book[jobId], nonce, claimed)
  {
    hide Run, PcOf, IsMarked, ParseNonce, Elsewhere;
    var look := Lookup(t, minerId, jobId, spelled, claimed);
    LookupStep(seal, es, t, minerId, jobId, spelled, nonce, claimed);
    OthersWait(seal, es + [look], others, t);
    MarkStep(seal, es + [look] + others, t);
  }

  // ----- issuing a job -----

  lemma ReadStep(seal: SealFn, es: seq<Event>, t: ThreadId, minerId: nat, difficulty: nat)
    requires PcOf(Run(seal, es), t).Idle? && Run(seal, es).current.Some?
    ensures PcOf(Run(seal, es + [ReadTemplate(t, minerId, difficulty)]), t)
         == HasTemplate(Run(seal, es).current.value, minerId, difficulty)
  {
    hide Run;
    RunNext(seal, es, ReadTemplate(t, minerId, difficulty));
  }

  /** The target a job carries: the easier of the miner's own and the network's. */
  function JobTarget(difficulty: nat, network: Digest): nat {
    var own := TargetOf(difficulty);
    if own < FromBigEndian(network) then FromBigEndian(network) else own
  }

  lemma DrawStep(seal: SealFn, es: seq<Event>, t: ThreadId)
    requires PcOf(Run(seal, es), t).HasTemplate?
    ensures var s, pc := Run(seal, es), PcOf(Run(seal, es), t);
            var target := ShareTargetFor(pc.difficulty, pc.template.networkTarget);
            var entry := JobEntry(pc.template, pc.minerId, pc.difficulty, target);
            PcOf(Run(seal, es + [DrawId(t)]), t) == HasId(s.nextJob, entry)
  {
    hide Run, ShareTargetFor;
    RunNext(seal, es, DrawId(t));
  }

  lemma FileStep(seal: SealFn, es: seq<Event>, t: ThreadId)
    requires PcOf(Run(seal, es), t).HasId?
    ensures var pc, s' := PcOf(Run(seal, es), t), Run(seal, es + [FileJob(t)]);
            && pc.jobId in s'.book && s'.book[pc.jobId] == pc.entry
            && pc.jobId in s'.submitted && s'.submitted[pc.jobId] == {}
  {
    hide Run, EvictBook, EvictOrder;
    var s, pc := Run(seal, es), PcOf(Run(seal, es), t);
    RunNext(seal, es, FileJob(t));
    RunInv(seal, es);
    FiledIsKept(seal, s, t);
  }

  /** **Eviction.** What is kept is the newest of the queue, at most `MAX_LIVE_JOBS` of it, and the book loses exactly
      the jobs dropped from its front. */
  lemma {:induction false} EvictKeepsNewest(book: map<JobId, JobEntry>, order: seq<JobId>)
    ensures var drop := if |order| <= MAX_LIVE_JOBS then 0 else |order| - MAX_LIVE_JOBS;
            && EvictOrder(order) == order[drop..]
            && EvictBook(book, order) == map id | id in book && id !in order[..drop] :: book[id]
    decreases |order|
  {
    if |order| <= MAX_LIVE_JOBS {
      assert order[0..] == order && order[..0] == [];
    } else {
      var drop := |order| - MAX_LIVE_JOBS;
      EvictKeepsNewest(book - {order[0]}, order[1..]);
      assert order[1..][drop - 1..] == order[drop..];
      assert order[..drop] == [order[0]] + order[1..][..drop - 1];
    }
  }

  lemma FiledIsKept(seal: SealFn, s: Pool, t: ThreadId)
    requires BookRight(s) && IdsRight(s) && PcOf(s, t).HasId?
    ensures var pc, s' := PcOf(s, t), Step(seal, s, FileJob(t)); pc.jobId in s'.book && s'.book[pc.jobId] == pc.entry
  {
    hide EvictBook, EvictOrder;
    var pc := PcOf(s, t);
    var book, order := s.book[pc.jobId := pc.entry], s.order + [pc.jobId];
    EvictKeepsNewest(book, order);
    var drop := if |order| <= MAX_LIVE_JOBS then 0 else |order| - MAX_LIVE_JOBS;
    assert pc.jobId !in s.order;
    assert order[..drop] == s.order[..drop];
  }

  lemma TargetIs(difficulty: nat, network: Digest)
    ensures FromBigEndian(ShareTargetFor(difficulty, network)) == JobTarget(difficulty, network)
  {
    hide FromBigEndian, BigEndian, Pow256, TargetOf;
    TargetFits(difficulty);
    BigEndianRoundTrip(TargetOf(difficulty), 32);
  }

  /** **Issued jobs are live.** Whatever the other threads do between the three steps of issuing a job, the book ends up
      with it, under the id drawn, for the miner and the template it was asked for, at the easier of the two targets,
      and with no nonce considered. */
  lemma IssuedJobIsLive(seal: SealFn, es: seq<Event>, t: ThreadId, minerId: nat, difficulty: nat, others: seq<Event>,
                        others': seq<Event>)
    requires PcOf(Run(seal, es), t).Idle? && Run(seal, es).current.Some?
    requires Elsewhere(others, t) && Elsewhere(others', t)
    ensures var template := Run(seal, es).current.value;
            var drawing := es + [ReadTemplate(t, minerId, difficulty)] + others;
            var id := Run(seal, drawing).nextJob;
            var s' := Run(seal, drawing + [DrawId(t)] + others' + [FileJob(t)]);
            && id in s'.book && id in s'.submitted && s'.submitted[id] == {}
            && s'.book[id].template == template && s'.book[id].minerId == minerId
            && s'.book[id].difficulty == difficulty
            && FromBigEndian(s'.book[id].shareTarget) == JobTarget(difficulty, template.networkTarget)
  {
    hide Run, PcOf, Elsewhere, ShareTargetFor, FromBigEndian, IsMarked, JobTarget;
    var template := Run(seal, es).current.value;
    var drawing := es + [ReadTemplate(t, minerId, difficulty)] + others;
    ReadStep(seal, es, t, minerId, difficulty);
    OthersWait(seal, es + [ReadTemplate(t, minerId, difficulty)], others, t);
    DrawStep(seal, drawing, t);
    OthersWait(seal, drawing + [DrawId(t)], others', t);
    FileStep(seal, drawing + [DrawId(t)] + others', t);
    TargetIs(difficulty, template.networkTarget);
  }

  // ----- stale jobs -----

  lemma {:induction false} BookStaysEmpty(seal: SealFn, es: seq<Event>, quiet: seq<Event>)
    requires Run(seal, es).book == map[] && forall e | e in quiet :: !e.FileJob?
    ensures Run(seal, es + quiet).book == map[]
  {
    if quiet == [] {
      assert es + quiet == es;
    } else {
      hide Verdict, ShareTargetFor, ParseNonce;
      var n := |quiet| - 1;
      BookStaysEmpty(seal, es, quiet[..n]);
      assert es + quiet == es + quiet[..n] + [quiet[n]];
      RunNext(seal, es + quiet[..n], quiet[n]);
    }
  }

  /** **Stale jobs expire.** Once the book is cleared, no submit for any job is taken up until a job is filed again. */
  lemma StaleJobsExpire(seal: SealFn, es: seq<Event>, quiet: seq<Event>, t: ThreadId, minerId: nat, jobId: JobId,
                        spelled: string, claimed: Option<string>)
    requires forall e | e in quiet :: !e.FileJob?
    ensures var s := Run(seal, es + [ClearBook] + quiet);
            Step(seal, s, Lookup(t, minerId, jobId, spelled, claimed)) == s
  {
    hide Run, ParseNonce;
    RunNext(seal, es, ClearBook);
    BookStaysEmpty(seal, es + [ClearBook], quiet);
  }
}
