/** What processing one deadline slot comes to, as a function of the answers the outside gives. */
module SlotProcessing {
  import opened Bytes
  import opened Proofs
  import opened Wrappers
  import opened Selection
  import opened SlotMath
  import opened ExitData
  import opened Batches
  import opened AvailableSlots
  import opened ValidatorStorage
  import opened StorageInvariant

  /** A validator of a beacon state; no exit epoch means that no exit was initiated. */
  datatype ValidatorRecord = ValidatorRecord(activationEpoch: nat, exitEpoch: Option<nat>)

  datatype Witness = Witness(exitRequestIndex: nat, moduleId: nat, nodeOpId: nat, pubkey: string)

  /**
    What validators of a slot are examined against. The penalty contract is asked per position,
    with the entry, the proof timestamp and the seconds since the exit was eligible.
   */
  datatype Examination = Examination(view: seq<ValidatorRecord>, proofTimestamp: int, delivered: int,
                                     penalty: (nat, Entry, int, int) -> Answer<bool>)

  datatype Judgement = AlreadyExited | NotEligibleYet | NoPenalty | Late | Threw

  function Judge(cfg: Config, x: Examination, i: nat, e: Tracked): Judgement {
    var index := e.validator.validatorIndex;
    if index >= |x.view| then Threw
    else if x.view[index].exitEpoch.Some? && x.view[index].exitEpoch.value < e.exitDeadlineEpoch then AlreadyExited
    else
      var eligible := cfg.EligibleExitRequestTimestamp(x.delivered, e.activationEpoch);
      if x.proofTimestamp < eligible then NotEligibleYet
      else match x.penalty(i, e.validator, x.proofTimestamp, x.proofTimestamp - eligible)
        case Fails => Threw
        case Reply(applicable) => if applicable then Late else NoPenalty
  }

  function WitnessFor(e: Tracked): Witness {
    Witness(e.validator.exitDataIndex, e.validator.moduleId, e.validator.nodeOpId, e.validator.pubkey)
  }

  /** The position at which the examination throws, or the number of validators. */
  function StopAt(cfg: Config, x: Examination, es: seq<Tracked>, i: nat): (n: nat)
    requires i <= |es|
    ensures i <= n <= |es|
    ensures n < |es| ==> Judge(cfg, x, n, es[n]).Threw?
    ensures forall k :: i <= k < n ==> !Judge(cfg, x, k, es[k]).Threw?
    decreases |es| - i
  {
    if i == |es| || Judge(cfg, x, i, es[i]).Threw? then i else StopAt(cfg, x, es, i + 1)
  }

  /** The witnesses of the first n validators, in order. */
  function Witnesses(cfg: Config, x: Examination, es: seq<Tracked>, n: nat): seq<Witness>
    requires n <= |es|
  {
    if n == 0 then []
    else Witnesses(cfg, x, es, n - 1) + (if Judge(cfg, x, n - 1, es[n - 1]).Late? then [WitnessFor(es[n - 1])] else [])
  }

  /** The keys among the first n validators for which the contract says that no penalty applies. */
  function NoPenaltyKeys(cfg: Config, x: Examination, es: seq<Tracked>, n: nat): set<string>
    requires n <= |es|
  {
    set k | 0 <= k < n && Judge(cfg, x, k, es[k]).NoPenalty? :: es[k].validator.pubkey
  }

  /** A witness is issued exactly for the validators judged late. */
  lemma {:induction false} WitnessMember(cfg: Config, x: Examination, es: seq<Tracked>, n: nat, wit: Witness)
    requires n <= |es|
    ensures wit in Witnesses(cfg, x, es, n) <==>
            exists k :: 0 <= k < n && Judge(cfg, x, k, es[k]).Late? && wit == WitnessFor(es[k])
  {
    if n > 0 {
      WitnessMember(cfg, x, es, n - 1, wit);
    }
  }

  /** The witnesses are those of the validators judged late, in their order, one for each. */
  lemma {:induction false} WitnessesInOrder(cfg: Config, x: Examination, es: seq<Tracked>, n: nat)
    returns (ps: seq<nat>)
    requires n <= |es|
    ensures Positions(ps, n) && forall k :: 0 <= k < n ==> (k in ps <==> Judge(cfg, x, k, es[k]).Late?)
    ensures |Witnesses(cfg, x, es, n)| == |ps|
    ensures forall j :: 0 <= j < |ps| ==> Witnesses(cfg, x, es, n)[j] == WitnessFor(es[ps[j]])
  {
    ps := [];
    if n > 0 {
      ps := WitnessesInOrder(cfg, x, es, n - 1);
      PositionsAppend(ps, n - 1);
      if Judge(cfg, x, n - 1, es[n - 1]).Late? {
        ps := ps + [n - 1];
      }
    }
  }

  // ---------- submitting ----------

  /**
    What preparing one historical batch comes to: the slot that the search finds for it, with the
    proof of that slot's block root; a corrupt summary state; or an exception.
   */
  datatype SummaryAnswer = Ready(slot: int, proof: SingleProof) | CorruptSummary | SummaryThrew

  /** The deadline state as fetched and deserialized. */
  datatype ViewAnswer = Unavailable | Corrupt | Loaded(view: seq<ValidatorRecord>)

  /** The answers of the outside while one slot is processed. */
  datatype SlotAnswers = SlotAnswers(deliveryReplies: bool, head: Answer<int>, headers: int -> HeaderAnswer,
                                     state: ViewAnswer, penalty: (nat, Entry, int, int) -> Answer<bool>,
                                     summary: nat -> SummaryAnswer, execute: nat -> bool)

  /**
    What the executor is called with: the slot proven, on the historical path the proof of its block
    root, the exit request whose data goes along, and the witnesses. It returned, or it threw.
   */
  datatype Submission = Submission(slot: int, proof: Option<SingleProof>, request: ExitRequest, witnesses: seq<Witness>,
                                   returned: bool)

  /** A historical batch needs its slot and its proof first. */
  predicate Reaches(a: SlotAnswers, historical: bool, i: nat) {
    !historical || a.summary(i).Ready?
  }

  /** The way a slot takes, the slot it was examined at, and the request that goes along with every batch. */
  datatype Header = Header(historical: bool, slot: int, request: ExitRequest)

  function SubmissionOf(a: SlotAnswers, h: Header, batches: seq<seq<Witness>>, i: nat): Submission
    requires i < |batches|
  {
    var summary := a.summary(i);
    if h.historical && summary.Ready? then
      Submission(summary.slot, Some(summary.proof), h.request, batches[i], a.execute(i))
    else Submission(h.slot, None, h.request, batches[i], a.execute(i))
  }

  /** The calls of the executor for the batches from i on, up to the first that throws; whether one did. */
  function SubmitFrom(a: SlotAnswers, h: Header, batches: seq<seq<Witness>>, i: nat): (seq<Submission>, bool)
    requires i <= |batches|
    decreases |batches| - i
  {
    if i == |batches| then ([], false)
    else if Reaches(a, h.historical, i) then
      var s := SubmissionOf(a, h, batches, i);
      if s.returned then After([s], SubmitFrom(a, h, batches, i + 1)) else ([s], true)
    else if a.summary(i).SummaryThrew? then ([], true)
    else SubmitFrom(a, h, batches, i + 1)
  }

  function After(done: seq<Submission>, rest: (seq<Submission>, bool)): (seq<Submission>, bool) {
    (done + rest.0, rest.1)
  }

  /** The calls for a slot's witnesses. */
  function Submit(a: SlotAnswers, h: Header, witnesses: seq<Witness>, batchSize: nat): (seq<Submission>, bool)
    requires batchSize >= 1
  {
    SubmitFrom(a, h, Chunks(witnesses, batchSize), 0)
  }

  lemma AfterEnds(done: seq<Submission>, rest: (seq<Submission>, bool))
    ensures After(done, ([], false)) == (done, false) && After([], rest) == rest
  {
    assert done + [] == done && [] + rest.0 == rest.0;
  }

  lemma SubmitStep(a: SlotAnswers, h: Header, batches: seq<seq<Witness>>, i: nat, done: seq<Submission>)
    requires i < |batches|
    ensures After(done, SubmitFrom(a, h, batches, i)) ==
            if Reaches(a, h.historical, i) then
              var more := done + [SubmissionOf(a, h, batches, i)];
              if a.execute(i) then After(more, SubmitFrom(a, h, batches, i + 1)) else (more, true)
            else if a.summary(i).SummaryThrew? then (done, true)
            else After(done, SubmitFrom(a, h, batches, i + 1))
  {
    var s, rest := SubmissionOf(a, h, batches, i), SubmitFrom(a, h, batches, i + 1);
    assert done + ([s] + rest.0) == (done + [s]) + rest.0;
    assert done + [] == done;
  }

  /** Calls are made for batches that reach the executor, and for all of them unless something throws. */
  lemma {:induction false} SubmissionMember(a: SlotAnswers, h: Header, batches: seq<seq<Witness>>, i: nat,
                                            s: Submission)
    requires i <= |batches|
    ensures var (submissions, threw) := SubmitFrom(a, h, batches, i);
            && (s in submissions ==>
                  exists k :: i <= k < |batches| && Reaches(a, h.historical, k) && s == SubmissionOf(a, h, batches, k))
            && (!threw ==> forall k :: i <= k < |batches| ==>
                  if Reaches(a, h.historical, k) then a.execute(k) && SubmissionOf(a, h, batches, k) in submissions
                  else a.summary(k).CorruptSummary?)
    decreases |batches| - i
  {
    if i < |batches| {
      SubmissionMember(a, h, batches, i + 1, s);
    }
  }

  /** Batch k stops the loop. */
  ghost predicate Stops(a: SlotAnswers, h: Header, k: nat) {
    if Reaches(a, h.historical, k) then !a.execute(k) else a.summary(k).SummaryThrew?
  }

  /**
    The calls are those of the batches up to the first that stops the loop, that one included, which
    reach the executor, in their order.
   */
  lemma {:induction false} SubmittedInOrder(a: SlotAnswers, h: Header, batches: seq<seq<Witness>>, i: nat)
    returns (m: nat, ps: seq<nat>)
    requires i <= |batches|
    ensures i <= m <= |batches| && (m < |batches| ==> Stops(a, h, m)) && forall k :: i <= k < m ==> !Stops(a, h, k)
    ensures Positions(ps, |batches|)
    ensures forall k :: k in ps <==> i <= k <= m && k < |batches| && Reaches(a, h.historical, k)
    ensures |SubmitFrom(a, h, batches, i).0| == |ps|
    ensures forall j :: 0 <= j < |ps| ==> SubmitFrom(a, h, batches, i).0[j] == SubmissionOf(a, h, batches, ps[j])
    decreases |batches| - i
  {
    m, ps := i, [];
    if i < |batches| {
      if !Stops(a, h, i) {
        m, ps := SubmittedInOrder(a, h, batches, i + 1);
      }
      if Reaches(a, h.historical, i) {
        PositionsPrepend(i, ps, |batches|);
        ps := [i] + ps;
      }
    }
  }

  predicate HoldsKey(witnesses: seq<Witness>, p: string) {
    exists k :: 0 <= k < |witnesses| && witnesses[k].pubkey == p
  }

  function KeysOf(witnesses: seq<Witness>): (keys: set<string>)
    ensures forall p :: p in keys <==> HoldsKey(witnesses, p)
  {
    set k | 0 <= k < |witnesses| :: witnesses[k].pubkey
  }

  /** The keys of the submissions that returned. */
  function ReturnedKeys(submissions: seq<Submission>): set<string> {
    if submissions == [] then {}
    else
      var last := submissions[|submissions| - 1];
      ReturnedKeys(submissions[..|submissions| - 1]) + (if last.returned then KeysOf(last.witnesses) else {})
  }

  lemma {:induction false} ReturnedKeysAppend(submissions: seq<Submission>, s: Submission)
    ensures ReturnedKeys(submissions + [s]) ==
            ReturnedKeys(submissions) + if s.returned then KeysOf(s.witnesses) else {}
  {
    assert (submissions + [s])[..|submissions|] == submissions;
  }

  lemma {:induction false} ReturnedKey(submissions: seq<Submission>, p: string)
    ensures p in ReturnedKeys(submissions) <==> exists s :: s in submissions && s.returned && HoldsKey(s.witnesses, p)
  {
    if submissions != [] {
      ReturnedKey(submissions[..|submissions| - 1], p);
    }
  }

  // ---------- one slot ----------

  /** What one slot's processing did: the calls of the executor, and the keys it dropped. */
  datatype SlotRun = SlotRun(submissions: seq<Submission>, cleared: set<string>, threw: bool)
  {
    /** The keys it reported. */
    function Sent(): set<string> {
      ReturnedKeys(submissions)
    }
  }

  function ExaminationFor(w: World, gs: seq<Group>, a: SlotAnswers, actualSlot: int): Examination
    requires gs != [] && a.state.Loaded?
  {
    Examination(a.state.view, w.cfg.SlotToTimestamp(actualSlot), w.delivered(gs[0].exitRequest.hash), a.penalty)
  }

  /** The witnesses of a slot and the keys dropped while examining it. */
  function Examine(w: World, slot: int, gs: seq<Group>, a: SlotAnswers): (r: (Answer<seq<Witness>>, set<string>))
    requires gs != []
    ensures r.0.Reply? ==> a.head.Reply? && NextSlot(a.headers, slot, MAX_ATTEMPTS).Reply? && !a.state.Unavailable?
  {
    var es, next := Flatten(gs), NextSlot(a.headers, slot, MAX_ATTEMPTS);
    if !a.deliveryReplies || a.head.Fails? || next.Fails? || a.state.Unavailable? then (Fails, {})
    else if a.state.Corrupt? then (Reply([]), {})
    else
      var x := ExaminationFor(w, gs, a, next.value);
      var n := StopAt(w.cfg, x, es, 0);
      (if n < |es| then Fails else Reply(Witnesses(w.cfg, x, es, n)), NoPenaltyKeys(w.cfg, x, es, n))
  }

  /** What goes along with the witnesses of a slot: the request of its first group, for all of them. */
  function HeaderFor(w: World, slot: int, gs: seq<Group>, a: SlotAnswers): Header
    requires gs != [] && Examine(w, slot, gs, a).0.Reply?
  {
    Header(w.cfg.IsSlotOld(slot, a.head.value), NextSlot(a.headers, slot, MAX_ATTEMPTS).value, gs[0].exitRequest)
  }

  function RunSlot(w: World, batchSize: nat, slot: int, gs: seq<Group>, a: SlotAnswers): SlotRun
    requires batchSize >= 1 && gs != []
  {
    var (witnesses, cleared) := Examine(w, slot, gs, a);
    if witnesses.Fails? then SlotRun([], cleared, true)
    else
      var (submissions, threw) := Submit(a, HeaderFor(w, slot, gs, a), witnesses.value, batchSize);
      SlotRun(submissions, cleared, threw)
  }

  /** The witnesses of a slot are those of its validators judged late. */
  lemma {:induction false} ExaminedWitness(w: World, slot: int, gs: seq<Group>, a: SlotAnswers, wit: Witness)
    requires gs != [] && Examine(w, slot, gs, a).0.Reply? && wit in Examine(w, slot, gs, a).0.value
    ensures exists e :: e in Flatten(gs) && wit == WitnessFor(e)
  {
    var es := Flatten(gs);
    var x := ExaminationFor(w, gs, a, NextSlot(a.headers, slot, MAX_ATTEMPTS).value);
    WitnessMember(w.cfg, x, es, |es|, wit);
    var j :| 0 <= j < |es| && Judge(w.cfg, x, j, es[j]).Late? && wit == WitnessFor(es[j]);
    assert es[j] in es;
  }

  /** Dropped keys are keys of the slot's own validators. */
  lemma {:induction false} ClearedAreOwn(w: World, batchSize: nat, slot: int, gs: seq<Group>, a: SlotAnswers, p: string)
    requires batchSize >= 1 && gs != []
    ensures p in RunSlot(w, batchSize, slot, gs, a).cleared ==> exists e :: e in Flatten(gs) && e.validator.pubkey == p
  {
    var es := Flatten(gs);
    if p in Examine(w, slot, gs, a).1 {
      var x := ExaminationFor(w, gs, a, NextSlot(a.headers, slot, MAX_ATTEMPTS).value);
      var k :| 0 <= k < StopAt(w.cfg, x, es, 0) && Judge(w.cfg, x, k, es[k]).NoPenalty? && es[k].validator.pubkey == p;
      assert es[k] in es;
    }
  }

  lemma {:induction false} BatchIsOwn(w: World, batchSize: nat, slot: int, gs: seq<Group>, a: SlotAnswers, i: nat,
                                      wit: Witness)
    requires batchSize >= 1 && gs != [] && Examine(w, slot, gs, a).0.Reply?
    requires i < |Chunks(Examine(w, slot, gs, a).0.value, batchSize)|
    requires wit in Chunks(Examine(w, slot, gs, a).0.value, batchSize)[i]
    ensures wit in Examine(w, slot, gs, a).0.value && exists e :: e in Flatten(gs) && wit == WitnessFor(e)
  {
    var witnesses := Examine(w, slot, gs, a).0.value;
    ChunksExact(witnesses, batchSize);
    InConcatenation(Chunks(witnesses, batchSize), i, wit);
    ExaminedWitness(w, slot, gs, a, wit);
  }

  /** Every submission of a slot is one of its batches with its first group's request. */
  lemma SubmissionIsBatch(w: World, batchSize: nat, slot: int, gs: seq<Group>, a: SlotAnswers, s: Submission)
      returns (i: nat)
    requires batchSize >= 1 && gs != [] && s in RunSlot(w, batchSize, slot, gs, a).submissions
    ensures Examine(w, slot, gs, a).0.Reply? && s.request == gs[0].exitRequest
    ensures i < |Chunks(Examine(w, slot, gs, a).0.value, batchSize)|
    ensures s == SubmissionOf(a, HeaderFor(w, slot, gs, a), Chunks(Examine(w, slot, gs, a).0.value, batchSize), i)
    ensures Reaches(a, HeaderFor(w, slot, gs, a).historical, i)
  {
    var h, batches := HeaderFor(w, slot, gs, a), Chunks(Examine(w, slot, gs, a).0.value, batchSize);
    SubmissionMember(a, h, batches, 0, s);
    i :| 0 <= i < |batches| && Reaches(a, h.historical, i) && s == SubmissionOf(a, h, batches, i);
  }

  /** Every submission of a slot carries its first group's request and witnesses of its own validators. */
  lemma {:induction false} SubmissionIsOwn(w: World, batchSize: nat, slot: int, gs: seq<Group>, a: SlotAnswers,
                                           s: Submission)
    requires batchSize >= 1 && gs != [] && s in RunSlot(w, batchSize, slot, gs, a).submissions
    ensures s.request == gs[0].exitRequest && Examine(w, slot, gs, a).0.Reply?
    ensures a.head.Reply?
            && if w.cfg.IsSlotOld(slot, a.head.value) then s.proof.Some?
               else s.proof.None? && Finds(a.headers, slot, MAX_ATTEMPTS, s.slot)
    ensures forall wit :: wit in s.witnesses ==>
              wit in Examine(w, slot, gs, a).0.value && exists e :: e in Flatten(gs) && wit == WitnessFor(e)
  {
    var i := SubmissionIsBatch(w, batchSize, slot, gs, a, s);
    NextSlotExact(a.headers, slot, MAX_ATTEMPTS);
    forall wit | wit in s.witnesses
      ensures wit in Examine(w, slot, gs, a).0.value && exists e :: e in Flatten(gs) && wit == WitnessFor(e)
    {
      BatchIsOwn(w, batchSize, slot, gs, a, i, wit);
    }
  }

  /** Only keys of the slot's own validators are reported, and only ones with a witness. */
  lemma {:induction false} SentAreWitnessed(w: World, batchSize: nat, slot: int, gs: seq<Group>, a: SlotAnswers,
                                            p: string)
    requires batchSize >= 1 && gs != [] && p in RunSlot(w, batchSize, slot, gs, a).Sent()
    ensures exists e :: e in Flatten(gs) && e.validator.pubkey == p
                        && WitnessFor(e) in Examine(w, slot, gs, a).0.value
  {
    var run := RunSlot(w, batchSize, slot, gs, a);
    ReturnedKey(run.submissions, p);
    var s :| s in run.submissions && s.returned && HoldsKey(s.witnesses, p);
    SubmissionIsOwn(w, batchSize, slot, gs, a, s);
    var k :| 0 <= k < |s.witnesses| && s.witnesses[k].pubkey == p;
    assert s.witnesses[k] in s.witnesses;
  }

  lemma {:induction false} RunKeysAreOwn(w: World, batchSize: nat, slot: int, gs: seq<Group>, a: SlotAnswers,
                                         run: SlotRun, p: string)
    requires batchSize >= 1 && gs != [] && run == RunSlot(w, batchSize, slot, gs, a)
    ensures p in run.Sent() || p in run.cleared ==> exists e :: e in Flatten(gs) && e.validator.pubkey == p
  {
    ClearedAreOwn(w, batchSize, slot, gs, a, p);
    if p in run.Sent() {
      SentAreWitnessed(w, batchSize, slot, gs, a, p);
    }
  }

  /** Batch i of the slot's witnesses holds the key. */
  ghost predicate BatchHolds(w: World, batchSize: nat, slot: int, gs: seq<Group>, a: SlotAnswers, i: nat, p: string)
    requires batchSize >= 1 && gs != [] && Examine(w, slot, gs, a).0.Reply?
  {
    var batches := Chunks(Examine(w, slot, gs, a).0.value, batchSize);
    i < |batches| && HoldsKey(batches[i], p)
  }

  /** The batch is skipped: its slot takes the historical way and its summary state is corrupt. */
  ghost predicate BatchSkipped(w: World, slot: int, a: SlotAnswers, i: nat) {
    a.head.Reply? && w.cfg.IsSlotOld(slot, a.head.value) && a.summary(i).CorruptSummary?
  }

  /** When nothing throws, a key is reported exactly when some batch holds it that is not skipped. */
  lemma SentExact(w: World, batchSize: nat, slot: int, gs: seq<Group>, a: SlotAnswers, p: string)
    requires batchSize >= 1 && gs != [] && !RunSlot(w, batchSize, slot, gs, a).threw
    ensures p in RunSlot(w, batchSize, slot, gs, a).Sent() <==>
            exists i: nat :: BatchHolds(w, batchSize, slot, gs, a, i, p) && !BatchSkipped(w, slot, a, i)
  {
    var run, h := RunSlot(w, batchSize, slot, gs, a), HeaderFor(w, slot, gs, a);
    var batches := Chunks(Examine(w, slot, gs, a).0.value, batchSize);
    ReturnedKey(run.submissions, p);
    if s :| s in run.submissions && s.returned && HoldsKey(s.witnesses, p) {
      SubmissionMember(a, h, batches, 0, s);
      var i :| 0 <= i < |batches| && Reaches(a, h.historical, i) && s == SubmissionOf(a, h, batches, i);
      assert BatchHolds(w, batchSize, slot, gs, a, i, p) && !BatchSkipped(w, slot, a, i);
    }
    if i: nat :| BatchHolds(w, batchSize, slot, gs, a, i, p) && !BatchSkipped(w, slot, a, i) {
      SubmissionMember(a, h, batches, 0, SubmissionOf(a, h, batches, i));
      assert SubmissionOf(a, h, batches, i) in run.submissions;
    }
  }

  lemma {:induction false} LateHasWitness(w: World, slot: int, gs: seq<Group>, a: SlotAnswers, i: nat)
    requires gs != [] && i < |Flatten(gs)| && a.state.Loaded? && Examine(w, slot, gs, a).0.Reply?
    requires Judge(w.cfg, ExaminationFor(w, gs, a, NextSlot(a.headers, slot, MAX_ATTEMPTS).value), i,
                   Flatten(gs)[i]).Late?
    ensures WitnessFor(Flatten(gs)[i]) in Examine(w, slot, gs, a).0.value
  {
    var es, x := Flatten(gs), ExaminationFor(w, gs, a, NextSlot(a.headers, slot, MAX_ATTEMPTS).value);
    WitnessMember(w.cfg, x, es, |es|, WitnessFor(es[i]));
    assert Examine(w, slot, gs, a).0.value == Witnesses(w.cfg, x, es, |es|);
  }

  /** The key of every validator judged late is in some batch. */
  lemma LateHasBatch(w: World, batchSize: nat, slot: int, gs: seq<Group>, a: SlotAnswers, i: nat) returns (b: nat)
    requires batchSize >= 1 && gs != [] && i < |Flatten(gs)| && a.state.Loaded? && Examine(w, slot, gs, a).0.Reply?
    requires Judge(w.cfg, ExaminationFor(w, gs, a, NextSlot(a.headers, slot, MAX_ATTEMPTS).value), i,
                   Flatten(gs)[i]).Late?
    ensures BatchHolds(w, batchSize, slot, gs, a, b, Flatten(gs)[i].validator.pubkey)
  {
    var wit, witnesses := WitnessFor(Flatten(gs)[i]), Examine(w, slot, gs, a).0.value;
    LateHasWitness(w, slot, gs, a, i);
    ChunksExact(witnesses, batchSize);
    var batches: seq<seq<Witness>> := Chunks(witnesses, batchSize);
    b := InSomeBatch(batches, wit);
    var k :| 0 <= k < |batches[b]| && batches[b][k] == wit;
  }

  /**
    A corrupt deadline state lets the slot pass without a submission. Cleanup then removes all of it
    exactly when no validator of it is in the reported set.
   */
  lemma {:induction false} CorruptStateDropsSlot(w: World, batchSize: nat, slot: int, gs: seq<Group>, a: SlotAnswers,
                                                 reported: set<string>)
    requires batchSize >= 1 && gs != [] && a.state.Corrupt?
    requires a.deliveryReplies && a.head.Reply? && NextSlot(a.headers, slot, MAX_ATTEMPTS).Reply?
    ensures RunSlot(w, batchSize, slot, gs, a) == SlotRun([], {}, false)
    ensures CleanSlot(gs, reported) == [] <==> forall e :: e in Flatten(gs) ==> e.validator.pubkey !in reported
  {
    RemainingMeansGroups(gs, reported);
    forall e ensures e in Keep(Flatten(gs), reported) <==> e in Flatten(gs) && e.validator.pubkey in reported {
      KeepMember(Flatten(gs), reported, e);
    }
    if Keep(Flatten(gs), reported) != [] {
      assert Keep(Flatten(gs), reported)[0] in Keep(Flatten(gs), reported);
    }
  }

  // ---------- what becomes of a validator ----------

  /** No exit was initiated before the epoch of the deadline slot, as far as the deadline state says. */
  ghost predicate StillIn(w: World, d: int, a: SlotAnswers, e: Tracked)
    requires w.cfg.Valid() && a.state.Loaded?
  {
    var index := e.validator.validatorIndex;
    && index < |a.state.view|
    && (a.state.view[index].exitEpoch.Some? ==> a.state.view[index].exitEpoch.value >= w.cfg.SlotToEpoch(d))
  }

  /** What the penalty contract answers about validator i, asked with the seconds since it became eligible. */
  function PenaltyAnswer(w: World, gs: seq<Group>, a: SlotAnswers, i: nat, actual: int): Answer<bool>
    requires gs != [] && i < |Flatten(gs)|
  {
    var e, now := Flatten(gs)[i], w.cfg.SlotToTimestamp(actual);
    a.penalty(i, e.validator, now,
              now - w.cfg.EligibleExitRequestTimestamp(w.delivered(gs[0].exitRequest.hash), e.activationEpoch))
  }

  /** The examination throws at validator i: it has no record, or the contract does not answer. */
  ghost predicate ValidatorThrows(w: World, d: int, gs: seq<Group>, a: SlotAnswers, i: nat, actual: int)
    requires w.cfg.Valid() && gs != [] && a.state.Loaded? && i < |Flatten(gs)|
  {
    var e := Flatten(gs)[i];
    || e.validator.validatorIndex >= |a.state.view|
    || (StillIn(w, d, a, e) && PenaltyAnswer(w, gs, a, i, actual).Fails?)
  }

  /** Each judgement by the record, the epoch of the deadline slot, and the contract's answer. */
  ghost predicate JudgedAt(w: World, d: int, gs: seq<Group>, a: SlotAnswers, i: nat, actual: int)
    requires w.cfg.Valid() && gs != [] && a.state.Loaded? && i < |Flatten(gs)|
  {
    var e := Flatten(gs)[i];
    var judgement, stillIn, answer :=
      Judge(w.cfg, ExaminationFor(w, gs, a, actual), i, e), StillIn(w, d, a, e), PenaltyAnswer(w, gs, a, i, actual);
    && w.cfg.SlotToTimestamp(actual)
       > w.cfg.EligibleExitRequestTimestamp(w.delivered(gs[0].exitRequest.hash), e.activationEpoch)
    && (judgement.Late? <==> stillIn && answer == Reply(true))
    && (judgement.NoPenalty? <==> stillIn && answer == Reply(false))
    && (judgement.Threw? <==> ValidatorThrows(w, d, gs, a, i, actual))
    && (judgement.AlreadyExited? <==> e.validator.validatorIndex < |a.state.view| && !stillIn)
  }

  /**
    In a reachable slot a validator is judged late, free of penalty, or not judged for an exception
    exactly by whether its exit is before the epoch of the deadline slot and by what the penalty
    contract answers, asked with the positive seconds since its eligibility.
   */
  lemma {:induction false} JudgedExact(w: World, d: int, gs: seq<Group>, a: SlotAnswers, i: nat, actual: int)
    requires w.cfg.Valid() && SlotOk(w, d, gs) && a.state.Loaded? && i < |Flatten(gs)| && actual >= d + 1
    ensures JudgedAt(w, d, gs, a, i, actual)
  {
    var e := Flatten(gs)[i];
    EligibleUnderFirstRequest(w, d, gs, e, actual);
    assert HasOrigin(w, d, gs, e);
  }

  lemma {:induction false} ThrowsJudged(w: World, d: int, gs: seq<Group>, a: SlotAnswers, i: nat, actual: int)
    requires w.cfg.Valid() && SlotOk(w, d, gs) && a.state.Loaded? && i < |Flatten(gs)| && actual >= d + 1
    ensures Judge(w.cfg, ExaminationFor(w, gs, a, actual), i, Flatten(gs)[i]).Threw? <==>
            ValidatorThrows(w, d, gs, a, i, actual)
  {
    JudgedExact(w, d, gs, a, i, actual);
  }

  lemma {:induction false} NoPenaltyJudged(w: World, d: int, gs: seq<Group>, a: SlotAnswers, i: nat, actual: int)
    requires w.cfg.Valid() && SlotOk(w, d, gs) && a.state.Loaded? && i < |Flatten(gs)| && actual >= d + 1
    ensures Judge(w.cfg, ExaminationFor(w, gs, a, actual), i, Flatten(gs)[i]).NoPenalty? <==>
            NoPenaltyFor(w, d, gs, a, i, actual)
  {
    JudgedExact(w, d, gs, a, i, actual);
  }

  /** The contract says that no penalty applies to validator i. */
  ghost predicate NoPenaltyFor(w: World, d: int, gs: seq<Group>, a: SlotAnswers, i: nat, actual: int)
    requires w.cfg.Valid() && gs != [] && a.state.Loaded? && i < |Flatten(gs)|
  {
    StillIn(w, d, a, Flatten(gs)[i]) && PenaltyAnswer(w, gs, a, i, actual) == Reply(false)
  }

  /** No validator before i throws. */
  ghost predicate NoneThrowsBefore(w: World, d: int, gs: seq<Group>, a: SlotAnswers, i: nat, actual: int)
    requires w.cfg.Valid() && gs != [] && a.state.Loaded? && i <= |Flatten(gs)|
  {
    forall k :: 0 <= k < i ==> !ValidatorThrows(w, d, gs, a, k, actual)
  }

  /** The examination of a reachable slot stops at the first validator that throws. */
  lemma {:induction false} StopExact(w: World, d: int, gs: seq<Group>, a: SlotAnswers, actual: int)
    requires w.cfg.Valid() && SlotOk(w, d, gs) && a.state.Loaded? && actual >= d + 1
    ensures var n := StopAt(w.cfg, ExaminationFor(w, gs, a, actual), Flatten(gs), 0);
            && (n < |Flatten(gs)| ==> ValidatorThrows(w, d, gs, a, n, actual))
            && NoneThrowsBefore(w, d, gs, a, n, actual)
  {
    var n := StopAt(w.cfg, ExaminationFor(w, gs, a, actual), Flatten(gs), 0);
    if n < |Flatten(gs)| {
      ThrowsJudged(w, d, gs, a, n, actual);
    }
    forall i | 0 <= i < n ensures !ValidatorThrows(w, d, gs, a, i, actual) {
      ThrowsJudged(w, d, gs, a, i, actual);
    }
  }

  /** The lookups of a slot answer, its state is read, and the search ends at this slot. */
  ghost predicate Examined(d: int, a: SlotAnswers, actual: int) {
    a.deliveryReplies && a.head.Reply? && a.state.Loaded? && Finds(a.headers, d + 1, MAX_ATTEMPTS, actual)
  }

  /**
    A key is dropped exactly when the contract says of some validator with it, before any that throws,
    that no penalty applies.
   */
  lemma {:induction false} ClearedExact(w: World, batchSize: nat, d: int, gs: seq<Group>, a: SlotAnswers, actual: int,
                                        p: string)
    requires w.cfg.Valid() && SlotOk(w, d, gs) && batchSize >= 1 && Examined(d, a, actual)
    ensures p in RunSlot(w, batchSize, d + 1, gs, a).cleared <==>
            exists i :: 0 <= i < |Flatten(gs)| && Flatten(gs)[i].validator.pubkey == p
                        && NoPenaltyFor(w, d, gs, a, i, actual) && NoneThrowsBefore(w, d, gs, a, i, actual)
  {
    ClearedOf(w, batchSize, d, gs, a, actual);
    KeysDropped(w, d, gs, a, actual, p);
  }

  lemma {:induction false} KeysDropped(w: World, d: int, gs: seq<Group>, a: SlotAnswers, actual: int, p: string)
    requires w.cfg.Valid() && SlotOk(w, d, gs) && a.state.Loaded? && actual >= d + 1
    ensures var x := ExaminationFor(w, gs, a, actual);
            p in NoPenaltyKeys(w.cfg, x, Flatten(gs), StopAt(w.cfg, x, Flatten(gs), 0)) <==>
            exists i :: 0 <= i < |Flatten(gs)| && Flatten(gs)[i].validator.pubkey == p
                        && NoPenaltyFor(w, d, gs, a, i, actual) && NoneThrowsBefore(w, d, gs, a, i, actual)
  {
    var es, x := Flatten(gs), ExaminationFor(w, gs, a, actual);
    var n := StopAt(w.cfg, x, es, 0);
    StopExact(w, d, gs, a, actual);
    if i :| 0 <= i < n && Judge(w.cfg, x, i, es[i]).NoPenalty? && es[i].validator.pubkey == p {
      NoPenaltyJudged(w, d, gs, a, i, actual);
      assert NoneThrowsBefore(w, d, gs, a, i, actual);
    }
    if i :| 0 <= i < |es| && es[i].validator.pubkey == p && NoPenaltyFor(w, d, gs, a, i, actual)
            && NoneThrowsBefore(w, d, gs, a, i, actual) {
      NoPenaltyJudged(w, d, gs, a, i, actual);
      assert i <= n && i != n;
    }
  }

  lemma {:induction false} ClearedOf(w: World, batchSize: nat, d: int, gs: seq<Group>, a: SlotAnswers, actual: int)
    requires gs != [] && batchSize >= 1 && Examined(d, a, actual)
    ensures var x := ExaminationFor(w, gs, a, actual);
            RunSlot(w, batchSize, d + 1, gs, a).cleared ==
            NoPenaltyKeys(w.cfg, x, Flatten(gs), StopAt(w.cfg, x, Flatten(gs), 0))
  {
    NextSlotExact(a.headers, d + 1, MAX_ATTEMPTS);
  }

  /** The contract says that a penalty applies to validator i. */
  ghost predicate LateFor(w: World, d: int, gs: seq<Group>, a: SlotAnswers, i: nat, actual: int)
    requires w.cfg.Valid() && gs != [] && a.state.Loaded? && i < |Flatten(gs)|
  {
    StillIn(w, d, a, Flatten(gs)[i]) && PenaltyAnswer(w, gs, a, i, actual) == Reply(true)
  }

  /**
    The witnesses of a reachable slot that is examined to the end are those of its late validators, in
    the order of its groups, one for each.
   */
  lemma ExaminedInOrder(w: World, d: int, gs: seq<Group>, a: SlotAnswers, actual: int) returns (ps: seq<nat>)
    requires w.cfg.Valid() && SlotOk(w, d, gs) && Examined(d, a, actual)
    requires NoneThrowsBefore(w, d, gs, a, |Flatten(gs)|, actual)
    ensures Positions(ps, |Flatten(gs)|)
    ensures forall k :: 0 <= k < |Flatten(gs)| ==> (k in ps <==> LateFor(w, d, gs, a, k, actual))
    ensures var r := Examine(w, d + 1, gs, a).0;
            && r.Reply? && |r.value| == |ps|
            && forall j :: 0 <= j < |ps| ==> r.value[j] == WitnessFor(Flatten(gs)[ps[j]])
  {
    var es, x := Flatten(gs), ExaminationFor(w, gs, a, actual);
    StopExact(w, d, gs, a, actual);
    ExaminedWitnesses(w, d, gs, a, actual);
    ps := WitnessesInOrder(w.cfg, x, es, |es|);
    forall k | 0 <= k < |es| ensures Judge(w.cfg, x, k, es[k]).Late? <==> LateFor(w, d, gs, a, k, actual) {
      JudgedExact(w, d, gs, a, k, actual);
    }
  }

  lemma {:induction false} ExaminedWitnesses(w: World, d: int, gs: seq<Group>, a: SlotAnswers, actual: int)
    requires gs != [] && Examined(d, a, actual)
    requires StopAt(w.cfg, ExaminationFor(w, gs, a, actual), Flatten(gs), 0) == |Flatten(gs)|
    ensures Examine(w, d + 1, gs, a).0 ==
            Reply(Witnesses(w.cfg, ExaminationFor(w, gs, a, actual), Flatten(gs), |Flatten(gs)|))
  {
    NextSlotExact(a.headers, d + 1, MAX_ATTEMPTS);
  }

  // ---------- when a slot throws ----------

  /** Batch i of the slot's witnesses cannot be prepared, or its call of the executor throws. */
  ghost predicate BatchThrows(w: World, batchSize: nat, slot: int, gs: seq<Group>, a: SlotAnswers, i: nat)
    requires batchSize >= 1 && gs != []
  {
    && Examine(w, slot, gs, a).0.Reply? && i < |Chunks(Examine(w, slot, gs, a).0.value, batchSize)|
    && if w.cfg.IsSlotOld(slot, a.head.value) && !a.summary(i).Ready? then a.summary(i).SummaryThrew? else !a.execute(i)
  }

  /**
    The delivery time, the head or the state cannot be had; no slot is found; some validator cannot be
    judged; or some batch throws.
   */
  ghost predicate SlotFails(w: World, batchSize: nat, d: int, gs: seq<Group>, a: SlotAnswers)
    requires w.cfg.Valid() && batchSize >= 1 && gs != []
  {
    || !a.deliveryReplies || a.head.Fails? || a.state.Unavailable? || NoneFound(a.headers, d + 1, MAX_ATTEMPTS)
    || SomeValidatorThrows(w, d, gs, a) || SomeBatchThrows(w, batchSize, d + 1, gs, a)
  }

  ghost predicate SomeValidatorThrows(w: World, d: int, gs: seq<Group>, a: SlotAnswers)
    requires w.cfg.Valid() && gs != []
  {
    a.state.Loaded?
    && exists actual, i :: Finds(a.headers, d + 1, MAX_ATTEMPTS, actual)
                           && 0 <= i < |Flatten(gs)| && ValidatorThrows(w, d, gs, a, i, actual)
  }

  ghost predicate SomeBatchThrows(w: World, batchSize: nat, slot: int, gs: seq<Group>, a: SlotAnswers)
    requires batchSize >= 1 && gs != []
  {
    exists i: nat :: BatchThrows(w, batchSize, slot, gs, a, i)
  }

  lemma {:induction false} SubmitThrows(a: SlotAnswers, h: Header, batches: seq<seq<Witness>>, i: nat)
    requires i <= |batches|
    ensures SubmitFrom(a, h, batches, i).1 <==>
            exists k :: i <= k < |batches| && Stops(a, h, k)
    decreases |batches| - i
  {
    if i < |batches| && !Stops(a, h, i) {
      SubmitThrows(a, h, batches, i + 1);
    }
  }

  lemma BatchesThrow(w: World, batchSize: nat, slot: int, gs: seq<Group>, a: SlotAnswers)
    requires batchSize >= 1 && gs != [] && Examine(w, slot, gs, a).0.Reply?
    ensures RunSlot(w, batchSize, slot, gs, a).threw <==> SomeBatchThrows(w, batchSize, slot, gs, a)
  {
    var h, batches := HeaderFor(w, slot, gs, a), Chunks(Examine(w, slot, gs, a).0.value, batchSize);
    SubmitThrows(a, h, batches, 0);
    forall k: nat | k < |batches| ensures BatchThrows(w, batchSize, slot, gs, a, k) <==> Stops(a, h, k) {
    }
    if k: nat :| BatchThrows(w, batchSize, slot, gs, a, k) {
      assert Stops(a, h, k);
    }
    if k :| 0 <= k < |batches| && Stops(a, h, k) {
      assert BatchThrows(w, batchSize, slot, gs, a, k);
    }
  }

  lemma ExamineFails(w: World, d: int, gs: seq<Group>, a: SlotAnswers)
    requires w.cfg.Valid() && SlotOk(w, d, gs)
    ensures Examine(w, d + 1, gs, a).0.Fails? <==>
            || !a.deliveryReplies || a.head.Fails? || a.state.Unavailable? || NoneFound(a.headers, d + 1, MAX_ATTEMPTS)
            || SomeValidatorThrows(w, d, gs, a)
  {
    NextSlotExact(a.headers, d + 1, MAX_ATTEMPTS);
    if a.state.Loaded? && !NoneFound(a.headers, d + 1, MAX_ATTEMPTS) {
      var actual := NextSlot(a.headers, d + 1, MAX_ATTEMPTS).value;
      assert Finds(a.headers, d + 1, MAX_ATTEMPTS, actual);
      StopExact(w, d, gs, a, actual);
    }
  }

  /** Processing a reachable slot throws exactly for one of these reasons. */
  lemma RunThrowsExact(w: World, batchSize: nat, d: int, gs: seq<Group>, a: SlotAnswers)
    requires w.cfg.Valid() && SlotOk(w, d, gs) && batchSize >= 1
    ensures RunSlot(w, batchSize, d + 1, gs, a).threw <==> SlotFails(w, batchSize, d, gs, a)
  {
    ExamineFails(w, d, gs, a);
    if Examine(w, d + 1, gs, a).0.Reply? {
      BatchesThrow(w, batchSize, d + 1, gs, a);
    }
  }

  /**
    In a reachable slot the branch for validators that are not eligible yet is never taken, although
    the delivery time used is that of the slot's first request.
   */
  lemma {:induction false} NeverNotEligibleYet(w: World, d: int, gs: seq<Group>, a: SlotAnswers, i: nat)
    requires w.cfg.Valid() && SlotOk(w, d, gs) && a.state.Loaded? && i < |Flatten(gs)|
    requires NextSlot(a.headers, d + 1, MAX_ATTEMPTS).Reply?
    ensures var x := ExaminationFor(w, gs, a, NextSlot(a.headers, d + 1, MAX_ATTEMPTS).value);
            !Judge(w.cfg, x, i, Flatten(gs)[i]).NotEligibleYet?
  {
    NextSlotFrom(a.headers, d + 1, MAX_ATTEMPTS);
    EligibleUnderFirstRequest(w, d, gs, Flatten(gs)[i], NextSlot(a.headers, d + 1, MAX_ATTEMPTS).value);
  }

  // ---------- where witnesses point ----------

  /** The witness's index selects, in the decoding of the data, an entry with its own key, module and node operator. */
  predicate PointsToItself(data: seq<Byte>, wit: Witness) {
    var es := Decode(data);
    && es.Some? && wit.exitRequestIndex < |es.value|
    && var entry := es.value[wit.exitRequestIndex];
       entry.pubkey == wit.pubkey && entry.moduleId == wit.moduleId && entry.nodeOpId == wit.nodeOpId
  }

  /** Entry i of both data names the same key, module and node operator. */
  predicate SameEntryAt(data: seq<Byte>, other: seq<Byte>, i: nat) {
    var es, fs := Decode(data), Decode(other);
    && es.Some? && fs.Some? && i < |es.value| && i < |fs.value|
    && es.value[i].pubkey == fs.value[i].pubkey
    && es.value[i].moduleId == fs.value[i].moduleId && es.value[i].nodeOpId == fs.value[i].nodeOpId
  }

  /**
    The submission carries the request of the slot's first group, and each of its witnesses, of a
    validator of group k, points to itself in that request's data exactly when the requests of the
    first group and of group k name the same validator at its index.
   */
  ghost predicate Explained(gs: seq<Group>, s: Submission) {
    && gs != [] && s.request == gs[0].exitRequest
    && forall wit :: wit in s.witnesses ==> exists k :: 0 <= k < |gs| && ExplainedBy(gs, s, wit, k)
  }

  ghost predicate ExplainedBy(gs: seq<Group>, s: Submission, wit: Witness, k: nat)
    requires k < |gs|
  {
    && (exists e :: e in gs[k].validators && wit == WitnessFor(e))
    && (PointsToItself(s.request.data, wit) <==>
          SameEntryAt(gs[0].exitRequest.data, gs[k].exitRequest.data, wit.exitRequestIndex))
  }

  /** Every submission made for a reachable slot is explained by it. */
  lemma SubmissionsExplained(w: World, batchSize: nat, d: int, gs: seq<Group>, a: SlotAnswers, s: Submission)
    requires w.cfg.Valid() && SlotOk(w, d, gs) && batchSize >= 1
    requires s in RunSlot(w, batchSize, d + 1, gs, a).submissions
    ensures Explained(gs, s)
  {
    SubmissionIsOwn(w, batchSize, d + 1, gs, a, s);
    forall wit | wit in s.witnesses ensures exists k :: 0 <= k < |gs| && ExplainedBy(gs, s, wit, k) {
      var e :| e in Flatten(gs) && wit == WitnessFor(e);
      var k := WitnessExplained(w, d, gs, s, e);
    }
  }

  ghost predicate ExplainedRun(gs: seq<Group>, run: SlotRun) {
    forall s :: s in run.submissions ==> Explained(gs, s)
  }

  lemma RunExplained(w: World, batchSize: nat, d: int, gs: seq<Group>, a: SlotAnswers, run: SlotRun)
    requires w.cfg.Valid() && SlotOk(w, d, gs) && batchSize >= 1 && run == RunSlot(w, batchSize, d + 1, gs, a)
    ensures ExplainedRun(gs, run)
  {
    forall s | s in run.submissions ensures Explained(gs, s) {
      SubmissionsExplained(w, batchSize, d, gs, a, s);
    }
  }

  lemma WitnessExplained(w: World, d: int, gs: seq<Group>, s: Submission, e: Tracked) returns (k: nat)
    requires w.cfg.Valid() && SlotOk(w, d, gs) && e in Flatten(gs) && s.request == gs[0].exitRequest
    ensures k < |gs| && ExplainedBy(gs, s, WitnessFor(e), k)
  {
    assert HasOrigin(w, d, gs, e);
    k :| 0 <= k < |gs| && e in gs[k].validators && Belongs(w, d, gs[k].exitRequest, e);
  }

  /** When a slot's groups share one request, every submitted witness points to itself. */
  lemma WitnessesPointToThemselves(w: World, batchSize: nat, d: int, gs: seq<Group>, a: SlotAnswers,
                                   s: Submission, wit: Witness)
    requires w.cfg.Valid() && SlotOk(w, d, gs) && batchSize >= 1
    requires forall k :: 0 <= k < |gs| ==> gs[k].exitRequest == gs[0].exitRequest
    requires s in RunSlot(w, batchSize, d + 1, gs, a).submissions && wit in s.witnesses
    ensures PointsToItself(s.request.data, wit)
  {
    SubmissionIsOwn(w, batchSize, d + 1, gs, a, s);
    var e :| e in Flatten(gs) && wit == WitnessFor(e);
    SharedRequestAligns(w, d, gs, gs[0].exitRequest, e);
  }

  lemma EncodedGroupOk(w: World, d: int, e: Tracked, hash: string, threshold: nat)
    requires w.cfg.Valid() && InRange(e.validator) && e.validator.exitDataIndex == 0
    requires e.exitDeadlineEpoch == w.cfg.SlotToEpoch(d)
             && DeadlineIn(w.cfg, d, w.delivered(hash), e.activationEpoch, threshold)
    ensures var g := Group(ExitRequest(hash, Encode([e.validator])), [e]);
            Decode(g.exitRequest.data) == Some([e.validator]) && GroupOk(w, d, g) && Belongs(w, d, g.exitRequest, e)
  {
    DecodeEncode([e.validator]);
    DeadlineBounds(w.cfg, d, w.delivered(hash), e.activationEpoch, threshold);
  }

  /** A slot with two requests of one entry each. */
  function TwoRequests(a: Tracked, hashA: string, b: Tracked, hashB: string): (gs: seq<Group>)
    ensures |gs| == 2 && gs[0].exitRequest.hash == hashA && gs[1].exitRequest.hash == hashB
    ensures Flatten(gs) == [a, b]
  {
    var ga, gb :=
      Group(ExitRequest(hashA, Encode([a.validator])), [a]), Group(ExitRequest(hashB, Encode([b.validator])), [b]);
    assert [ga, gb][1..] == [gb] && Flatten([gb]) == [b] + [];
    [ga, gb]
  }

  /** Two such requests whose deadlines fall in one slot give a slot that meets the invariant. */
  lemma TwoRequestsOk(w: World, d: int, a: Tracked, b: Tracked, hashA: string, hashB: string, ta: nat, tb: nat)
    requires w.cfg.Valid() && InRange(a.validator) && InRange(b.validator)
    requires a.validator.exitDataIndex == b.validator.exitDataIndex == 0
    requires a.exitDeadlineEpoch == b.exitDeadlineEpoch == w.cfg.SlotToEpoch(d)
    requires DeadlineIn(w.cfg, d, w.delivered(hashA), a.activationEpoch, ta)
    requires DeadlineIn(w.cfg, d, w.delivered(hashB), b.activationEpoch, tb)
    ensures SlotOk(w, d, TwoRequests(a, hashA, b, hashB))
  {
    EncodedGroupOk(w, d, a, hashA, ta);
    EncodedGroupOk(w, d, b, hashB, tb);
    var ga, gb := TwoRequests(a, hashA, b, hashB)[0], TwoRequests(a, hashA, b, hashB)[1];
    SlotOkSingle(w, d, ga, a);
    SlotOkSingle(w, d, gb, b);
    SlotOkAppend(w, d, [ga], gb);
    assert [ga] + [gb] == TwoRequests(a, hashA, b, hashB);
  }

  /**
    The witness of the second of two such requests points to itself exactly when the two entries
    name the same validator: otherwise it selects the first request's entry.
   */
  lemma SecondRequestPointsExact(a: Tracked, b: Tracked, hashA: string, hashB: string)
    requires InRange(a.validator) && InRange(b.validator)
    requires a.validator.exitDataIndex == b.validator.exitDataIndex == 0
    ensures PointsToItself(TwoRequests(a, hashA, b, hashB)[0].exitRequest.data, WitnessFor(b)) <==>
            a.validator.(validatorIndex := 0) == b.validator.(validatorIndex := 0)
  {
    DecodeEncode([a.validator]);
  }

  lemma SlotOkSingle(w: World, d: int, g: Group, e: Tracked)
    requires w.cfg.Valid() && g.validators == [e] && GroupOk(w, d, g) && Belongs(w, d, g.exitRequest, e)
    ensures SlotOk(w, d, [g])
  {
    FlattenMember([g], e);
    forall x | x in Flatten([g]) ensures HasOrigin(w, d, [g], x) {
      FlattenMember([g], x);
      assert [g][0] == g && e in g.validators;
    }
  }

  // ---------- what the merged delivery time costs ----------

  /**
    The penalty contract is asked with the seconds since eligibility under the slot's first request.
    For a validator of another request these exceed its threshold at every proof slot exactly when
    the deadline computed from the first request's delivery is no later than the slot.
   */
  lemma MergedDeliveryExact(c: Config, d: int, firstDelivered: int, activationEpoch: nat, threshold: nat)
    requires c.Valid()
    ensures (forall proofSlot :: proofSlot >= d + 1 ==>
               c.SlotToTimestamp(proofSlot)
               - c.EligibleExitRequestTimestamp(firstDelivered, activationEpoch) > threshold)
            <==>
            c.SlotFromExitDeadline(c.EligibleExitRequestTimestamp(firstDelivered, activationEpoch) + threshold) <= d
  {
    DeadlineExact(c, firstDelivered, activationEpoch, threshold, d + 1);
    forall proofSlot | proofSlot >= d + 1
      ensures c.SlotToTimestamp(proofSlot) >= c.SlotToTimestamp(d + 1)
    {
      TimestampMonotone(c, d + 1, proofSlot);
    }
  }

  /**
    When the slot's first group was delivered no later than a validator's own request, as when
    requests are stored in the order of their blocks, the seconds the penalty contract is asked
    with exceed the validator's threshold at every proof slot.
   */
  lemma EarlierFirstGroupSuffices(w: World, d: int, gs: seq<Group>, e: Tracked, proofSlot: int)
      returns (k: nat, threshold: nat)
    requires w.cfg.Valid() && SlotOk(w, d, gs) && e in Flatten(gs) && proofSlot >= d + 1
    ensures k < |gs| && e in gs[k].validators
    ensures DeadlineIn(w.cfg, d, w.delivered(gs[k].exitRequest.hash), e.activationEpoch, threshold)
    ensures w.delivered(gs[0].exitRequest.hash) <= w.delivered(gs[k].exitRequest.hash) ==>
              w.cfg.SlotToTimestamp(proofSlot)
              - w.cfg.EligibleExitRequestTimestamp(w.delivered(gs[0].exitRequest.hash), e.activationEpoch) > threshold
  {
    k, threshold := PastThresholdUnderOwnRequest(w, d, gs, e, proofSlot);
  }

  lemma JudgedBySeconds(c: Config, x: Examination, i: nat, e: Tracked, threshold: nat)
    requires e.validator.validatorIndex < |x.view| && x.view[e.validator.validatorIndex].exitEpoch.None?
    requires forall i, v, time, since :: x.penalty(i, v, time, since) == Reply(since > threshold)
    requires x.proofTimestamp >= c.EligibleExitRequestTimestamp(x.delivered, e.activationEpoch)
    ensures Judge(c, x, i, e) ==
            if x.proofTimestamp - c.EligibleExitRequestTimestamp(x.delivered, e.activationEpoch) > threshold then Late
            else NoPenalty
  {
  }

  /**
    A slot whose first group was delivered later than the second one, as when an error while the
    second one's event was read made one scan pass over it and a later scan found it. If the time
    from the later delivery to the proof is within the second one's threshold, then a penalty contract
    that applies this threshold is told of too few seconds and says that no penalty applies, although
    by the second one's own delivery it does.
   */
  lemma MergedDeliveryHidesDelay(w: World, d: int, first: Tracked, second: Tracked, late: string, early: string,
                                 ta: nat, tb: nat, a: SlotAnswers)
    requires w.cfg.Valid() && InRange(first.validator) && InRange(second.validator)
    requires first.validator.exitDataIndex == second.validator.exitDataIndex == 0
    requires first.exitDeadlineEpoch == second.exitDeadlineEpoch == w.cfg.SlotToEpoch(d)
    requires DeadlineIn(w.cfg, d, w.delivered(late), first.activationEpoch, ta)
    requires DeadlineIn(w.cfg, d, w.delivered(early), second.activationEpoch, tb)
    requires w.cfg.SlotToTimestamp(d + 1)
             - w.cfg.EligibleExitRequestTimestamp(w.delivered(late), second.activationEpoch) <= tb
    requires a.state.Loaded? && second.validator.validatorIndex < |a.state.view|
    requires a.state.view[second.validator.validatorIndex].exitEpoch.None?
    requires forall i, e, time, since :: a.penalty(i, e, time, since) == Reply(since > tb)
    ensures var gs := TwoRequests(first, late, second, early);
            var x := ExaminationFor(w, gs, a, d + 1);
            && SlotOk(w, d, gs) && Flatten(gs)[1] == second
            && Judge(w.cfg, x, 1, second).NoPenalty?
            && Judge(w.cfg, x.(delivered := w.delivered(early)), 1, second).Late?
  {
    var gs := TwoRequests(first, late, second, early);
    var x := ExaminationFor(w, gs, a, d + 1);
    TwoRequestsOk(w, d, first, second, late, early, ta, tb);
    EligibleUnderFirstRequest(w, d, gs, Flatten(gs)[1], d + 1);
    DeadlineBounds(w.cfg, d, w.delivered(early), second.activationEpoch, tb);
    JudgedBySeconds(w.cfg, x, 1, second, tb);
    JudgedBySeconds(w.cfg, x.(delivered := w.delivered(early)), 1, second, tb);
  }

  lemma TwoEligibilities(c: Config)
    requires c == Config(0, 12, 32, 8192, 0, 0)
    ensures c.EligibleExitRequestTimestamp(115, 0) == 115 && c.EligibleExitRequestTimestamp(5, 0) == 5
  {
  }

  /** Numbers for it: slots of 12 seconds, deliveries at seconds 115 and 5, thresholds 10 and 120. */
  lemma TwoDeadlines(c: Config)
    requires c == Config(0, 12, 32, 8192, 0, 0)
    ensures c.Valid() && DeadlineIn(c, 10, 115, 0, 10) && DeadlineIn(c, 10, 5, 0, 120)
    ensures c.SlotToTimestamp(11) - c.EligibleExitRequestTimestamp(115, 0) == 17
    ensures c.SlotToTimestamp(11) - c.EligibleExitRequestTimestamp(5, 0) == 127
  {
    TwoEligibilities(c);
  }
}
