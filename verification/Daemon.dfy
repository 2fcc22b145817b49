/** Which block ranges are scanned, and when progress is committed. */
module Daemon {
  import opened Wrappers
  import opened Arithmetic
  import opened SlotMath
  import opened Batches
  import opened Prover
  import opened Progress

  datatype Header = Header(root: string, slot: int)

  datatype ProcessedRoot = ProcessedRoot(root: string, slot: int)

  /** The answers of the outside during one turn of the daemon loop, and its clock in seconds. */
  datatype TurnAnswers = TurnAnswers(balanceReplies: bool, now: int, headerOf: string -> Answer<Option<Header>>,
                                     headerAt: int -> Answer<Option<Header>>, finalized: Answer<Option<Header>>,
                                     blocksReply: bool, cycle: CycleAnswers)

  /** The progress cell; an empty root counts as none. */
  class LastProcessedRoot {
    var root: Option<string>
    var slot: Option<int>

    constructor ()
      ensures root == None && slot == None
    {
      root, slot := None, None;
    }

    ghost predicate Valid()
      reads this
    {
      root.Some? <==> slot.Some?
    }

    function Get(): Option<ProcessedRoot>
      requires Valid()
      reads this
    {
      if root.None? || root.value == "" then None else Some(ProcessedRoot(root.value, slot.value))
    }

    method Set(processed: ProcessedRoot)
      modifies this
      ensures Valid() && root == Some(processed.root) && slot == Some(processed.slot)
    {
      root := Some(processed.root);
      slot := Some(processed.slot);
    }
  }

  const SECONDS_PER_DAY := 86400

  function LookbackSlot(c: Config, days: nat, now: int): int
    requires c.Valid()
  {
    c.TimestampToSlot(now - days * SECONDS_PER_DAY)
  }

  /** The last processed root's header if there is one; otherwise the look-back header, whose failure is caught. */
  function PrevRoot(c: Config, days: nat, a: TurnAnswers, last: Option<ProcessedRoot>): Answer<Option<Header>>
    requires c.Valid()
  {
    if last.Some? && a.headerOf(last.value.root).Fails? then Fails
    else if last.Some? && a.headerOf(last.value.root).value.Some? then a.headerOf(last.value.root)
    else
      var lookback := a.headerAt(LookbackSlot(c, days, a.now));
      if lookback.Fails? then Reply(None) else lookback
  }

  function Roots(c: Config, days: nat, a: TurnAnswers, last: Option<ProcessedRoot>): Answer<Option<(Header, Header)>>
    requires c.Valid()
  {
    var prev := PrevRoot(c, days, a, last);
    if prev.Fails? then Fails
    else if prev.value.None? then Reply(None)
    else if a.finalized.Fails? then Fails
    else if a.finalized.value.None? then Reply(None)
    else Reply(Some((prev.value.value, a.finalized.value.value)))
  }

  /** What is known of the block to start from: the last processed root's header, or the look-back header. */
  ghost predicate StartsFrom(c: Config, days: nat, a: TurnAnswers, last: Option<ProcessedRoot>, prev: Header)
    requires c.Valid()
  {
    || (last.Some? && a.headerOf(last.value.root) == Reply(Some(prev)))
    || ((last.None? || a.headerOf(last.value.root) == Reply(None))
        && a.headerAt(LookbackSlot(c, days, a.now)) == Reply(Some(prev)))
  }

  /**
    The roots are a header to start from and the finalized one. They cannot be had, with an exception,
    exactly when asking for the last processed root's header throws, or asking for the finalized one
    does after a header to start from was found; a failing look-back is none.
   */
  lemma RootsExact(c: Config, days: nat, a: TurnAnswers, last: Option<ProcessedRoot>)
    requires c.Valid()
    ensures forall prev, latest :: Roots(c, days, a, last) == Reply(Some((prev, latest))) <==>
                                   StartsFrom(c, days, a, last, prev) && a.finalized == Reply(Some(latest))
    ensures Roots(c, days, a, last).Fails? <==>
            || (last.Some? && a.headerOf(last.value.root).Fails?)
            || (a.finalized.Fails? && exists prev :: StartsFrom(c, days, a, last, prev))
  {
    var prev := PrevRoot(c, days, a, last);
    forall p ensures prev == Reply(Some(p)) <==> StartsFrom(c, days, a, last, p) {
    }
    if prev.Reply? && prev.value.Some? {
      assert StartsFrom(c, days, a, last, prev.value.value);
    }
  }

  class DaemonService {
    /** The execution block number of a beacon block, by its root. */
    const blockOf: string -> int
    const lookbackDays: nat
    const prover: ProverService
    const progress: LastProcessedRoot
    /** All ranges scanned so far, those of the prover's start-up first. */
    var scanned: seq<Range>
    /** The blocks that start-up scanned. */
    ghost const start: Range
    /** Every turn that reached the prover. */
    ghost var log: seq<Step>

    /** The scanned ranges are those of the logged turns, and the progress cell holds where the last commit went. */
    ghost predicate Valid()
      reads this, prover, progress
    {
      && prover.Valid() && progress.Valid() && Accounts(start, log, scanned)
      && LastOf(log) == (if progress.root.Some? then Some(LastBlock()) else None)
    }

    constructor (blockOf: string -> int, lookbackDays: nat, prover: ProverService, completed: seq<Range>,
                 ghost start: Range)
      requires prover.Valid() && forall b :: Covered(completed, b) <==> Holds(start, b)
      ensures Valid() && fresh(progress) && progress.Get() == None && RootNotEmpty()
      ensures scanned == completed && this.start == start && log == [] && Ordered(start, log)
      ensures this.prover == prover && this.blockOf == blockOf && this.lookbackDays == lookbackDays
    {
      this.blockOf := blockOf;
      this.lookbackDays := lookbackDays;
      this.prover := prover;
      this.start := start;
      progress := new LastProcessedRoot();
      scanned, log := completed, [];
    }

    /** The block of the last processed root. */
    ghost function LastBlock(): int
      requires progress.root.Some?
      reads this, progress
    {
      blockOf(progress.root.value)
    }

    ghost predicate ProcessThrows(prev: Header, latest: Header, a: TurnAnswers)
      requires Valid()
      reads this, prover, progress
    {
      !a.blocksReply
      || CycleThrows(prover.w, prover.batchSize, prover.storage, a.cycle, blockOf(prev.root), blockOf(latest.root))
    }

    /** The prover's cycle on a block range: how it ends, and the ranges it scanned. */
    method ScanBlocks(fromBlock: int, toBlock: int, c: CycleAnswers) returns (turn: Turn, ranges: seq<Range>)
      requires prover.Valid()
      modifies prover
      ensures prover.Valid() && turn in {Committed, Skipped, Threw}
      ensures turn == Threw <==> old(CycleThrows(prover.w, prover.batchSize, prover.storage, c, fromBlock, toBlock))
      ensures turn == Skipped <==> c.finalized.FinalizedCorrupt?
      ensures turn == Skipped ==> ranges == []
      ensures var step := Step(turn, fromBlock, toBlock, ReachOf(ranges, fromBlock));
              && (fromBlock <= toBlock ==> StepOk(step)) && (turn == Committed ==> step.reached == toBlock)
              && forall b :: Covered(ranges, b) <==> Scans(step, b)
    {
      var outcome, _, scannedRanges, _ := prover.HandleBlock(fromBlock, toBlock, c);
      ranges := scannedRanges;
      turn := match outcome case CycleThrew => Threw case CycleSkipped => Skipped case CycleDone => Committed;
    }

    /** Scan the range and commit the finalized root, unless scanning throws. */
    method Process(prev: Header, latest: Header, a: TurnAnswers) returns (turn: Turn)
      requires Valid()
      modifies this, prover, progress
      ensures Valid()
      ensures turn in {Committed, Skipped, Threw}
      ensures turn == Threw <==> old(ProcessThrows(prev, latest, a))
      ensures turn == Skipped <==> a.blocksReply && a.cycle.finalized.FinalizedCorrupt?
      ensures old(scanned) <= scanned
      ensures a.blocksReply ==>
                var step := Step(turn, blockOf(prev.root), blockOf(latest.root),
                                 ReachOf(scanned[|old(scanned)|..], blockOf(prev.root)));
                && log == old(log) + [step] && (step.from <= step.to ==> StepOk(step))
                && forall b :: Covered(scanned[|old(scanned)|..], b) <==> Scans(step, b)
      ensures !a.blocksReply ==> log == old(log) && scanned == old(scanned)
      ensures turn == Threw ==> progress.root == old(progress.root) && progress.slot == old(progress.slot)
      ensures turn != Threw ==> progress.root == Some(latest.root) && progress.slot == Some(latest.slot)
      ensures turn == Skipped ==> scanned == old(scanned)
      ensures turn == Committed ==> ReachOf(scanned[|old(scanned)|..], blockOf(prev.root)) == blockOf(latest.root)
    {
      if !a.blocksReply {
        return Threw;
      }
      var prevBlockNumber, finalizedBlockNumber := blockOf(prev.root), blockOf(latest.root);
      var ranges;
      turn, ranges := ScanBlocks(prevBlockNumber, finalizedBlockNumber, a.cycle);
      assert (scanned + ranges)[|scanned|..] == ranges;
      ghost var step := Step(turn, prevBlockNumber, finalizedBlockNumber, ReachOf(ranges, prevBlockNumber));
      AccountsStep(start, log, scanned, step, ranges);
      StepEnds(log, step);
      scanned := scanned + ranges;
      log := log + [step];
      if turn == Threw {
        return;
      }
      progress.Set(ProcessedRoot(latest.root, latest.slot));
    }

    /** Every block from the first previous root to the last processed root has been scanned. */
    ghost predicate Scanned()
      reads this
    {
      NoGap(log, scanned)
    }

    ghost predicate RootNotEmpty()
      reads progress
    {
      progress.root.Some? ==> progress.root.value != ""
    }

    /** The beacon node knows the header of the last processed root, under its own root, or throws. */
    ghost predicate KnowsRoots(a: TurnAnswers) {
      && (forall r :: a.headerOf(r).Reply? ==> a.headerOf(r).value.Some? && a.headerOf(r).value.value.root == r)
      && (a.finalized.Reply? && a.finalized.value.Some? ==> a.finalized.value.value.root != "")
    }

    /** The finalized block is no earlier than this one. */
    ghost predicate NotBefore(a: TurnAnswers, block: int) {
      a.finalized.Reply? && a.finalized.value.Some? ==> block <= blockOf(a.finalized.value.value.root)
    }

    /**
      Finality has not moved back since the logged turns, and the look-back block is finalized. While
      nothing is committed it has not moved back either, and start-up began no later.
     */
    ghost predicate Advances(a: TurnAnswers)
      requires Valid()
      reads this, prover, progress
    {
      && (forall i :: 0 <= i < |log| ==> NotBefore(a, log[i].to)) && LookbackFinalized(a)
      && (progress.root.None? ==>
            && (start.from <= start.to ==> LookbackFrom(a, start.from))
            && forall i :: 0 <= i < |log| ==> LookbackFrom(a, log[i].from))
    }

    /** The look-back block is no earlier than this one. */
    ghost predicate LookbackFrom(a: TurnAnswers, block: int)
      requires prover.w.cfg.Valid()
      reads prover
    {
      var lookback := a.headerAt(LookbackSlot(prover.w.cfg, lookbackDays, a.now));
      lookback.Reply? && lookback.value.Some? ==> block <= blockOf(lookback.value.value.root)
    }

    ghost predicate LookbackFinalized(a: TurnAnswers)
      requires prover.w.cfg.Valid()
      reads prover
    {
      var lookback := a.headerAt(LookbackSlot(prover.w.cfg, lookbackDays, a.now));
      lookback.Reply? && lookback.value.Some? ==> NotBefore(a, blockOf(lookback.value.value.root))
    }

    /**
      One turn: find the two roots, do nothing when there is nothing new, otherwise process. Unless
      it skips a corrupt finalized state, a turn leaves no new gap in the scanned blocks. One that
      does leaves a gap exactly when it moves on to a block that neither start-up nor an earlier turn
      has scanned as far as.
     */
    method BaseRun(a: TurnAnswers) returns (turn: Turn)
      requires Valid()
      modifies this, prover, progress
      ensures Valid()
      ensures old(scanned) <= scanned
      ensures var roots := Roots(prover.w.cfg, lookbackDays, a, old(progress.Get()));
              && (roots.Fails? ==> turn == Threw && log == old(log))
              && (roots.Reply? ==>
                  (turn == Idle <==> roots.value.None? || roots.value.value.0.root == roots.value.value.1.root))
              && (turn == Idle ==> log == old(log))
              && (roots.Reply? && turn != Idle ==>
                    var (prev, latest) := roots.value.value;
                    && (turn == Threw <==> old(ProcessThrows(prev, latest, a)))
                    && (turn == Skipped <==> a.blocksReply && a.cycle.finalized.FinalizedCorrupt?)
                    && (turn != Threw ==> progress.root == Some(latest.root) && progress.slot == Some(latest.slot))
                    && (!a.blocksReply ==> log == old(log) && scanned == old(scanned))
                    && (a.blocksReply ==>
                          var step := Step(turn, blockOf(prev.root), blockOf(latest.root),
                                           ReachOf(scanned[|old(scanned)|..], blockOf(prev.root)));
                          && log == old(log) + [step] && (step.from <= step.to ==> StepOk(step))
                          && forall b :: Covered(scanned[|old(scanned)|..], b) <==> Scans(step, b)))
      ensures turn in {Idle, Threw} ==> progress.root == old(progress.root) && progress.slot == old(progress.slot)
      ensures turn in {Idle, Skipped} ==> scanned == old(scanned)
      ensures turn == Skipped ==> a.cycle.finalized.FinalizedCorrupt?
      ensures old(RootNotEmpty()) && KnowsRoots(a) ==> RootNotEmpty()
      ensures old(RootNotEmpty() && Scanned()) && KnowsRoots(a) && turn != Skipped ==> Scanned()
      ensures old(RootNotEmpty() && Ordered(start, log) && Advances(a)) && KnowsRoots(a) ==>
                && Ordered(start, log)
                && (old(Scanned()) && turn == Skipped ==>
                      (Scanned() <==>
                         old(LastOf(log)) == LastOf(log) || Seen(start, old(log), |old(log)|, LastBlock())))
    {
      var roots := Roots(prover.w.cfg, lookbackDays, a, progress.Get());
      if roots.Fails? {
        return Threw;
      }
      if roots.value.None? {
        return Idle;
      }
      var (prev, latest) := roots.value.value;
      if prev.root == latest.root {
        return Idle;
      }
      turn := ProcessRoots(prev, latest, a);
    }

    /** Process roots that differ, with what this does to the scanned blocks. */
    method ProcessRoots(prev: Header, latest: Header, a: TurnAnswers) returns (turn: Turn)
      requires Valid() && Roots(prover.w.cfg, lookbackDays, a, progress.Get()) == Reply(Some((prev, latest)))
      modifies this, prover, progress
      ensures Valid()
      ensures turn in {Committed, Skipped, Threw}
      ensures turn == Threw <==> old(ProcessThrows(prev, latest, a))
      ensures turn == Skipped <==> a.blocksReply && a.cycle.finalized.FinalizedCorrupt?
      ensures old(scanned) <= scanned && (turn == Skipped ==> scanned == old(scanned))
      ensures a.blocksReply ==>
                var step := Step(turn, blockOf(prev.root), blockOf(latest.root),
                                 ReachOf(scanned[|old(scanned)|..], blockOf(prev.root)));
                && log == old(log) + [step] && (step.from <= step.to ==> StepOk(step))
                && forall b :: Covered(scanned[|old(scanned)|..], b) <==> Scans(step, b)
      ensures !a.blocksReply ==> log == old(log) && scanned == old(scanned)
      ensures turn == Threw ==> progress.root == old(progress.root) && progress.slot == old(progress.slot)
      ensures turn != Threw ==> progress.root == Some(latest.root) && progress.slot == Some(latest.slot)
      ensures old(RootNotEmpty()) && KnowsRoots(a) ==> RootNotEmpty()
      ensures old(RootNotEmpty() && Scanned()) && KnowsRoots(a) && turn != Skipped ==> Scanned()
      ensures old(RootNotEmpty() && Ordered(start, log) && Advances(a)) && KnowsRoots(a) ==>
                && Ordered(start, log)
                && (old(Scanned()) && turn == Skipped ==>
                      (Scanned() <==>
                         old(LastOf(log)) == LastOf(log) || Seen(start, old(log), |old(log)|, LastBlock())))
    {
      ghost var before, seen := log, scanned;
      ghost var known, inOrder := RootNotEmpty() && KnowsRoots(a), Ordered(start, log) && Advances(a);
      if known {
        TurnStarts(a, prev, latest);
      }
      turn := Process(prev, latest, a);
      if known && a.blocksReply {
        StepKeeps(before, seen, log[|before|], scanned[|seen|..], inOrder);
        assert seen + scanned[|seen|..] == scanned;
      }
    }

    lemma {:induction false} StepKeeps(before: seq<Step>, seen: seq<Range>, step: Step, added: seq<Range>,
                                       inOrder: bool)
      requires Accounts(start, before, seen) && !step.turn.Idle?
      requires LastOf(before).Some? ==> step.from == LastOf(before).value
      requires forall b :: Covered(added, b) <==> Scans(step, b)
      requires step.turn.Committed? ==> step.reached == step.to
      requires step.turn.Skipped? ==> added == []
      requires inOrder ==>
                 && Ordered(start, before) && StepOk(step)
                 && (forall i :: 0 <= i < |before| ==> before[i].to <= step.to)
                 && (LastOf(before).None? ==>
                       && (start.from <= start.to ==> start.from <= step.from)
                       && forall i :: 0 <= i < |before| ==> before[i].from <= step.from)
      ensures NoGap(before, seen) && !step.turn.Skipped? ==> NoGap(before + [step], seen + added)
      ensures inOrder ==> Ordered(start, before + [step])
      ensures inOrder && NoGap(before, seen) && step.turn.Skipped? ==>
                (NoGap(before + [step], seen + added) <==>
                   LastOf(before) == Some(step.to) || Seen(start, before, |before|, step.to))
    {
      if inOrder {
        OrderedStep(start, before, step);
      }
      TurnKeeps(start, before, seen, step, added, inOrder);
    }

    /** A turn starts from the last processed root if there is one. */
    lemma TurnStarts(a: TurnAnswers, prev: Header, latest: Header)
      requires Valid() && RootNotEmpty() && KnowsRoots(a)
      requires Roots(prover.w.cfg, lookbackDays, a, progress.Get()) == Reply(Some((prev, latest)))
      ensures LastOf(log).Some? ==> blockOf(prev.root) == LastOf(log).value
      ensures Advances(a) ==>
                && blockOf(prev.root) <= blockOf(latest.root)
                && forall i :: 0 <= i < |log| ==> log[i].to <= blockOf(latest.root)
      ensures Advances(a) && LastOf(log).None? ==>
                && (start.from <= start.to ==> start.from <= blockOf(prev.root))
                && forall i :: 0 <= i < |log| ==> log[i].from <= blockOf(prev.root)
      ensures latest.root != ""
    {
      if LastOf(log).Some? {
        LastIsReached(log);
      }
    }

    /** Neither the finalized blocks of the turns nor their look-back blocks move back. */
    ghost predicate Monotone(turns: seq<TurnAnswers>)
      requires Valid()
      reads this, prover, progress
    {
      MonotoneTurns(turns) && forall i :: 0 <= i < |turns| ==> Advances(turns[i])
    }

    ghost predicate MonotoneTurns(turns: seq<TurnAnswers>)
      requires prover.w.cfg.Valid()
      reads prover
    {
      forall i, j :: 0 <= i < j < |turns| ==> Follows(turns[i], turns[j])
    }

    ghost predicate Follows(a: TurnAnswers, next: TurnAnswers)
      requires prover.w.cfg.Valid()
      reads prover
    {
      var lookback := a.headerAt(LookbackSlot(prover.w.cfg, lookbackDays, a.now));
      && (a.finalized.Reply? && a.finalized.value.Some? ==> NotBefore(next, blockOf(a.finalized.value.value.root)))
      && (lookback.Reply? && lookback.value.Some? ==> LookbackFrom(next, blockOf(lookback.value.value.root)))
    }

    /**
      The daemon loop for any number of turns, throwing ones included. As long as no turn meets a
      corrupt finalized state, every block from the first previous root to the last processed root
      has been scanned. With corrupt states it has exactly when each skipped turn is harmless: what it
      moved past had been seen by start-up or earlier turns, up to a last block that is scanned at
      some time. Only a failing balance query, outside the try, ends the loop.
     */
    method Run(turns: seq<TurnAnswers>, hasAccount: bool) returns (done: nat)
      requires Valid() && RootNotEmpty()
      requires forall i :: 0 <= i < |turns| ==> KnowsRoots(turns[i])
      modifies this, prover, progress
      ensures Valid() && RootNotEmpty() && old(scanned) <= scanned && old(log) <= log && done <= |turns|
      ensures done < |turns| <==> hasAccount && exists i :: 0 <= i < |turns| && !turns[i].balanceReplies
      ensures old(Scanned()) && (forall i :: 0 <= i < |turns| ==> !turns[i].cycle.finalized.FinalizedCorrupt?) ==>
              Scanned()
      ensures old(Ordered(start, log) && Monotone(turns)) ==>
                && Ordered(start, log)
                && (Scanned() <==> AllHarmless(start, log, scanned))
    {
      ghost var ordered := Ordered(start, log) && Monotone(turns);
      ghost var clean := Scanned() && forall i :: 0 <= i < |turns| ==> !turns[i].cycle.finalized.FinalizedCorrupt?;
      for i := 0 to |turns|
        invariant Valid() && RootNotEmpty() && old(scanned) <= scanned && old(log) <= log
        invariant hasAccount ==> forall j :: 0 <= j < i ==> turns[j].balanceReplies
        invariant clean ==> Scanned()
        invariant ordered ==> Ordered(start, log) && forall j :: i <= j < |turns| ==> Advances(turns[j])
      {
        if hasAccount && !turns[i].balanceReplies {
          RunGaps();
          return i;
        }
        RunTurn(turns, i, ordered);
      }
      RunGaps();
      return |turns|;
    }

    /** Turn i of a run, after which the remaining ones are still in order. */
    method RunTurn(turns: seq<TurnAnswers>, i: nat, ghost ordered: bool)
      requires Valid() && RootNotEmpty() && i < |turns| && KnowsRoots(turns[i])
      requires ordered ==>
                 Ordered(start, log) && MonotoneTurns(turns) && forall j :: i <= j < |turns| ==> Advances(turns[j])
      modifies this, prover, progress
      ensures Valid() && RootNotEmpty() && old(scanned) <= scanned && old(log) <= log
      ensures old(Scanned()) && !turns[i].cycle.finalized.FinalizedCorrupt? ==> Scanned()
      ensures ordered ==> Ordered(start, log) && forall j :: i < j < |turns| ==> Advances(turns[j])
    {
      var turn := BaseRun(turns[i]);
      if ordered {
        forall j | i < j < |turns| ensures Advances(turns[j]) {
          assert Follows(turns[i], turns[j]);
          StillAdvances(old(log), turns[i], turns[j]);
        }
      }
    }

    lemma {:induction false} StillAdvances(before: seq<Step>, a: TurnAnswers, next: TurnAnswers)
      requires Valid() && LookbackFinalized(next) && forall i :: 0 <= i < |before| ==> NotBefore(next, before[i].to)
      requires LastOf(before).None? ==>
                 && (start.from <= start.to ==> LookbackFrom(next, start.from))
                 && forall i :: 0 <= i < |before| ==> LookbackFrom(next, before[i].from)
      requires log == before || exists s :: log == before + [s] && StepOf(a, s, LastOf(before)) && Follows(a, next)
      ensures Advances(next)
    {
      if s :| log == before + [s] && StepOf(a, s, LastOf(before)) && Follows(a, next) {
        StepEnds(before, s);
      }
    }

    /** A step to the finalized block of these answers, from their look-back block if there is no last one. */
    ghost predicate StepOf(a: TurnAnswers, s: Step, last: Option<int>)
      requires prover.w.cfg.Valid()
      reads prover
    {
      var lookback := a.headerAt(LookbackSlot(prover.w.cfg, lookbackDays, a.now));
      && a.finalized.Reply? && a.finalized.value.Some? && s.to == blockOf(a.finalized.value.value.root)
      && (last.None? ==> lookback.Reply? && lookback.value.Some? && s.from == blockOf(lookback.value.value.root))
    }

    lemma RunGaps()
      requires Valid()
      ensures Ordered(start, log) ==> (Scanned() <==> AllHarmless(start, log, scanned))
    {
      if Ordered(start, log) {
        GapExact(start, log, scanned);
      }
    }
  }

  /** Start-up of the prover, and then a daemon that has processed nothing yet. */
  method StartUp(blockOf: string -> int, lookbackDays: nat, prover: ProverService, head: Answer<int>, c: CycleAnswers)
    returns (daemon: DaemonService)
    requires prover.Valid()
    modifies prover`storage
    ensures fresh(daemon) && daemon.Valid() && daemon.RootNotEmpty() && daemon.progress.Get() == None
    ensures daemon.prover == prover && daemon.blockOf == blockOf && daemon.lookbackDays == lookbackDays
    ensures daemon.log == [] && Ordered(daemon.start, daemon.log)
    ensures head.Fails? || !c.finalized.FinalizedAt? ==> daemon.start.to < daemon.start.from
    ensures head.Reply? ==> daemon.start.from == StartBlock(lookbackDays, head.value)
  {
    var completed, start, _ := prover.InitializeStorage(head, lookbackDays, c);
    daemon := new DaemonService(blockOf, lookbackDays, prover, completed, start);
  }

  // ---------- where start-up begins ----------

  /** Slots grow at least as fast as block numbers. */
  lemma {:induction false} SlotsOutrunBlocks(slotOf: int -> int, m: int, k: nat)
    requires forall m, n :: m < n ==> slotOf(m) < slotOf(n)
    ensures slotOf(m) + k <= slotOf(m + k)
    decreases k
  {
    if k > 0 {
      SlotsOutrunBlocks(slotOf, m, k - 1);
      assert slotOf(m + (k - 1)) < slotOf(m + k);
    }
  }

  lemma LookbackInSlots(c: Config, days: nat, now: int)
    requires c.Valid() && c.secondsPerSlot == 12
    ensures LookbackSlot(c, days, now) == c.TimestampToSlot(now) - days * BLOCKS_PER_DAY
  {
    DivModShift(now - c.genesis, 12, -(days * BLOCKS_PER_DAY));
  }

  /**
    With slots of twelve seconds, start-up begins no later than any later look-back block: missed
    slots only make it reach further back.
   */
  lemma StartUpBeforeLookback(c: Config, days: nat, slotOf: int -> int, head: int, now: int, lookback: int)
    requires c.Valid() && c.secondsPerSlot == 12 && forall m, n :: m < n ==> slotOf(m) < slotOf(n)
    requires slotOf(head) <= c.TimestampToSlot(now) && slotOf(lookback) == LookbackSlot(c, days, now) && lookback >= 1
    ensures StartBlock(days, head) <= lookback
  {
    var k := days * BLOCKS_PER_DAY;
    LookbackInSlots(c, days, now);
    SlotsOutrunBlocks(slotOf, head - k, k);
    assert lookback < head - k ==> slotOf(lookback) < slotOf(head - k);
  }

  // ---------- restarts ----------

  /** The last processed root of the earlier service has no part in where a new one starts. */
  lemma RestartForgets(c: Config, days: nat, a: TurnAnswers, prev: Header, latest: Header)
    requires c.Valid() && Roots(c, days, a, None) == Reply(Some((prev, latest)))
    ensures a.headerAt(LookbackSlot(c, days, a.now)) == Reply(Some(prev))
    ensures forall headerOf :: Roots(c, days, a.(headerOf := headerOf), None) == Reply(Some((prev, latest)))
  {
  }

  /**
    A new service whose start-up completes at the head, over an earlier one without a gap: together
    they leave none exactly when the head is at most a look-back window of blocks and one more past
    the highest block scanned before.
   */
  lemma {:induction false} RestartExact(days: nat, head: int, start: Range, log: seq<Step>, scanned: seq<Range>,
                                        newLog: seq<Step>, added: seq<Range>)
    requires Accounts(start, log, scanned) && Ordered(start, log) && NoGap(log, scanned) && FirstOf(log).Some?
    requires var newStart := Range(StartBlock(days, head), head);
             && newStart.from <= newStart.to
             && Accounts(newStart, newLog, added) && Ordered(newStart, newLog) && NoGap(newLog, added)
    requires FirstOf(newLog).Some? && FirstOf(newLog).value <= head + 1
    requires LastOf(newLog).Some? && Highest(start, log) < LastOf(newLog).value
    ensures Gapless(FirstOf(log).value, LastOf(newLog).value, scanned + added) <==>
            Highest(start, log) >= 0 && head - Highest(start, log) <= days * BLOCKS_PER_DAY + 1
  {
    StartUpScansFrom(Range(StartBlock(days, head), head), newLog, added);
    UnionFromExact(start, log, scanned, newLog, added, StartBlock(days, head));
  }

  /**
    When start-up scans nothing and no turn scans before the first that commits, the first block not
    scanned before has to be younger than the look-back window and one slot.
   */
  lemma {:induction false} RestartWithoutStartUp(c: Config, days: nat, a: TurnAnswers, blockOf: string -> int,
                                                 slotOf: int -> int,
                                                 prev: Header, latest: Header, start: Range, log: seq<Step>,
                                                 scanned: seq<Range>,
                                                 newStart: Range, newLog: seq<Step>, added: seq<Range>)
    requires c.Valid() && Roots(c, days, a, None) == Reply(Some((prev, latest)))
    requires slotOf(blockOf(prev.root)) == LookbackSlot(c, days, a.now)
    requires forall m, n :: m < n ==> slotOf(m) < slotOf(n)
    requires Accounts(start, log, scanned) && Ordered(start, log) && NoGap(log, scanned) && FirstOf(log).Some?
    requires Accounts(newStart, newLog, added) && Ordered(newStart, newLog) && NoGap(newLog, added)
    requires newStart.to < newStart.from && FirstOf(newLog) == Some(blockOf(prev.root))
    requires forall j :: 0 <= j < |newLog| && LastOf(newLog[..j]).None? && newLog[j].turn.Threw? ==>
               newLog[j].reached < newLog[j].from
    requires LastOf(newLog).Some? && Highest(start, log) < LastOf(newLog).value
    ensures Gapless(FirstOf(log).value, LastOf(newLog).value, scanned + added) <==>
            a.now - c.SlotToTimestamp(slotOf(Highest(start, log) + 1)) < days * SECONDS_PER_DAY + c.secondsPerSlot
  {
    TurnsScanFrom(newStart, newLog, added);
    UnionFromExact(start, log, scanned, newLog, added, blockOf(prev.root));
    LookbackBlockBy(c, days, a.now, slotOf, blockOf(prev.root), Highest(start, log) + 1);
  }

  /** The look-back block is no later than a block exactly when that one is younger than the window and one slot. */
  lemma LookbackBlockBy(c: Config, days: nat, now: int, slotOf: int -> int, lookback: int, block: int)
    requires c.Valid() && slotOf(lookback) == LookbackSlot(c, days, now)
    requires forall m, n :: m < n ==> slotOf(m) < slotOf(n)
    ensures lookback <= block <==> now - c.SlotToTimestamp(slotOf(block)) < days * SECONDS_PER_DAY + c.secondsPerSlot
  {
    assert lookback <= block <==> slotOf(lookback) <= slotOf(block);
    LookbackReaches(c, now, days * SECONDS_PER_DAY, slotOf(block));
  }

  // ---------- two restarts in numbers ----------

  /** A turn seven days and 9600 slots after genesis. */
  function RestartTurn(cycle: CycleAnswers): TurnAnswers {
    TurnAnswers(true, 720000, root => Fails, slot => if slot == 9600 then Reply(Some(Header("then", 9600))) else Fails,
                Reply(Some(Header("now", 59900))), true, cycle)
  }

  lemma RestartRoots(c: Config, cycle: CycleAnswers)
    requires c == Config(0, 12, 32, 8192, 0, 0)
    ensures LookbackSlot(c, 7, 720000) == 9600
    ensures Roots(c, 7, RestartTurn(cycle), None) == Reply(Some((Header("then", 9600), Header("now", 59900))))
  {
    assert LookbackSlot(c, 7, 720000) == 9600;
  }

  /** One completed turn after start-up, over one completed turn of an earlier service whose start-up had failed. */
  lemma RestartedUnion(last: int, head: int, from: int, scanned: seq<Range>, added: seq<Range>)
    requires scanned == [Range(0, last)] && 0 <= last < 59900 <= head && StartBlock(7, head) <= from <= 59900
    requires added == [Range(StartBlock(7, head), head), Range(from, 59900)]
    ensures Gapless(0, 59900, scanned + added) <==> head - last <= 50401
  {
    var none, newStart := Range(0, -1), Range(StartBlock(7, head), head);
    var done, next := Step(Committed, 0, last, last), Step(Committed, from, 59900, 59900);
    assert forall b :: Covered(scanned, b) <==> Scans(done, b) by {
      assert scanned[0] == Range(0, last);
    }
    assert forall b :: Covered(added, b) <==> Holds(newStart, b) || Scans(next, b) by {
      assert added[0] == newStart && added[1] == Range(from, 59900);
    }
    OneTurnLog(done, none, scanned);
    OneTurnLog(next, newStart, added);
    OneTurnHighest(done, none, scanned);
    RestartExact(7, head, none, [done], scanned, [next], added);
  }

  lemma OneTurnHighest(s: Step, start: Range, scanned: seq<Range>)
    requires s.turn.Committed? && StepOk(s) && start.to < start.from && FirstOf([s]) == Some(s.from)
    ensures Highest(start, [s]) == s.to
  {
    var spans, turn := Spans(start, [s]), [Range(s.from, s.to)];
    assert [s][0] == s && spans[0] == start;
    assert spans[1..] == turn && turn[1..] == [];
    assert Chain(s.from - 1, spans) == Chain(s.from - 1, turn) == Chain(s.to, turn[1..]);
  }

  /** More than eight days after block 1000, the last one scanned before: start-up and turn miss blocks. */
  lemma RestartLeavesGap(c: Config, cycle: CycleAnswers)
    requires c == Config(0, 12, 32, 8192, 0, 0)
    ensures Roots(c, 7, RestartTurn(cycle), None) == Reply(Some((Header("then", 9600), Header("now", 59900))))
    ensures StartBlock(7, 60000) == 9600
    ensures !Gapless(0, 59900, [Range(0, 1000)] + [Range(9600, 60000), Range(9600, 59900)])
  {
    RestartRoots(c, cycle);
    RestartedUnion(1000, 60000, 9600, [Range(0, 1000)], [Range(9600, 60000), Range(9600, 59900)]);
  }

  /**
    With one missed slot on the way, blocks are one behind slots and start-up begins a block before
    the look-back slot's. It alone scans block 9599, which is older than the window and one slot.
   */
  lemma StartUpSavesBlock(c: Config, cycle: CycleAnswers, slotOf: int -> int)
    requires c == Config(0, 12, 32, 8192, 0, 0)
    requires forall m :: slotOf(m) == if m <= 30000 then m else m + 1
    ensures Roots(c, 7, RestartTurn(cycle), None) == Reply(Some((Header("then", 9600), Header("now", 59900))))
    ensures slotOf(9600) == 9600 && slotOf(59999) == c.TimestampToSlot(720000) && StartBlock(7, 59999) == 9599
    ensures 720000 - c.SlotToTimestamp(slotOf(9599)) >= 7 * SECONDS_PER_DAY + c.secondsPerSlot
    ensures Gapless(0, 59900, [Range(0, 9598)] + [Range(9599, 59999), Range(9600, 59900)])
  {
    RestartRoots(c, cycle);
    RestartedUnion(9598, 59999, 9600, [Range(0, 9598)], [Range(9599, 59999), Range(9600, 59900)]);
  }
}
