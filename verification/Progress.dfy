/** The daemon's turns as a log: what any run scans, and what it leaves unscanned. */
module Progress {
  import opened Wrappers
  import opened Arithmetic
  import opened Batches

  datatype Turn = Idle | Committed | Skipped | Threw

  /**
    A turn that reached the prover: how it ended, the blocks that it was to scan, and the last block
    that it did scan; that is before `from` if it scanned none.
   */
  datatype Step = Step(turn: Turn, from: int, to: int, reached: int)

  ghost predicate StepOk(s: Step) {
    && !s.turn.Idle? && s.from <= s.to && s.reached <= s.to
    && (s.turn.Committed? ==> s.reached == s.to) && (s.turn.Skipped? ==> s.reached < s.from)
  }

  /** The block that the first commit started from; skipped turns commit too. */
  function FirstOf(log: seq<Step>): Option<int> {
    if log == [] then None
    else
      var last, f := log[|log| - 1], FirstOf(log[..|log| - 1]);
      if f.Some? then f else if last.turn.Threw? then None else Some(last.from)
  }

  /** The block of the last processed root. */
  function LastOf(log: seq<Step>): Option<int> {
    if log == [] then None
    else
      var last := log[|log| - 1];
      if last.turn.Threw? then LastOf(log[..|log| - 1]) else Some(last.to)
  }

  /** Every block from first to last has been scanned. */
  ghost predicate Gapless(first: int, last: int, scanned: seq<Range>) {
    forall b :: first <= b <= last ==> Covered(scanned, b)
  }

  ghost predicate Scans(s: Step, b: int) {
    s.from <= b <= s.reached
  }

  ghost predicate Holds(r: Range, b: int) {
    r.from <= b <= r.to
  }

  /** Exactly the blocks of the start-up scan and those that the turns reached were scanned. */
  ghost predicate Accounts(start: Range, log: seq<Step>, scanned: seq<Range>) {
    forall b :: Covered(scanned, b) <==> Holds(start, b) || exists j :: 0 <= j < |log| && Scans(log[j], b)
  }

  /**
    Finality does not move back; each turn starts from the last processed root if there is one; until
    then the look-back block does not move back, and start-up began no later.
   */
  ghost predicate Ordered(start: Range, log: seq<Step>) {
    forall j :: 0 <= j < |log| ==> OrderedAt(start, log, j)
  }

  ghost predicate OrderedAt(start: Range, log: seq<Step>, j: nat)
    requires j < |log|
  {
    && StepOk(log[j]) && (start.from <= start.to ==> start.from <= log[j].from)
    && (LastOf(log[..j]).Some? ==> log[j].from == LastOf(log[..j]).value)
    && (forall i :: 0 <= i < j ==> log[i].from <= log[j].from && log[i].to <= log[j].to)
  }

  // ---------- one more turn ----------

  lemma CoveredAppend(a: seq<Range>, b: seq<Range>, block: int)
    ensures Covered(a + b, block) <==> Covered(a, block) || Covered(b, block)
  {
    if i :| 0 <= i < |a| && a[i].from <= block <= a[i].to {
      assert (a + b)[i] == a[i];
    }
    if i :| 0 <= i < |b| && b[i].from <= block <= b[i].to {
      assert (a + b)[|a| + i] == b[i];
    }
    if i :| 0 <= i < |a + b| && (a + b)[i].from <= block <= (a + b)[i].to {
      assert i >= |a| ==> (a + b)[i] == b[i - |a|];
    }
  }

  lemma AccountsStep(start: Range, log: seq<Step>, scanned: seq<Range>, s: Step, added: seq<Range>)
    requires Accounts(start, log, scanned) && forall b :: Covered(added, b) <==> Scans(s, b)
    ensures Accounts(start, log + [s], scanned + added)
  {
    var longer := log + [s];
    forall b
      ensures Covered(scanned + added, b) <==>
              Holds(start, b) || exists j :: 0 <= j < |longer| && Scans(longer[j], b)
    {
      CoveredAppend(scanned, added, b);
      if j :| 0 <= j < |log| && Scans(log[j], b) {
        assert Scans(longer[j], b);
      }
      assert longer[|log|] == s;
    }
  }

  /** A turn from the last processed root, or from a look-back block that did not move back, keeps the order. */
  lemma {:induction false} OrderedStep(start: Range, log: seq<Step>, s: Step)
    requires Ordered(start, log) && StepOk(s) && forall i :: 0 <= i < |log| ==> log[i].to <= s.to
    requires LastOf(log).Some? ==> s.from == LastOf(log).value
    requires LastOf(log).None? ==>
               && (start.from <= start.to ==> start.from <= s.from)
               && forall i :: 0 <= i < |log| ==> log[i].from <= s.from
    ensures Ordered(start, log + [s])
  {
    var longer := log + [s];
    if LastOf(log).Some? {
      StartsBelowLast(start, log);
    }
    forall j | 0 <= j < |longer| ensures OrderedAt(start, longer, j) {
      assert longer[..j] == log[..j];
      assert j < |log| ==> OrderedAt(start, log, j);
      assert log[..|log|] == log;
    }
  }

  lemma {:induction false} StartsBelowLast(start: Range, log: seq<Step>)
    requires Ordered(start, log) && LastOf(log).Some?
    ensures start.from <= start.to ==> start.from <= LastOf(log).value
    ensures forall i :: 0 <= i < |log| ==> log[i].from <= LastOf(log).value
  {
    var n := |log| - 1;
    assert OrderedAt(start, log, n);
    if log[n].turn.Threw? {
      OrderedPrefix(start, log, n);
      StartsBelowLast(start, log[..n]);
      forall i | 0 <= i < n ensures log[i].from <= LastOf(log).value {
        assert log[..n][i] == log[i];
      }
    }
  }

  lemma {:induction false} StepEnds(log: seq<Step>, s: Step)
    ensures LastOf(log + [s]) == if s.turn.Threw? then LastOf(log) else Some(s.to)
    ensures FirstOf(log + [s]) ==
            if FirstOf(log).Some? then FirstOf(log) else if s.turn.Threw? then None else Some(s.from)
  {
    assert (log + [s])[..|log|] == log;
  }

  lemma OneTurnLog(s: Step, start: Range, scanned: seq<Range>)
    requires s.turn.Committed? && StepOk(s) && (start.from <= start.to ==> start.from <= s.from)
    requires forall b :: Covered(scanned, b) <==> Holds(start, b) || Scans(s, b)
    ensures Accounts(start, [s], scanned) && Ordered(start, [s]) && NoGap([s], scanned)
    ensures FirstOf([s]) == Some(s.from) && LastOf([s]) == Some(s.to)
  {
    assert [] + [s] == [s] && [s][..0] == [];
    StepEnds([], s);
    forall b ensures Scans(s, b) <==> exists j :: 0 <= j < |[s]| && Scans([s][j], b) {
      assert [s][0] == s;
    }
    OrderedStep(start, [], s);
  }

  // ---------- where a run's blocks lie ----------

  lemma OrderedPrefix(start: Range, log: seq<Step>, n: nat)
    requires Ordered(start, log) && n <= |log|
    ensures Ordered(start, log[..n])
  {
    forall j | 0 <= j < n ensures OrderedAt(start, log[..n], j) {
      assert log[..n][..j] == log[..j];
      assert OrderedAt(start, log, j);
    }
  }

  /** A turn that committed ends no later than the last processed root and starts no earlier than the first. */
  lemma {:induction false} WithinEnds(start: Range, log: seq<Step>, k: nat)
    requires Ordered(start, log) && k < |log| && !log[k].turn.Threw?
    ensures FirstOf(log).Some? && LastOf(log).Some?
    ensures FirstOf(log).value <= log[k].from && log[k].to <= LastOf(log).value
  {
    var n := |log| - 1;
    OrderedPrefix(start, log, n);
    assert OrderedAt(start, log, n);
    if k < n {
      WithinEnds(start, log[..n], k);
    } else {
      EndsTogether(start, log[..n]);
    }
  }

  lemma {:induction false} EndsTogether(start: Range, log: seq<Step>)
    ensures FirstOf(log).Some? <==> LastOf(log).Some?
    ensures Ordered(start, log) && FirstOf(log).Some? ==> FirstOf(log).value <= LastOf(log).value
  {
    if log != [] {
      var n := |log| - 1;
      EndsTogether(start, log[..n]);
      if Ordered(start, log) {
        OrderedPrefix(start, log, n);
        assert OrderedAt(start, log, n);
      }
    }
  }

  /** A scanned block after the last processed one is start-up's, or a turn's that threw with none completed since. */
  lemma {:induction false} AboveLast(start: Range, log: seq<Step>, scanned: seq<Range>, b: int)
    requires Accounts(start, log, scanned) && Ordered(start, log) && Covered(scanned, b)
    requires LastOf(log).Some? ==> LastOf(log).value < b
    ensures || Holds(start, b)
            || exists j :: 0 <= j < |log| && log[j].turn.Threw? && Scans(log[j], b)
                           && forall k :: j < k < |log| ==> !log[k].turn.Committed?
  {
    if !Holds(start, b) {
      var j :| 0 <= j < |log| && Scans(log[j], b);
      assert OrderedAt(start, log, j);
      if !log[j].turn.Threw? {
        WithinEnds(start, log, j);
      }
      forall k | j < k < |log| ensures !log[k].turn.Committed? {
        assert OrderedAt(start, log, k);
        if log[k].turn.Committed? {
          WithinEnds(start, log, k);
        }
      }
    }
  }

  /** The first block that a turn moves past: the last processed one is behind it already. */
  function Low(log: seq<Step>, i: nat): int
    requires i < |log|
  {
    if LastOf(log[..i]).Some? then log[i].from + 1 else log[i].from
  }

  lemma {:induction false} PassedBy(start: Range, log: seq<Step>, b: int) returns (i: nat)
    requires Ordered(start, log) && FirstOf(log).Some? && LastOf(log).Some?
    requires FirstOf(log).value <= b <= LastOf(log).value
    ensures i < |log| && !log[i].turn.Threw? && Low(log, i) <= b <= log[i].to
  {
    var n := |log| - 1;
    OrderedPrefix(start, log, n);
    EndsTogether(start, log[..n]);
    assert OrderedAt(start, log, n);
    if LastOf(log[..n]).Some? && b <= LastOf(log[..n]).value {
      i := PassedBy(start, log[..n], b);
      assert log[..n][..i] == log[..i];
    } else {
      i := n;
    }
  }

  /** The scanned blocks leave no gap between the first previous root and the last processed one. */
  ghost predicate NoGap(log: seq<Step>, scanned: seq<Range>) {
    FirstOf(log).Some? && LastOf(log).Some? ==> Gapless(FirstOf(log).value, LastOf(log).value, scanned)
  }

  /** A turn that does not skip leaves no new gap when it starts from the last processed root. */
  lemma {:induction false} NoGapStep(log: seq<Step>, scanned: seq<Range>, s: Step, added: seq<Range>)
    requires NoGap(log, scanned) && !s.turn.Skipped? && !s.turn.Idle?
    requires LastOf(log).Some? ==> s.from <= LastOf(log).value + 1
    requires s.turn.Committed? ==> forall b :: s.from <= b <= s.to ==> Covered(added, b)
    ensures NoGap(log + [s], scanned + added)
  {
    StepEnds(log, s);
    EndsTogether(Range(0, -1), log);
    var longer := log + [s];
    if FirstOf(longer).Some? && LastOf(longer).Some? {
      forall b | FirstOf(longer).value <= b <= LastOf(longer).value ensures Covered(scanned + added, b) {
        CoveredAppend(scanned, added, b);
      }
    }
  }

  // ---------- what skipped turns lose ----------

  /** Start-up or one of the first n turns scanned as far as block b. */
  ghost predicate Seen(start: Range, log: seq<Step>, n: nat, b: int)
    requires n <= |log|
  {
    (start.from <= start.to && b <= start.to) || exists j :: 0 <= j < n && SeenBy(log[j], b)
  }

  ghost predicate SeenBy(s: Step, b: int) {
    s.from <= s.reached && b <= s.reached
  }

  /** What was scanned as far as a block, by the time a turn starts before it, holds the block. */
  lemma SeenIsCovered(start: Range, log: seq<Step>, scanned: seq<Range>, i: nat, b: int)
    requires Accounts(start, log, scanned) && Ordered(start, log) && i < |log|
    requires log[i].from <= b && Seen(start, log, i, b)
    ensures Covered(scanned, b)
  {
    assert OrderedAt(start, log, i);
    if !Holds(start, b) {
      var j :| 0 <= j < i && SeenBy(log[j], b);
      assert Scans(log[j], b);
    }
  }

  /** A block moved past by a skipped turn and not seen before is scanned only if a later turn starts there. */
  lemma SkippedBlocksLost(start: Range, log: seq<Step>, scanned: seq<Range>, i: nat, b: int)
    requires Accounts(start, log, scanned) && Ordered(start, log)
    requires i < |log| && log[i].turn.Skipped? && Low(log, i) <= b <= log[i].to && !Seen(start, log, i, b)
    requires Covered(scanned, b)
    ensures b == log[i].to && exists j :: i < j < |log| && !log[j].turn.Skipped? && log[j].from == b
  {
    assert !Holds(start, b);
    var j :| 0 <= j < |log| && Scans(log[j], b);
    assert OrderedAt(start, log, i) && OrderedAt(start, log, j);
    assert j < i ==> SeenBy(log[j], b);
    OrderedPrefix(start, log, j);
    assert log[..j][i] == log[i];
    WithinEnds(start, log[..j], i);
  }

  /**
    The skipped turn moved past no block, or all that it moved past had been seen, or all but the
    last one, which is scanned at some time.
   */
  ghost predicate Harmless(start: Range, log: seq<Step>, scanned: seq<Range>, i: nat)
    requires i < |log|
  {
    || Low(log, i) > log[i].to
    || Seen(start, log, i, log[i].to)
    || ((Low(log, i) == log[i].to || Seen(start, log, i, log[i].to - 1)) && Covered(scanned, log[i].to))
  }

  ghost predicate AllHarmless(start: Range, log: seq<Step>, scanned: seq<Range>) {
    forall i :: 0 <= i < |log| && log[i].turn.Skipped? ==> Harmless(start, log, scanned, i)
  }

  /**
    Over any run, whatever throws: every block from the first previous root to the last processed one
    is scanned exactly when each skipped turn is harmless.
   */
  lemma GapExact(start: Range, log: seq<Step>, scanned: seq<Range>)
    requires Accounts(start, log, scanned) && Ordered(start, log)
    ensures NoGap(log, scanned) <==> AllHarmless(start, log, scanned)
  {
    if NoGap(log, scanned) {
      forall i | 0 <= i < |log| && log[i].turn.Skipped? ensures Harmless(start, log, scanned, i) {
        GaplessMeansHarmless(start, log, scanned, i);
      }
    }
    if AllHarmless(start, log, scanned) {
      HarmlessMeansGapless(start, log, scanned);
    }
  }

  lemma GaplessMeansHarmless(start: Range, log: seq<Step>, scanned: seq<Range>, i: nat)
    requires Accounts(start, log, scanned) && Ordered(start, log) && NoGap(log, scanned)
    requires i < |log| && log[i].turn.Skipped?
    ensures Harmless(start, log, scanned, i)
  {
    WithinEnds(start, log, i);
    assert OrderedAt(start, log, i);
    var last := log[i].to - 1;
    if Low(log, i) <= last && !Seen(start, log, i, last) {
      SkippedBlocksLost(start, log, scanned, i, last);
    }
  }

  lemma HarmlessMeansGapless(start: Range, log: seq<Step>, scanned: seq<Range>)
    requires Accounts(start, log, scanned) && Ordered(start, log) && AllHarmless(start, log, scanned)
    ensures NoGap(log, scanned)
  {
    forall b | FirstOf(log).Some? && LastOf(log).Some? && FirstOf(log).value <= b <= LastOf(log).value
      ensures Covered(scanned, b)
    {
      var i := PassedBy(start, log, b);
      assert OrderedAt(start, log, i);
      if log[i].turn.Skipped? {
        assert Harmless(start, log, scanned, i);
        if b < log[i].to || Seen(start, log, i, log[i].to) {
          SeenBelow(start, log, i, if Seen(start, log, i, log[i].to) then log[i].to else log[i].to - 1, b);
          SeenIsCovered(start, log, scanned, i, b);
        }
      } else {
        assert Scans(log[i], b);
      }
    }
  }

  lemma SeenBelow(start: Range, log: seq<Step>, n: nat, far: int, b: int)
    requires n <= |log| && Seen(start, log, n, far) && b <= far
    ensures Seen(start, log, n, b)
  {
    if !(start.from <= start.to && b <= start.to) {
      var j :| 0 <= j < n && SeenBy(log[j], far);
      assert SeenBy(log[j], b);
    }
  }

  /** A skipped turn leaves a gap exactly when it moves on to a block that nothing has been scanned as far as. */
  lemma {:induction false} SkippedTurnExact(start: Range, log: seq<Step>, scanned: seq<Range>, s: Step)
    requires Accounts(start, log, scanned) && Ordered(start, log + [s]) && NoGap(log, scanned) && s.turn.Skipped?
    ensures NoGap(log + [s], scanned) <==> LastOf(log) == Some(s.to) || Seen(start, log, |log|, s.to)
  {
    var longer, n := log + [s], |log|;
    StepEnds(log, s);
    EndsTogether(start, log);
    assert longer[..n] == log && longer[n] == s;
    assert OrderedAt(start, longer, n);
    OrderedPrefix(start, longer, n);
    if Covered(scanned, s.to) && !Holds(start, s.to) {
      var j :| 0 <= j < n && Scans(log[j], s.to);
      assert SeenBy(log[j], s.to);
    }
    if Seen(start, log, n, s.to) {
      SeenCoversStep(start, log, scanned, s);
    }
    if LastOf(log).Some? && LastOf(log).value != s.to {
      LastIsReached(log);
    }
  }

  lemma SeenCoversStep(start: Range, log: seq<Step>, scanned: seq<Range>, s: Step)
    requires Accounts(start, log, scanned) && OrderedAt(start, log + [s], |log|) && Seen(start, log, |log|, s.to)
    ensures Gapless(s.from, s.to, scanned)
  {
    forall b | s.from <= b <= s.to ensures Covered(scanned, b) {
      if !Holds(start, b) {
        var j :| 0 <= j < |log| && SeenBy(log[j], s.to);
        assert (log + [s])[j] == log[j];
        assert Scans(log[j], b);
      }
    }
  }

  /**
    What a turn does to the log and the scanned blocks of a service that starts it from its last
    processed root: no new gap unless it skips, and then the exact condition.
   */
  lemma {:induction false} TurnKeeps(start: Range, log: seq<Step>, scanned: seq<Range>, s: Step, added: seq<Range>,
                                     inOrder: bool)
    requires Accounts(start, log, scanned) && !s.turn.Idle? && (LastOf(log).Some? ==> s.from == LastOf(log).value)
    requires s.turn.Committed? ==> forall b :: s.from <= b <= s.to ==> Covered(added, b)
    requires s.turn.Skipped? ==> added == []
    requires inOrder ==> Ordered(start, log + [s])
    ensures NoGap(log, scanned) && !s.turn.Skipped? ==> NoGap(log + [s], scanned + added)
    ensures inOrder && NoGap(log, scanned) && s.turn.Skipped? ==>
              (NoGap(log + [s], scanned + added) <==> LastOf(log) == Some(s.to) || Seen(start, log, |log|, s.to))
  {
    if NoGap(log, scanned) && !s.turn.Skipped? {
      NoGapStep(log, scanned, s, added);
    }
    if inOrder && NoGap(log, scanned) && s.turn.Skipped? {
      SkippedTurnExact(start, log, scanned, s);
      assert scanned + [] == scanned;
    }
  }

  lemma {:induction false} LastIsReached(log: seq<Step>)
    requires LastOf(log).Some?
    ensures exists i :: 0 <= i < |log| && log[i].to == LastOf(log).value
  {
    var n := |log| - 1;
    if log[n].turn.Threw? {
      LastIsReached(log[..n]);
      var i :| 0 <= i < n && log[..n][i].to == LastOf(log[..n]).value;
      assert log[i].to == LastOf(log).value;
    }
  }

  /** After a failed start-up: a skipped turn from block 100 to 200, whose blocks in between no later turn scans. */
  lemma SkippedTurnLosesBlocks(later: seq<Range>)
    ensures var log := [Step(Committed, 0, 100, 100), Step(Skipped, 100, 200, 99)];
            && Ordered(Range(0, -1), log) && Accounts(Range(0, -1), log, [Range(0, 100)])
            && !Gapless(0, 200, [Range(0, 100)])
            && var longer := log + [Step(Committed, 200, 300, 300)];
               Accounts(Range(0, -1), longer, later) ==> !Covered(later, 150)
  {
    var none, done := Range(0, -1), Step(Committed, 0, 100, 100);
    var skipped, next := Step(Skipped, 100, 200, 99), Step(Committed, 200, 300, 300);
    var scanned := [Range(0, 100)];
    assert forall b :: Covered(scanned, b) <==> Scans(done, b) by {
      assert scanned[0] == Range(0, 100);
    }
    OneTurnLog(done, none, scanned);
    assert [done] + [skipped] == [done, skipped] && scanned + [] == scanned;
    AccountsStep(none, [done], scanned, skipped, []);
    OrderedStep(none, [done], skipped);
    assert !Covered(scanned, 150);
    assert forall j :: 0 <= j < 3 ==> !Scans(([done, skipped] + [next])[j], 150);
  }

  // ---------- the ends of ranges ----------

  /** The last block of one completed turn is scanned again as the first block of the next one. */
  lemma BoundaryScannedTwice(start: Range, log: seq<Step>, i: nat, j: nat)
    requires Ordered(start, log) && i < j < |log| && log[i].turn.Committed? && log[j].turn.Committed?
    requires forall k :: i < k < j ==> log[k].turn.Threw?
    ensures Scans(log[i], log[i].to) && Scans(log[j], log[i].to) && log[j].from == log[i].to
  {
    assert OrderedAt(start, log, i) && OrderedAt(start, log, j);
    LastAfterThrows(log, i, j);
  }

  lemma {:induction false} LastAfterThrows(log: seq<Step>, i: nat, j: nat)
    requires i < j <= |log| && !log[i].turn.Threw? && forall k :: i < k < j ==> log[k].turn.Threw?
    ensures LastOf(log[..j]) == Some(log[i].to)
  {
    assert log[..j][..j - 1] == log[..j - 1];
    if i < j - 1 {
      LastAfterThrows(log, i, j - 1);
    }
  }

  // ---------- restarts ----------

  /** What start-up and the turns scanned, one range each. */
  function Spans(start: Range, log: seq<Step>): seq<Range> {
    [start] + seq(|log|, j requires 0 <= j < |log| => Range(log[j].from, log[j].reached))
  }

  /** No range starts before an earlier one. */
  ghost predicate Ascending(spans: seq<Range>) {
    forall i, j :: 0 <= i < j < |spans| && spans[i].from <= spans[i].to && spans[j].from <= spans[j].to ==>
      spans[i].from <= spans[j].from
  }

  /** How far blocks up to k and the ranges reach without a gap: a range counts if it starts by the next block. */
  function Chain(k: int, spans: seq<Range>): (reach: int)
    ensures reach >= k
    decreases |spans|
  {
    if spans == [] then k
    else Chain(if spans[0].from <= k + 1 then Max(k, spans[0].to) else k, spans[1..])
  }

  lemma {:induction false} ChainCovers(k: int, spans: seq<Range>, b: int)
    requires k < b <= Chain(k, spans)
    ensures exists i :: 0 <= i < |spans| && Holds(spans[i], b)
    decreases |spans|
  {
    if !Holds(spans[0], b) {
      var next := if spans[0].from <= k + 1 then Max(k, spans[0].to) else k;
      ChainCovers(next, spans[1..], b);
      var i :| 0 <= i < |spans[1..]| && Holds(spans[1..][i], b);
      assert Holds(spans[i + 1], b);
    }
  }

  lemma {:induction false} ChainStuck(k: int, spans: seq<Range>)
    requires forall i :: 0 <= i < |spans| && spans[i].from <= spans[i].to ==> k + 1 < spans[i].from
    ensures Chain(k, spans) == k
    decreases |spans|
  {
    if spans != [] {
      ChainStuck(k, spans[1..]);
    }
  }

  /** Just after the reach of ascending ranges no range holds the block. */
  lemma {:induction false} ChainEnds(k: int, spans: seq<Range>, i: nat)
    requires Ascending(spans) && i < |spans|
    ensures !Holds(spans[i], Chain(k, spans) + 1)
    decreases |spans|
  {
    var rest := spans[1..];
    assert Ascending(rest) by {
      assert forall j :: 0 <= j < |rest| ==> rest[j] == spans[j + 1];
    }
    if spans[0].from <= k + 1 || spans[0].from > spans[0].to {
      if i > 0 {
        ChainEnds(if spans[0].from <= k + 1 then Max(k, spans[0].to) else k, rest, i - 1);
      }
    } else {
      ChainStuck(k, rest);
    }
  }

  /**
    Blocks scanned without a gap up to k, and nothing after, together with ascending ranges: they
    leave no gap up to a block exactly when the ranges chain that far.
   */
  lemma {:induction false} ChainExact(first: int, k: int, before: seq<Range>, spans: seq<Range>, after: seq<Range>,
                                      to: int)
    requires first <= k + 1 && Ascending(spans)
    requires forall b :: first <= b ==> (Covered(before, b) <==> b <= k)
    requires forall b :: Covered(after, b) <==> exists i :: 0 <= i < |spans| && Holds(spans[i], b)
    ensures Gapless(first, to, before + after) <==> to <= Chain(k, spans)
  {
    var reach := Chain(k, spans);
    if to <= reach {
      forall b | first <= b <= to ensures Covered(before + after, b) {
        CoveredAppend(before, after, b);
        if b > k {
          ChainCovers(k, spans, b);
        }
      }
    } else {
      CoveredAppend(before, after, reach + 1);
      if i :| 0 <= i < |spans| && Holds(spans[i], reach + 1) {
        ChainEnds(k, spans, i);
      }
      assert !Covered(before + after, reach + 1);
    }
  }

  lemma SpansFacts(start: Range, log: seq<Step>, scanned: seq<Range>)
    requires Accounts(start, log, scanned) && Ordered(start, log)
    ensures Ascending(Spans(start, log))
    ensures forall b :: Covered(scanned, b) <==>
              exists i :: 0 <= i < |Spans(start, log)| && Holds(Spans(start, log)[i], b)
  {
    var spans := Spans(start, log);
    forall i, j | 0 <= i < j < |spans| && spans[i].from <= spans[i].to && spans[j].from <= spans[j].to
      ensures spans[i].from <= spans[j].from
    {
      assert OrderedAt(start, log, j - 1);
    }
    forall b ensures Covered(scanned, b) <==> exists i :: 0 <= i < |spans| && Holds(spans[i], b) {
      if j :| 0 <= j < |log| && Scans(log[j], b) {
        assert Holds(spans[j + 1], b);
      }
      if Holds(start, b) {
        assert Holds(spans[0], b);
      }
      if i :| 0 <= i < |spans| && Holds(spans[i], b) {
        assert i > 0 ==> Scans(log[i - 1], b);
      }
    }
  }

  /** The highest block that a service without a gap has scanned. */
  function Highest(start: Range, log: seq<Step>): int
    requires FirstOf(log).Some?
  {
    Chain(FirstOf(log).value - 1, Spans(start, log))
  }

  lemma {:induction false} ScannedToHighest(start: Range, log: seq<Step>, scanned: seq<Range>, to: int)
    requires Accounts(start, log, scanned) && Ordered(start, log) && FirstOf(log).Some?
    ensures Gapless(FirstOf(log).value, to, scanned) <==> to <= Highest(start, log)
  {
    SpansFacts(start, log, scanned);
    assert [] + scanned == scanned;
    ChainExact(FirstOf(log).value, FirstOf(log).value - 1, [], Spans(start, log), scanned, to);
  }

  lemma {:induction false} NothingAboveHighest(start: Range, log: seq<Step>, scanned: seq<Range>, b: int)
    requires Accounts(start, log, scanned) && Ordered(start, log) && FirstOf(log).Some? && LastOf(log).Some?
    requires LastOf(log).value <= Highest(start, log) < b
    ensures !Covered(scanned, b)
  {
    if Covered(scanned, b) {
      var spans := Spans(start, log);
      SpansFacts(start, log, scanned);
      StartsBelowLast(start, log);
      var i :| 0 <= i < |spans| && Holds(spans[i], b);
      assert i > 0 ==> spans[i].from == log[i - 1].from;
      ChainEnds(FirstOf(log).value - 1, spans, i);
      assert false;
    }
  }

  /** From its first previous root on, a service without a gap has scanned exactly up to its highest block. */
  lemma {:induction false} HighestExact(start: Range, log: seq<Step>, scanned: seq<Range>)
    requires Accounts(start, log, scanned) && Ordered(start, log) && NoGap(log, scanned) && FirstOf(log).Some?
    ensures LastOf(log).Some? && FirstOf(log).value <= LastOf(log).value <= Highest(start, log)
    ensures forall b :: FirstOf(log).value <= b ==> (Covered(scanned, b) <==> b <= Highest(start, log))
  {
    EndsTogether(start, log);
    ScannedToHighest(start, log, scanned, LastOf(log).value);
    ScannedToHighest(start, log, scanned, Highest(start, log));
    forall b | Highest(start, log) < b ensures !Covered(scanned, b) {
      NothingAboveHighest(start, log, scanned, b);
    }
  }

  /**
    An earlier service without a gap, and a new one, whatever start-up and throwing turns have
    scanned: together they leave no gap up to a block exactly when the new scans, in their order,
    chain on from the highest block scanned before as far as that block.
   */
  lemma {:induction false} UnionExact(start: Range, log: seq<Step>, scanned: seq<Range>,
                                      newStart: Range, newLog: seq<Step>, added: seq<Range>, to: int)
    requires Accounts(start, log, scanned) && Ordered(start, log) && NoGap(log, scanned) && FirstOf(log).Some?
    requires Accounts(newStart, newLog, added) && Ordered(newStart, newLog)
    ensures Gapless(FirstOf(log).value, to, scanned + added) <==>
            to <= Chain(Highest(start, log), Spans(newStart, newLog))
  {
    HighestExact(start, log, scanned);
    SpansFacts(newStart, newLog, added);
    ChainExact(FirstOf(log).value, Highest(start, log), scanned, Spans(newStart, newLog), added, to);
  }

  /** The new service has scanned everything from this block to its last processed root, and nothing before it. */
  ghost predicate ScansFrom(newLog: seq<Step>, added: seq<Range>, earliest: int) {
    && LastOf(newLog).Some? && Gapless(earliest, LastOf(newLog).value, added)
    && forall b :: Covered(added, b) ==> earliest <= b
  }

  /** Then the union has no gap exactly when this block is at most one past the highest scanned before. */
  lemma {:induction false} UnionFromExact(start: Range, log: seq<Step>, scanned: seq<Range>,
                                          newLog: seq<Step>, added: seq<Range>, earliest: int)
    requires Accounts(start, log, scanned) && Ordered(start, log) && NoGap(log, scanned) && FirstOf(log).Some?
    requires ScansFrom(newLog, added, earliest) && Highest(start, log) < LastOf(newLog).value
    ensures Gapless(FirstOf(log).value, LastOf(newLog).value, scanned + added) <==> earliest <= Highest(start, log) + 1
  {
    var first, high, to := FirstOf(log).value, Highest(start, log), LastOf(newLog).value;
    HighestExact(start, log, scanned);
    CoveredAppend(scanned, added, high + 1);
    if earliest <= high + 1 {
      forall b | first <= b <= to ensures Covered(scanned + added, b) {
        CoveredAppend(scanned, added, b);
      }
    }
  }

  /** A start-up that completed as far as where the turns take over makes the new service scan from its start. */
  lemma {:induction false} StartUpScansFrom(newStart: Range, newLog: seq<Step>, added: seq<Range>)
    requires Accounts(newStart, newLog, added) && Ordered(newStart, newLog) && NoGap(newLog, added)
    requires newStart.from <= newStart.to && FirstOf(newLog).Some? && FirstOf(newLog).value <= newStart.to + 1
    ensures ScansFrom(newLog, added, newStart.from)
  {
    EndsTogether(newStart, newLog);
    forall b | newStart.from <= b <= LastOf(newLog).value ensures Covered(added, b) {
      assert b <= newStart.to ==> Holds(newStart, b);
    }
    forall b | Covered(added, b) ensures newStart.from <= b {
      if j :| 0 <= j < |newLog| && Scans(newLog[j], b) {
        assert OrderedAt(newStart, newLog, j);
      }
    }
  }

  /** Without start-up, and with nothing scanned before the first commit, it scans from there. */
  lemma {:induction false} TurnsScanFrom(newStart: Range, newLog: seq<Step>, added: seq<Range>)
    requires Accounts(newStart, newLog, added) && Ordered(newStart, newLog) && NoGap(newLog, added)
    requires newStart.to < newStart.from && FirstOf(newLog).Some?
    requires forall j :: 0 <= j < |newLog| && LastOf(newLog[..j]).None? && newLog[j].turn.Threw? ==>
               newLog[j].reached < newLog[j].from
    ensures ScansFrom(newLog, added, FirstOf(newLog).value)
  {
    EndsTogether(newStart, newLog);
    forall b | Covered(added, b) ensures FirstOf(newLog).value <= b {
      var j :| 0 <= j < |newLog| && Scans(newLog[j], b);
      assert OrderedAt(newStart, newLog, j);
      if newLog[j].turn.Threw? {
        OrderedPrefix(newStart, newLog, j);
        EndsTogether(newStart, newLog[..j]);
        FirstOfPrefix(newLog, j);
      } else {
        WithinEnds(newStart, newLog, j);
      }
    }
  }

  lemma {:induction false} FirstOfPrefix(log: seq<Step>, n: nat)
    requires n <= |log| && FirstOf(log[..n]).Some?
    ensures FirstOf(log) == FirstOf(log[..n])
  {
    if n < |log| {
      var m := |log| - 1;
      assert log[..m][..n] == log[..n];
      FirstOfPrefix(log[..m], n);
    } else {
      assert log[..n] == log;
    }
  }
}
