/** The transaction executor: one attempt, the retry loop around it, and the gas fee gate. */
module Execution {
  import opened Wrappers
  import opened Arithmetic
  import opened Percentile
  import opened FeeHistory

  const BLOCKS_PER_HOUR := 300
  const HOURS_PER_DAY := 24
  const MAX_BLOCKCOUNT := 1024

  datatype Settings = Settings(dryRun: bool, txGasLimit: nat, minPriorityFee: nat, maxPriorityFee: nat,
                               feeHistoryDays: int, feePercentile: int)
  {
    function MaxCacheSize(): int {
      feeHistoryDays * (HOURS_PER_DAY * BLOCKS_PER_HOUR)
    }
  }

  datatype Tx = Tx(gasLimit: nat, maxFeePerGas: nat, maxPriorityFeePerGas: nat)

  /** The answers of the outside during one attempt. */
  datatype AttemptAnswers = AttemptAnswers(populates: bool, emulates: bool, baseFee: Answer<nat>,
                                           reward: Answer<Option<nat>>,
                                           estimate: Answer<nat>, signerPopulates: bool,
                                           pendingFee: Answer<Option<nat>>, latest: Answer<int>, fee: int -> Fee,
                                           replies: nat -> bool,
                                           signs: bool, sends: bool, mined: bool)

  datatype Attempt = Finished | NoSigner | HighGasFee | OtherError

  // ---------- preparing ----------

  function CalculatePriorityFee(s: Settings, reward: Option<nat>): nat {
    Min(Max(if reward.Some? then reward.value else 0, s.minPriorityFee), s.maxPriorityFee)
  }

  /** The priority fee never exceeds the maximum, respects the minimum if it can, and is the reward in between. */
  lemma PriorityFeeClamped(s: Settings, reward: Option<nat>)
    ensures var f, r := CalculatePriorityFee(s, reward), if reward.Some? then reward.value else 0;
            && f <= s.maxPriorityFee
            && (s.minPriorityFee <= s.maxPriorityFee ==> s.minPriorityFee <= f)
            && (s.minPriorityFee <= r <= s.maxPriorityFee ==> f == r)
            && (f != s.minPriorityFee && f != s.maxPriorityFee ==> f == r)
  {
  }

  /** Estimated gas with the 20% buffer, rounded down. */
  function Buffered(estimate: nat): nat {
    6 * estimate / 5
  }

  /** A failed estimate falls back to the configured limit. */
  function EstimateGasLimit(s: Settings, a: AttemptAnswers): nat {
    if a.estimate.Reply? then a.estimate.value else s.txGasLimit
  }

  /** The transaction an attempt would send, or how preparing it fails. */
  function Prepare(s: Settings, hasSigner: bool, a: AttemptAnswers): (Attempt, Tx) {
    var none := Tx(0, 0, 0);
    if !a.populates || !a.emulates then (OtherError, none)
    else if !s.dryRun && !hasSigner then (NoSigner, none)
    else if a.baseFee.Fails? || a.reward.Fails? then (OtherError, none)
    else
      var priority := CalculatePriorityFee(s, a.reward.value);
      var gasLimit := Buffered(EstimateGasLimit(s, a));
      if gasLimit > s.txGasLimit || (hasSigner && !a.signerPopulates) then (OtherError, none)
      else (Finished, Tx(gasLimit, a.baseFee.value * 2 + priority, priority))
  }

  /** The estimate, or the configured limit when there is none. */
  ghost predicate Estimates(s: Settings, a: AttemptAnswers, estimate: nat) {
    a.estimate == Reply(estimate) || (a.estimate.Fails? && estimate == s.txGasLimit)
  }

  /** The reward held within its bounds, the maximum winning when they cross. */
  ghost predicate Clamped(s: Settings, reward: nat, fee: nat) {
    if s.maxPriorityFee < s.minPriorityFee || s.maxPriorityFee < reward then fee == s.maxPriorityFee
    else if reward < s.minPriorityFee then fee == s.minPriorityFee
    else fee == reward
  }

  /**
    The transaction's maximal fee is twice the base fee and the priority fee, the priority fee is the
    clamped reward, and the gas limit is the estimate and a fifth of it, rounded down, within the
    configured limit.
   */
  ghost predicate Priced(s: Settings, a: AttemptAnswers, tx: Tx) {
    && a.baseFee.Reply? && a.reward.Reply?
    && tx.maxFeePerGas == 2 * a.baseFee.value + tx.maxPriorityFeePerGas
    && Clamped(s, if a.reward.value.Some? then a.reward.value.value else 0, tx.maxPriorityFeePerGas)
    && tx.gasLimit <= s.txGasLimit
    && exists estimate: nat :: Estimates(s, a, estimate) && 5 * tx.gasLimit <= 6 * estimate < 5 * tx.gasLimit + 5
  }

  /** The call can be built and is emulated, but there is no signer to send it. */
  ghost predicate LacksSigner(s: Settings, hasSigner: bool, a: AttemptAnswers) {
    a.populates && a.emulates && !s.dryRun && !hasSigner
  }

  /**
    The call can be built and is emulated, there is a signer unless nothing is to be sent, the fees are
    known, the buffered estimate is within the configured limit, and a signer fills in the rest.
   */
  ghost predicate Preparable(s: Settings, hasSigner: bool, a: AttemptAnswers) {
    && a.populates && a.emulates && (s.dryRun || hasSigner) && a.baseFee.Reply? && a.reward.Reply?
    && (exists estimate: nat :: Estimates(s, a, estimate) && 6 * estimate < 5 * s.txGasLimit + 5)
    && (hasSigner ==> a.signerPopulates)
  }

  /** Preparing ends with a transaction, for want of a signer, or with another error exactly in these cases. */
  lemma PrepareExact(s: Settings, hasSigner: bool, a: AttemptAnswers)
    ensures var (outcome, tx) := Prepare(s, hasSigner, a);
            && (outcome == Finished <==> Preparable(s, hasSigner, a))
            && (outcome == NoSigner <==> LacksSigner(s, hasSigner, a))
            && outcome != HighGasFee
            && (outcome == Finished ==> Priced(s, a, tx))
  {
    assert Estimates(s, a, EstimateGasLimit(s, a));
  }

  /** A prepared transaction was emulated and has room for its estimate within the configured limit. */
  lemma PreparedWithinLimit(s: Settings, hasSigner: bool, a: AttemptAnswers)
    requires Prepare(s, hasSigner, a).0 == Finished
    ensures a.populates && a.emulates && (s.dryRun || hasSigner)
    ensures EstimateGasLimit(s, a) <= Prepare(s, hasSigner, a).1.gasLimit <= s.txGasLimit
    ensures Prepare(s, hasSigner, a).1.maxPriorityFeePerGas <= Prepare(s, hasSigner, a).1.maxFeePerGas
  {
    BufferedAtLeast(EstimateGasLimit(s, a));
  }

  /** What an estimate has to do with the gas limit of a priced transaction. */
  lemma PricedHasRoom(s: Settings, a: AttemptAnswers, tx: Tx)
    requires Priced(s, a, tx)
    ensures EstimateGasLimit(s, a) <= tx.gasLimit <= s.txGasLimit
    ensures s.txGasLimit >= 5 ==> a.estimate.Reply?
  {
  }

  lemma BufferedAtLeast(e: nat)
    ensures Buffered(e) >= e
    ensures Buffered(e) > e <==> e >= 5
  {
  }

  /**
    The fallback of a failed gas estimate to the configured limit is rejected by that same limit,
    for every configuration, exactly when the limit is at least 5: then a failed estimate never
    leads to a transaction.
   */
  lemma FailedEstimateExact(s: Settings)
    ensures (forall hasSigner, a: AttemptAnswers :: a.estimate.Fails? ==> Prepare(s, hasSigner, a).0 != Finished) <==>
            s.txGasLimit >= 5
  {
    BufferedAtLeast(s.txGasLimit);
    if s.txGasLimit < 5 {
      var a := AttemptAnswers(true, true, Reply(0), Reply(None), Fails, true, Fails, Fails, _ => 0, _ => true, true,
                              true, true);
      assert a.estimate.Fails? && Prepare(s, true, a).0 == Finished;
    }
  }

  /** The attempt can end in a way that is retried: without a signer, or with too high a fee. */
  ghost predicate RetryPossible(s: Settings, hasSigner: bool, a: AttemptAnswers) {
    LacksSigner(s, hasSigner, a) || (!s.dryRun && Preparable(s, hasSigner, a) && a.pendingFee.Reply?)
  }

  // ---------- the service ----------

  /** Updating the fee history throws: the latest block or one of the requests needed cannot be had. */
  ghost predicate HistoryThrows(s: Settings, last: int, a: AttemptAnswers) {
    || a.latest.Fails?
    || (a.latest.value - last >= BLOCKS_PER_HOUR
        && exists k: nat :: k < Requests(Min(a.latest.value - last, s.MaxCacheSize()), MAX_BLOCKCOUNT) && !a.replies(k))
  }

  function CurrentFee(a: AttemptAnswers): Fee
    requires a.pendingFee.Reply?
  {
    if a.pendingFee.value.Some? then a.pendingFee.value.value else 0
  }

  datatype GasFeeData = GasFeeData(recommended: Fee, current: Fee)

  datatype ExecuteResult = Returned | Threw | StillRetrying

  class ExecutionService {
    const settings: Settings
    const hasSigner: bool
    var gasFeeHistoryCache: array<Fee>
    var lastFeeHistoryBlockNumber: int
    /** Every transaction handed to the provider. */
    var sent: seq<Tx>
    /** A window fed the same fees that drops its oldest values. */
    ghost var window: seq<Fee>

    ghost predicate Valid()
      reads this, gasFeeHistoryCache
    {
      && IsSorted(gasFeeHistoryCache[..])
      && Dominates(gasFeeHistoryCache[..], window)
      && gasFeeHistoryCache.Length <= Max(settings.MaxCacheSize(), 0)
    }

    constructor (settings: Settings, hasSigner: bool)
      ensures Valid() && fresh(gasFeeHistoryCache) && sent == [] && window == []
      ensures this.settings == settings && this.hasSigner == hasSigner
    {
      this.settings := settings;
      this.hasSigner := hasSigner;
      gasFeeHistoryCache := new Fee[0];
      lastFeeHistoryBlockNumber := 0;
      sent := [];
      window := [];
    }

    method UpdateCacheWithNewFees(newGasFees: seq<Fee>)
      modifies this`gasFeeHistoryCache, this`window
      ensures fresh(gasFeeHistoryCache)
      ensures gasFeeHistoryCache[..] == UpdateCache(old(gasFeeHistoryCache[..]), newGasFees)
      ensures window == UpdateCache(old(window), newGasFees)
    {
      var cache := gasFeeHistoryCache[..];
      var existingCacheToKeep := if |cache| > |newGasFees| then cache[|newGasFees|..] else [];
      var updated := existingCacheToKeep + newGasFees;
      gasFeeHistoryCache := new Fee[|updated|](i requires 0 <= i < |updated| => updated[i]);
      assert gasFeeHistoryCache[..] == updated;
      window := UpdateCache(window, newGasFees);
    }

    /** Merging keeps the cache at or above the window, never shrinks it, and never makes it longer than old and new. */
    method MergeFees(newGasFees: seq<Fee>)
      requires Valid()
      modifies this`gasFeeHistoryCache, this`window
      ensures fresh(gasFeeHistoryCache) && Dominates(gasFeeHistoryCache[..], window)
      ensures gasFeeHistoryCache[..] == UpdateCache(old(gasFeeHistoryCache[..]), newGasFees)
      ensures gasFeeHistoryCache.Length == Max(old(gasFeeHistoryCache.Length), |newGasFees|)
      ensures window == UpdateCache(old(window), newGasFees)
    {
      UpdateDominates(gasFeeHistoryCache[..], window, newGasFees);
      UpdateCacheWithNewFees(newGasFees);
      assert gasFeeHistoryCache.Length == |gasFeeHistoryCache[..]|;
    }

    /** Fetch and merge new fees when an hour of blocks has passed; a failing request leaves everything as it was. */
    method UpdateGasFeeHistoryCache(a: AttemptAnswers) returns (threw: bool, ghost fees: seq<Fee>)
      requires Valid()
      modifies this`gasFeeHistoryCache, this`window, this`lastFeeHistoryBlockNumber
      ensures gasFeeHistoryCache == old(gasFeeHistoryCache) || fresh(gasFeeHistoryCache)
      ensures threw || (a.latest.Reply? && a.latest.value - old(lastFeeHistoryBlockNumber) < BLOCKS_PER_HOUR) ==>
                gasFeeHistoryCache == old(gasFeeHistoryCache) && window == old(window)
                && lastFeeHistoryBlockNumber == old(lastFeeHistoryBlockNumber)
      ensures threw <==> HistoryThrows(settings, old(lastFeeHistoryBlockNumber), a)
      ensures !threw && a.latest.value - old(lastFeeHistoryBlockNumber) >= BLOCKS_PER_HOUR ==>
                && lastFeeHistoryBlockNumber == a.latest.value
                && var total := Min(a.latest.value - old(lastFeeHistoryBlockNumber), settings.MaxCacheSize());
                   && |fees| == Max(total, 0)
                   && (forall i :: 0 <= i < |fees| ==>
                       fees[i] == a.fee(BotBlock(a.latest.value, total, MAX_BLOCKCOUNT, i)))
                   && gasFeeHistoryCache[..] == UpdateCache(old(gasFeeHistoryCache[..]), fees)
                   && gasFeeHistoryCache.Length == Max(old(gasFeeHistoryCache.Length), |fees|)
                   && window == UpdateCache(old(window), fees)
      ensures Dominates(gasFeeHistoryCache[..], window)
      ensures old(gasFeeHistoryCache.Length) <= gasFeeHistoryCache.Length <= Max(settings.MaxCacheSize(), 0)
    {
      fees := [];
      if a.latest.Fails? {
        return true, fees;
      }
      var blocksSinceLastUpdate := a.latest.value - lastFeeHistoryBlockNumber;
      if blocksSinceLastUpdate < BLOCKS_PER_HOUR {
        return false, fees;
      }
      var blocksToFetch := Min(blocksSinceLastUpdate, settings.MaxCacheSize());
      var newGasFees := FetchGasFeeHistory(a.fee, a.replies, a.latest.value, blocksToFetch, MAX_BLOCKCOUNT);
      if newGasFees.None? {
        return true, fees;
      }
      fees := newGasFees.value;
      MergeFees(newGasFees.value);
      lastFeeHistoryBlockNumber := a.latest.value;
      threw := false;
    }

    /** The recommended fee is the percentile of the cache, and never below that of the sliding window. */
    method CalculateGasFeeData(a: AttemptAnswers) returns (r: Answer<GasFeeData>)
      requires Valid()
      modifies this`gasFeeHistoryCache, this`window, this`lastFeeHistoryBlockNumber, gasFeeHistoryCache
      ensures Valid() && (gasFeeHistoryCache == old(gasFeeHistoryCache) || fresh(gasFeeHistoryCache))
      ensures old(gasFeeHistoryCache.Length) <= gasFeeHistoryCache.Length
      ensures r.Reply? ==>
                && a.pendingFee.Reply?
                && r.value.current == CurrentFee(a)
                && At(gasFeeHistoryCache[..], settings.feePercentile) == Some(r.value.recommended)
                && At(Sorted(window), settings.feePercentile).Some?
                && r.value.recommended >= At(Sorted(window), settings.feePercentile).value
      ensures r.Fails? <==>
                || a.pendingFee.Fails? || HistoryThrows(settings, old(lastFeeHistoryBlockNumber), a)
                || At(gasFeeHistoryCache[..], settings.feePercentile).None?
    {
      if a.pendingFee.Fails? {
        return Fails;
      }
      var threw, _ := UpdateGasFeeHistoryCache(a);
      if threw {
        return Fails;
      }
      ghost var unsorted := gasFeeHistoryCache[..];
      var recommended := PercentileInPlace(gasFeeHistoryCache, settings.feePercentile);
      SortedFacts(unsorted);
      forall x ensures CountAtLeast(Sorted(unsorted), x) >= CountAtLeast(window, x) {
        CountSorted(unsorted, x);
      }
      SortedByCounts(unsorted, window);
      PercentileMonotoneInValues(unsorted, window, settings.feePercentile);
      if recommended.None? {
        return Fails;
      }
      return Reply(GasFeeData(recommended.value, CurrentFee(a)));
    }

    /** One attempt: at most one transaction, and only behind every check. */
    method ExecuteTransaction(a: AttemptAnswers) returns (r: Attempt)
      requires Valid()
      modifies this`gasFeeHistoryCache, this`window, this`lastFeeHistoryBlockNumber, this`sent, gasFeeHistoryCache
      ensures Valid() && (gasFeeHistoryCache == old(gasFeeHistoryCache) || fresh(gasFeeHistoryCache))
      ensures r == NoSigner <==> LacksSigner(settings, hasSigner, a)
      ensures settings.dryRun ==>
                sent == old(sent) && r == if Preparable(settings, hasSigner, a) then Finished else OtherError
      ensures var proceeds := Preparable(settings, hasSigner, a) && !settings.dryRun
                              && a.pendingFee.Reply? && !HistoryThrows(settings, old(lastFeeHistoryBlockNumber), a)
                              && At(gasFeeHistoryCache[..], settings.feePercentile).Some?;
              var acceptable := proceeds && CurrentFee(a) <= At(gasFeeHistoryCache[..], settings.feePercentile).value;
              && (r == HighGasFee <==> proceeds && !acceptable)
              && (sent != old(sent) <==> acceptable && a.signs)
              && (!settings.dryRun ==> (r == Finished <==> acceptable && a.signs && a.sends && a.mined))
      ensures sent != old(sent) ==>
                |sent| == |old(sent)| + 1 && old(sent) <= sent && Priced(settings, a, sent[|old(sent)|])
    {
      PrepareExact(settings, hasSigner, a);
      if !a.populates || !a.emulates {
        return OtherError;
      }
      if !settings.dryRun && !hasSigner {
        return NoSigner;
      }
      // gas parameters, then the gas limit
      if a.baseFee.Fails? || a.reward.Fails? {
        return OtherError;
      }
      var maxPriorityFeePerGas := CalculatePriorityFee(settings, a.reward.value);
      var maxFeePerGas := a.baseFee.value * 2 + maxPriorityFeePerGas;
      var estimatedWithBuffer := Buffered(EstimateGasLimit(settings, a));
      if estimatedWithBuffer > settings.txGasLimit {
        return OtherError;
      }
      if hasSigner && !a.signerPopulates {
        return OtherError;
      }
      var tx := Tx(estimatedWithBuffer, maxFeePerGas, maxPriorityFeePerGas);
      if settings.dryRun {
        return Finished;
      }
      var fees := CalculateGasFeeData(a);
      if fees.Fails? {
        return OtherError;
      }
      if fees.value.current > fees.value.recommended {
        return HighGasFee;
      }
      if !a.signs {
        return OtherError;
      }
      assert (Finished, tx) == Prepare(settings, hasSigner, a);
      sent := sent + [tx];
      return if a.sends && a.mined then Finished else OtherError;
    }

    /**
      The retry loop, for any budget of attempts: a missing signer or a high fee is retried, any
      other error ends the call.
     */
    method ExecuteDaemon(answers: nat -> AttemptAnswers, budget: nat) returns (r: ExecuteResult, attempts: nat)
      requires Valid()
      modifies this`gasFeeHistoryCache, this`window, this`lastFeeHistoryBlockNumber, this`sent, gasFeeHistoryCache
      ensures Valid() && attempts <= budget
      ensures sent == old(sent) || (|sent| == |old(sent)| + 1 && old(sent) <= sent)
      ensures r == StillRetrying ==> attempts == budget && sent == old(sent)
      ensures r != StillRetrying ==> attempts > 0
      ensures forall k: nat :: k < attempts - 1 || (k < attempts && r == StillRetrying) ==>
                RetryPossible(settings, hasSigner, answers(k))
      ensures r == Threw ==> !LacksSigner(settings, hasSigner, answers(attempts - 1))
      ensures settings.dryRun && budget > 0 ==>
                attempts == 1 && r == if Preparable(settings, hasSigner, answers(0)) then Returned else Threw
      ensures r == Returned ==>
                var a := answers(attempts - 1);
                && Preparable(settings, hasSigner, a) && (settings.dryRun <==> sent == old(sent))
                && (!settings.dryRun ==> a.signs && a.sends && a.mined)
      ensures sent != old(sent) ==>
                var a := answers(attempts - 1);
                var tx := sent[|sent| - 1];
                && !settings.dryRun && attempts > 0 && Preparable(settings, hasSigner, a) && Priced(settings, a, tx)
                && EstimateGasLimit(settings, a) <= tx.gasLimit <= settings.txGasLimit
                && (settings.txGasLimit >= 5 ==> a.estimate.Reply?)
                && a.pendingFee.Reply? && At(gasFeeHistoryCache[..], settings.feePercentile).Some?
                && CurrentFee(a) <= At(gasFeeHistoryCache[..], settings.feePercentile).value
      ensures !settings.dryRun && !hasSigner ==> r != Returned && sent == old(sent)
      ensures !settings.dryRun && !hasSigner && (forall k: nat :: answers(k).populates && answers(k).emulates) ==>
              r == StillRetrying
    {
      attempts := 0;
      while attempts < budget
        invariant attempts <= budget && Valid() && sent == old(sent)
        invariant forall k: nat :: k < attempts ==> RetryPossible(settings, hasSigner, answers(k))
        invariant settings.dryRun ==> attempts == 0
        invariant gasFeeHistoryCache == old(gasFeeHistoryCache) || fresh(gasFeeHistoryCache)
      {
        var a := answers(attempts);
        var attempt := ExecuteTransaction(a);
        attempts := attempts + 1;
        if sent != old(sent) {
          PricedHasRoom(settings, a, sent[|old(sent)|]);
        }
        match attempt {
          case Finished => return Returned, attempts;
          case NoSigner =>
          case HighGasFee =>
          case OtherError => return Threw, attempts;
        }
      }
      return StillRetrying, attempts;
    }
  }
}
