/** A batch handed from the prover to the executor: what a reported key says about transactions. */
module Reporting {
  import opened SlotProcessing
  import opened Prover
  import opened Execution

  /**
    Submit one batch through the executor and report its keys when that returns. Outside a dry run
    a key becomes reported only together with a transaction that was sent and awaited; in a dry run
    keys become reported and nothing is sent.
   */
  method SubmitBatch(prover: ProverService, execution: ExecutionService, s: Submission,
                     answers: nat -> AttemptAnswers, budget: nat) returns (r: ExecuteResult, attempts: nat)
    requires execution.Valid()
    modifies prover`reported, prover`submitted, execution, execution.gasFeeHistoryCache
    ensures execution.Valid()
    ensures r == Returned ==> prover.reported == old(prover.reported) + KeysOf(s.witnesses)
    ensures r != Returned ==> prover.reported == old(prover.reported)
    ensures r == Returned ==>
              && attempts > 0 && (execution.sent == old(execution.sent) <==> execution.settings.dryRun)
              && (!execution.settings.dryRun ==>
                    var a := answers(attempts - 1);
                    && |execution.sent| == |old(execution.sent)| + 1 && old(execution.sent) <= execution.sent
                    && Priced(execution.settings, a, execution.sent[|old(execution.sent)|]) && a.sends && a.mined)
    ensures prover.reported != old(prover.reported) ==>
              r == Returned && (execution.sent != old(execution.sent) <==> !execution.settings.dryRun)
  {
    r, attempts := execution.ExecuteDaemon(answers, budget);
    if r != StillRetrying {
      prover.Execute(s.(returned := r == Returned));
    }
  }
}
