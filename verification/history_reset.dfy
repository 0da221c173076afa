/**
 * `wipe_local_history`: the six git steps that replace the local history
 * by a single orphan root commit, run in order until one fails fatally.
 */
module HistoryReset {
  import opened Text

  datatype Step = Step(description: string, command: string)

  const Steps: seq<Step> := [
    Step("Verify Git repo", "git rev-parse --git-dir"),
    Step("Create orphan branch", "git checkout --orphan new_root"),
    Step("Stage files", "git add -A"),
    Step("Create root commit", "git commit -m \"Initial commit\""),
    Step("Delete main branch", "git branch -D main"),
    Step("Rename branch", "git branch -m main")
  ]

  /** What `run_safe` reported for one step: exit status 0, and the output text. */
  datatype StepResult = StepResult(success: bool, error: string)

  datatype ResetOutcome =
    | Completed               // "Local history reset complete": returns True
    | NotARepository(step: nat)  // "Not a Git repository": returns False
    | FailedAt(step: nat)        // "Failed at '<description>'": returns False

  predicate SaysNotARepository(res: StepResult)
  {
    Contains(Lower(res.error), "not a git repository")
  }

  predicate SaysNotFound(res: StepResult)
  {
    Contains(Lower(res.error), "not found")
  }

  /** A failed step aborts the reset unless its error only reports something not found. */
  predicate IsFatal(res: StepResult)
  {
    !res.success && (SaysNotARepository(res) || !SaysNotFound(res))
  }

  /** The value `wipe_local_history()` returns. */
  function Succeeded(outcome: ResetOutcome): bool
  {
    outcome.Completed?
  }

  /**
   * `wipe_local_history()`, with the result each step's command would give
   * as an input.  `ran` is the number of steps whose commands were run.
   */
  method WipeLocalHistory(results: seq<StepResult>) returns (outcome: ResetOutcome, ran: nat)
    requires |results| == |Steps|
    ensures Succeeded(outcome) <==> forall k :: 0 <= k < |results| ==> !IsFatal(results[k])
    ensures Succeeded(outcome) ==> ran == |results|
    ensures !Succeeded(outcome) ==>
      outcome.step < |results| && ran == outcome.step + 1 && IsFatal(results[outcome.step]) &&
      forall k :: 0 <= k < outcome.step ==> !IsFatal(results[k])
    ensures outcome.NotARepository? ==> SaysNotARepository(results[outcome.step])
    ensures outcome.FailedAt? ==> !SaysNotARepository(results[outcome.step]) && !SaysNotFound(results[outcome.step])
  {
    for k := 0 to |results|
      invariant forall j :: 0 <= j < k ==> !IsFatal(results[j])
    {
      var res := results[k];
      if !res.success {
        var error := Lower(res.error);
        if Contains(error, "not a git repository") {
          return NotARepository(k), k + 1;
        } else if !Contains(error, "not found") {
          return FailedAt(k), k + 1;
        }
      }
    }
    return Completed, |results|;
  }
}
