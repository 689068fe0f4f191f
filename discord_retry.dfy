/** `retryErrors` (bot/discord.go): run an operation until it succeeds, giving up for good
    after `maxTries` failed attempts. */
module Retry {
  const MaxTries: nat := 5

  /** `fails(n)` says whether attempt `n` (counting from 1) returns an error. Returns the
      number of attempts made and whether the last failure was fatal (`log.Fatalf`, which
      ends the process). */
  method RetryErrors(fails: nat -> bool) returns (attempts: nat, fatal: bool)
    ensures 1 <= attempts <= MaxTries
    ensures forall n :: 1 <= n < attempts ==> fails(n)
    ensures fatal <==> fails(attempts)
    ensures fatal ==> attempts == MaxTries
    ensures fatal <==> forall n :: 1 <= n <= MaxTries ==> fails(n)
  {
    var attempt := 1;
    while true
      invariant 1 <= attempt <= MaxTries
      invariant forall n :: 1 <= n < attempt ==> fails(n)
      decreases MaxTries - attempt
    {
      if !fails(attempt) {
        return attempt, false;
      }
      if attempt >= MaxTries {
        return attempt, true;
      }
      attempt := attempt + 1;
    }
  }
}
