/** The retry loops of `summarize_chunk` and `combine_summaries` in summary_generate.py.
    The language-model service is a parameter: `service(k)` is what the call on attempt `k`
    (counting from 0) answers for the request at hand. */
module Retry {
  import opened Strings

  /** What one call to the service does: answer with a value (`None` included) or raise. */
  datatype Outcome = Answer(text: Option<string>) | Error(message: string)

  /** How the function ends: it returns a value (Python's `None` when the loop never runs),
      or it raises the error of its last attempt. */
  datatype Reply = Returned(value: Option<string>) | Raised(message: string)

  /** The error `combine_summaries` raises itself for an empty answer. */
  const EmptyAnswer := "API 返回为空"

  /** The pause of `summarize_chunk`, and the attempts and pause of `combine_summaries`. */
  const SummarizePause := 5
  const CombineRetries := 3
  const CombinePause := 10

  /** An attempt fails when the call raises, or, where `None` answers are rejected, when it
      answers `None`. */
  predicate Fails(o: Outcome, rejectNone: bool) {
    o.Error? || (rejectNone && o.text.None?)
  }

  /** The error a failed attempt raises. */
  function ErrorOf(o: Outcome, rejectNone: bool): string
    requires Fails(o, rejectNone)
  {
    if o.Error? then o.message else EmptyAnswer
  }

  /** `for attempt in range(maxRetries)`: call the service, return its answer on success;
      on failure raise if this was the last attempt, otherwise pause and try again. */
  method RetryLoop(service: nat -> Outcome, maxRetries: int, pause: nat, rejectNone: bool)
    returns (reply: Reply, attempts: nat, waited: nat)
    ensures maxRetries <= 0 ==> reply == Returned(None) && attempts == 0 && waited == 0
    ensures maxRetries > 0 ==> 1 <= attempts <= maxRetries && waited == pause * (attempts - 1)
    ensures forall k :: 0 <= k < attempts - 1 ==> Fails(service(k), rejectNone)
    ensures maxRetries > 0 && reply.Returned? ==>
              !Fails(service(attempts - 1), rejectNone) && reply.value == service(attempts - 1).text
    ensures reply.Raised? ==>
              attempts == maxRetries && Fails(service(attempts - 1), rejectNone) &&
              reply.message == ErrorOf(service(attempts - 1), rejectNone)
  {
    attempts, waited := 0, 0;
    var attempt := 0;
    while attempt < maxRetries
      invariant attempt == 0 || attempt < maxRetries
      invariant attempts == attempt && waited == pause * attempt
      invariant forall k :: 0 <= k < attempt ==> Fails(service(k), rejectNone)
      decreases maxRetries - attempt
    {
      var outcome := service(attempt);
      attempts := attempts + 1;
      if !Fails(outcome, rejectNone) {
        reply := Returned(outcome.text);
        return;
      }
      if attempt == maxRetries - 1 {
        reply := Raised(ErrorOf(outcome, rejectNone));
        return;
      }
      waited := waited + pause;
      attempt := attempt + 1;
    }
    assert attempt == 0 && waited == 0;
    reply := Returned(None);
  }

  /** `summarize_chunk`: up to `maxRetries` attempts five seconds apart; whatever the service
      answers is returned as it is. */
  method SummarizeChunk(chunk: string, targetLength: int, maxRetries: int,
                        service: (string, int, nat) -> Outcome)
    returns (reply: Reply, attempts: nat, waited: nat)
    ensures maxRetries <= 0 ==> reply == Returned(None) && attempts == 0
    ensures maxRetries > 0 ==> 1 <= attempts <= maxRetries && waited == SummarizePause * (attempts - 1)
    ensures forall k :: 0 <= k < attempts - 1 ==> service(chunk, targetLength, k).Error?
    ensures maxRetries > 0 && reply.Returned? ==>
              service(chunk, targetLength, attempts - 1) == Answer(reply.value)
    ensures reply.Raised? ==>
              attempts == maxRetries && service(chunk, targetLength, attempts - 1) == Error(reply.message)
  {
    var call := (k: nat) => service(chunk, targetLength, k);
    reply, attempts, waited := RetryLoop(call, maxRetries, SummarizePause, false);
    forall k | 0 <= k < attempts - 1 ensures service(chunk, targetLength, k).Error? {
      assert Fails(call(k), false);
    }
  }

  /** The text `combine_summaries` hands to the service: the summaries separated by blank
      lines. */
  function Combined(summaries: seq<string>): string {
    JoinWith(summaries, "\n\n")
  }

  /** `combine_summaries`: three attempts ten seconds apart, an empty answer counting as a
      failure; it therefore never returns `None`. */
  method CombineSummaries(summaries: seq<string>, targetLength: int,
                          service: (string, int, nat) -> Outcome)
    returns (reply: Reply, attempts: nat, waited: nat)
    ensures 1 <= attempts <= CombineRetries && waited == CombinePause * (attempts - 1)
    ensures forall k :: 0 <= k < attempts - 1 ==>
              Fails(service(Combined(summaries), targetLength, k), true)
    ensures reply.Returned? ==>
              reply.value.Some? && service(Combined(summaries), targetLength, attempts - 1) == Answer(reply.value)
    ensures reply.Raised? ==>
              attempts == CombineRetries &&
              (service(Combined(summaries), targetLength, attempts - 1) == Error(reply.message) ||
               (service(Combined(summaries), targetLength, attempts - 1) == Answer(None) && reply.message == EmptyAnswer))
  {
    var text := Combined(summaries);
    var call := (k: nat) => service(text, targetLength, k);
    reply, attempts, waited := RetryLoop(call, CombineRetries, CombinePause, true);
    forall k | 0 <= k < attempts - 1 ensures Fails(service(text, targetLength, k), true) {
      assert Fails(call(k), true);
    }
  }
}
