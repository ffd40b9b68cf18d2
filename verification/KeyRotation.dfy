/**
 Streaming tool calls over several API keys: two passes over the keys, and an attempt is repeated
 on another key only as long as nothing can have reached the caller. The providers are an oracle.
 */
module KeyRotation {

  type Token = string
  type Error = string

  /** One call to a provider. A refusal may report a rate limit. A body that has begun counts as
      started, whether or not it has delivered a token yet. */
  datatype Attempt =
    | Refused(error: Error, rateLimited: bool)
    | Streamed(tokens: seq<Token>, outcome: Outcome)

  datatype Outcome = Done(text: string) | Failed(error: Error)

  datatype Call = Call(key: nat, attempt: Attempt)

  function TokensOf(a: Attempt): seq<Token>
  {
    if a.Streamed? then a.tokens else []
  }

  function OutcomeOf(a: Attempt): Outcome
  {
    match a
    case Streamed(_, outcome) => outcome
    case Refused(error, _) => Failed(error)
  }

  /** Keys for the second pass: those refused in the first for another reason than a rate limit. */
  function Retryable(first: seq<Call>): seq<nat>
  {
    if first == [] then []
    else
      var before, last := Retryable(first[..|first| - 1]), first[|first| - 1];
      if last.attempt.Refused? && !last.attempt.rateLimited then before + [last.key] else before
  }

  function Keys(log: seq<Call>): seq<nat>
  {
    seq(|log|, i requires 0 <= i < |log| => log[i].key)
  }

  /** The key `offset` places after `start`, going round once. */
  function KeyAt(start: nat, offset: nat, n: nat): (k: nat)
    requires start < n && offset < n
    ensures k < n
  {
    if start + offset < n then start + offset else start + offset - n
  }

  ghost predicate FirstPass(start: nat, n: nat, first: seq<Call>)
  {
    start < n && |first| <= n && forall i | 0 <= i < |first| :: first[i].key == KeyAt(start, i, n)
  }

  /** The calls got the oracle's answers, from its answer number `at` on. */
  ghost predicate AnsweredFrom(answers: seq<Attempt>, at: nat, log: seq<Call>)
  {
    at + |log| <= |answers| && forall i | 0 <= i < |log| :: log[i].attempt == answers[at + i]
  }

  ghost predicate AllRefused(log: seq<Call>)
  {
    forall i | 0 <= i < |log| :: log[i].attempt.Refused?
  }

  ghost predicate RefusedButLast(log: seq<Call>)
  {
    forall i | 0 <= i < |log| - 1 :: log[i].attempt.Refused?
  }

  function LastOf(log: seq<Call>, otherwise: Attempt): Attempt
  {
    if log == [] then otherwise else log[|log| - 1].attempt
  }

  function LastAttempt(first: seq<Call>, second: seq<Call>): Attempt
    requires first != []
  {
    LastOf(second, first[|first| - 1].attempt)
  }

  /** A complete run: all keys once from `start` on, then those worth a retry in the same order;
      it ends with the first body, or when there is no key left. */
  ghost predicate Rotation(start: nat, n: nat, answers: seq<Attempt>, first: seq<Call>, second: seq<Call>, result: Outcome)
  {
    && first != [] && FirstPass(start, n, first) && Keys(second) <= Retryable(first)
    && AnsweredFrom(answers, 0, first) && AnsweredFrom(answers, |first|, second)
    && RefusedButLast(first) && RefusedButLast(second)
    && (AllRefused(first) ==> |first| == n) && (second != [] ==> AllRefused(first))
    && (LastAttempt(first, second).Refused? ==> |first| == n && Keys(second) == Retryable(first))
    && result == OutcomeOf(LastAttempt(first, second))
  }

  const USIZE_END: nat := 0x1_0000_0000_0000_0000

  class StreamingClient {
    const nKeys: nat
    var keyCursor: nat
    /** What `on_token` has received. */
    var sink: seq<Token>

    ghost predicate Valid()
      reads this
    {
      nKeys > 0 && keyCursor < USIZE_END
    }

    constructor (n: nat)
      requires n > 0
      ensures Valid() && nKeys == n && keyCursor == 0 && sink == []
    {
      nKeys, keyCursor, sink := n, 0, [];
    }

    /** One provider call: the next answer of the oracle, whose tokens go to the sink. */
    method CallProvider(answers: seq<Attempt>, calls: nat, key: nat) returns (attempt: Attempt)
      requires calls < |answers|
      modifies this`sink
      ensures attempt == answers[calls]
      ensures sink == old(sink) + TokensOf(attempt)
    {
      attempt := answers[calls];
      sink := sink + TokensOf(attempt);
    }

    /** Every key once, until a body begins. */
    method FirstRound(answers: seq<Attempt>, startCursor: nat)
      returns (last: Attempt, rateLimited: seq<bool>, ghost first: seq<Call>)
      requires startCursor < nKeys <= |answers|
      modifies this`sink
      ensures first != [] && FirstPass(startCursor, nKeys, first) && AnsweredFrom(answers, 0, first)
      ensures RefusedButLast(first) && last == first[|first| - 1].attempt
      ensures last.Refused? ==> |first| == nKeys && Flagged(startCursor, nKeys, first, rateLimited)
      ensures sink == old(sink) + TokensOf(last)
    {
      rateLimited := seq(nKeys, _ => false);
      first, last := [], Refused("", false);
      for offset := 0 to nKeys
        invariant |first| == offset && Flagged(startCursor, nKeys, first, rateLimited)
        invariant FirstPass(startCursor, nKeys, first) && AnsweredFrom(answers, 0, first)
        invariant last.Refused? && sink == old(sink) && (first != [] ==> last == first[offset - 1].attempt)
      {
        var key := KeyIndex(startCursor, offset, nKeys);
        last := CallProvider(answers, offset, key);
        if last.Streamed? {
          first := first + [Call(key, last)];
          return;
        }
        FlagOne(startCursor, nKeys, first, rateLimited, last);
        if last.rateLimited {
          rateLimited := rateLimited[key := true];
        }
        first := first + [Call(key, last)];
      }
    }

    /** The keys worth a retry, until a body begins. */
    method SecondRound(answers: seq<Attempt>, startCursor: nat, rateLimited: seq<bool>, failed: Attempt,
                       ghost first: seq<Call>)
      returns (last: Attempt, ghost second: seq<Call>)
      requires startCursor < nKeys == |first| && 2 * nKeys <= |answers|
      requires FirstPass(startCursor, nKeys, first) && Flagged(startCursor, nKeys, first, rateLimited)
      requires failed == first[nKeys - 1].attempt
      modifies this`sink
      ensures SecondPass(answers, first, second) && last == LastOf(second, failed)
      ensures last.Refused? ==> Keys(second) == Retryable(first)
      ensures sink == old(sink) + TokensOf(last)
    {
      last, second := failed, [];
      var calls: nat := nKeys;
      for offset := 0 to nKeys
        invariant calls == nKeys + |second| && Retried(answers, first, second, offset)
        invariant last == LastOf(second, failed) && last.Refused? && sink == old(sink)
      {
        var key := KeyIndex(startCursor, offset, nKeys);
        assert rateLimited[key] == first[offset].attempt.rateLimited && first[offset].key == key;
        if rateLimited[key] {
          RetrySkips(answers, first, second, offset);
          continue;
        }
        last := CallProvider(answers, calls, key);
        RetryCalls(answers, first, second, offset, Call(key, last));
        second, calls := second + [Call(key, last)], calls + 1;
        if last.Streamed? {
          return;
        }
      }
      RetriedAll(answers, first, second);
    }

    method CompleteWithToolsStreaming(answers: seq<Attempt>)
      returns (result: Outcome, ghost first: seq<Call>, ghost second: seq<Call>)
      requires Valid() && 2 * nKeys <= |answers|
      modifies this
      ensures Valid()
      ensures Rotation(old(keyCursor) % nKeys, nKeys, answers, first, second, result)
      ensures sink == old(sink) + TokensOf(LastAttempt(first, second))
      ensures keyCursor == (old(keyCursor) + 1) % USIZE_END
    {
      var startCursor := keyCursor % nKeys;
      keyCursor := (keyCursor + 1) % USIZE_END;
      var last, rateLimited;
      last, rateLimited, first := FirstRound(answers, startCursor);
      second := [];
      if last.Refused? {
        last, second := SecondRound(answers, startCursor, rateLimited, last, first);
      }
      result := OutcomeOf(last);
    }
  }

  /** Calls of the second pass, up to the first body. */
  ghost predicate SecondPass(answers: seq<Attempt>, first: seq<Call>, second: seq<Call>)
  {
    AnsweredFrom(answers, |first|, second) && RefusedButLast(second) && Keys(second) <= Retryable(first)
  }

  lemma RetriedAll(answers: seq<Attempt>, first: seq<Call>, second: seq<Call>)
    requires Retried(answers, first, second, |first|)
    ensures SecondPass(answers, first, second) && Keys(second) == Retryable(first)
  {
    assert first[..|first|] == first;
  }

  /** The second pass has come to `offset`, and no body has begun. */
  ghost predicate Retried(answers: seq<Attempt>, first: seq<Call>, second: seq<Call>, offset: nat)
  {
    && |second| <= offset <= |first| && AllRefused(first) && AllRefused(second)
    && AnsweredFrom(answers, |first|, second)
    && Keys(second) == Retryable(first[..offset])
  }

  lemma RetrySkips(answers: seq<Attempt>, first: seq<Call>, second: seq<Call>, offset: nat)
    requires Retried(answers, first, second, offset) && offset < |first|
    requires first[offset].attempt.rateLimited
    ensures Retried(answers, first, second, offset + 1)
  {
    RetryableNext(first, offset);
  }

  /** One more call after refused ones. */
  lemma LogNext(answers: seq<Attempt>, at: nat, log: seq<Call>, call: Call)
    requires AnsweredFrom(answers, at, log) && AllRefused(log)
    requires at + |log| < |answers| && call.attempt == answers[at + |log|]
    ensures AnsweredFrom(answers, at, log + [call]) && RefusedButLast(log + [call])
    ensures call.attempt.Refused? ==> AllRefused(log + [call])
  {}

  lemma KeysNext(first: seq<Call>, second: seq<Call>, offset: nat, call: Call)
    requires offset < |first| && Keys(second) == Retryable(first[..offset]) && call.key == first[offset].key
    requires first[offset].attempt.Refused? && !first[offset].attempt.rateLimited
    ensures Keys(second + [call]) == Retryable(first[..offset + 1])
  {
    RetryableNext(first, offset);
    assert Keys(second + [call]) == Keys(second) + [call.key];
  }

  lemma RetryCalls(answers: seq<Attempt>, first: seq<Call>, second: seq<Call>, offset: nat, call: Call)
    requires Retried(answers, first, second, offset) && offset < |first|
    requires call.key == first[offset].key && !first[offset].attempt.rateLimited
    requires |first| + |second| < |answers| && call.attempt == answers[|first| + |second|]
    ensures SecondPass(answers, first, second + [call])
    ensures call.attempt.Refused? ==> Retried(answers, first, second + [call], offset + 1)
  {
    KeysNext(first, second, offset, call);
    RetryableGrows(first, offset + 1);
    LogNext(answers, |first|, second, call);
  }

  method KeyIndex(start: nat, offset: nat, n: nat) returns (key: nat)
    requires start < n && offset < n
    ensures key == KeyAt(start, offset, n)
  {
    RoundOnce(start, offset, n);
    key := (start + offset) % n;
  }

  // ── The flags kept during the first pass ──────────────────────────────────

  lemma RoundOnce(start: nat, offset: nat, n: nat)
    requires start < n && offset < n
    ensures (start + offset) % n == KeyAt(start, offset, n)
  {
    var x := start + offset;
    QuotientIs(x, n, if x < n then 0 else 1);
  }

  lemma QuotientIs(x: nat, n: nat, q: nat)
    requires n > 0 && n * q <= x < n * q + n
    ensures x % n == x - n * q
  {
    var d := x / n;
    assert x == n * d + x % n;
    if d < q {
      Times(n, d + 1, q);
    } else if d > q {
      Times(n, q + 1, d);
    }
  }

  lemma Times(n: nat, a: nat, b: nat)
    requires a <= b
    ensures n * a <= n * b
  {}

  ghost predicate Flagged(start: nat, n: nat, log: seq<Call>, flags: seq<bool>)
  {
    && start < n && |flags| == n && |log| <= n && AllRefused(log)
    && (forall i | 0 <= i < |log| :: flags[KeyAt(start, i, n)] == log[i].attempt.rateLimited)
    && (forall i | |log| <= i < n :: !flags[KeyAt(start, i, n)])
  }

  lemma FlagOne(start: nat, n: nat, log: seq<Call>, flags: seq<bool>, attempt: Attempt)
    requires Flagged(start, n, log, flags) && |log| < n && attempt.Refused?
    ensures var key := KeyAt(start, |log|, n);
            Flagged(start, n, log + [Call(key, attempt)],
                    if attempt.rateLimited then flags[key := true] else flags)
  {}

  lemma RetryableNext(first: seq<Call>, i: nat)
    requires i < |first|
    ensures Retryable(first[..i + 1]) ==
            if first[i].attempt.Refused? && !first[i].attempt.rateLimited
            then Retryable(first[..i]) + [first[i].key] else Retryable(first[..i])
  {
    assert first[..i + 1][..i] == first[..i];
  }

  lemma {:induction false} RetryableGrows(first: seq<Call>, i: nat)
    requires i <= |first|
    ensures Retryable(first[..i]) <= Retryable(first)
  {
    if i < |first| {
      RetryableGrows(first[..|first| - 1], i);
      assert first[..|first| - 1][..i] == first[..i];
    } else {
      assert first[..i] == first;
    }
  }

  // ── What a run guarantees ─────────────────────────────────────────────────

  ghost predicate Distinct(keys: seq<nat>)
  {
    forall i, j | 0 <= i < j < |keys| :: keys[i] != keys[j]
  }

  lemma {:induction false} RetryableKeys(first: seq<Call>)
    requires Distinct(Keys(first))
    ensures Distinct(Retryable(first))
    ensures forall key :: key in Retryable(first) <==>
              exists i :: 0 <= i < |first| && first[i].key == key && first[i].attempt.Refused? && !first[i].attempt.rateLimited
  {
    if first != [] {
      var n := |first| - 1;
      var before := first[..n];
      assert Keys(before) == Keys(first)[..n];
      RetryableKeys(before);
      assert forall i | 0 <= i < n :: before[i] == first[i];
      assert forall i | 0 <= i < n :: Keys(first)[i] != Keys(first)[n] && before[i].key == Keys(first)[i];
      DistinctNext(Retryable(before), first[n].key);
    }
  }

  lemma DistinctNext(keys: seq<nat>, key: nat)
    requires Distinct(keys) && key !in keys
    ensures Distinct(keys + [key])
  {}

  lemma FirstDistinct(start: nat, n: nat, first: seq<Call>)
    requires FirstPass(start, n, first)
    ensures Distinct(Keys(first))
  {}

  /** No key is called more than twice: once in each pass. */
  lemma TwiceAtMost(start: nat, n: nat, answers: seq<Attempt>, first: seq<Call>, second: seq<Call>, result: Outcome)
    requires Rotation(start, n, answers, first, second, result)
    ensures Distinct(Keys(first)) && Distinct(Keys(second))
  {
    FirstDistinct(start, n, first);
    RetryableKeys(first);
  }

  /** A key that reported a rate limit in the first pass is not called again. */
  lemma RateLimitedOnce(start: nat, n: nat, answers: seq<Attempt>, first: seq<Call>, second: seq<Call>, result: Outcome,
                        i: nat)
    requires Rotation(start, n, answers, first, second, result)
    requires i < |first| && first[i].attempt.Refused? && first[i].attempt.rateLimited
    ensures first[i].key !in Keys(second)
  {
    FirstDistinct(start, n, first);
    RetryableKeys(first);
    var key := first[i].key;
    assert key in Keys(second) ==> key in Retryable(first);
    forall j | 0 <= j < |first| && first[j].key == key ensures j == i {
      assert Keys(first)[i] == Keys(first)[j];
    }
  }

  /** A refusal is reported only after every key was called, and every one without a rate limit twice. */
  lemma GivesUpLast(start: nat, n: nat, answers: seq<Attempt>, first: seq<Call>, second: seq<Call>, result: Outcome,
                    key: nat)
    requires Rotation(start, n, answers, first, second, result) && LastAttempt(first, second).Refused? && key < n
    ensures key in Keys(first)
    ensures key !in Keys(second) ==>
              exists i :: 0 <= i < n && first[i].key == key && first[i].attempt.rateLimited
  {
    var i := if key >= start then key - start else key + n - start;
    assert KeyAt(start, i, n) == key && Keys(first)[i] == key;
    FirstDistinct(start, n, first);
    RetryableKeys(first);
    assert first[i].attempt.Refused?;
  }

  /** Everything before the last attempt delivered nothing, so no output is ever duplicated. */
  lemma OnlyLastDelivers(start: nat, n: nat, answers: seq<Attempt>, first: seq<Call>, second: seq<Call>, result: Outcome)
    requires Rotation(start, n, answers, first, second, result)
    ensures AllTokens(first) + AllTokens(second) == TokensOf(LastAttempt(first, second))
  {
    RefusedDeliverNothing(first);
    RefusedDeliverNothing(second);
  }

  function AllTokens(log: seq<Call>): seq<Token>
  {
    if log == [] then [] else AllTokens(log[..|log| - 1]) + TokensOf(log[|log| - 1].attempt)
  }

  lemma {:induction false} RefusedDeliverNothing(log: seq<Call>)
    requires RefusedButLast(log)
    ensures AllTokens(log) == TokensOf(LastOf(log, Refused("", false)))
  {
    if log != [] {
      var before := log[..|log| - 1];
      assert RefusedButLast(before) && LastOf(before, Refused("", false)).Refused?;
      RefusedDeliverNothing(before);
    }
  }

  /** The documented rule allows a retry after any failure before the first token. The code asks for
      more: when the first pass ends without a token, there is a further call exactly if no body had
      begun and a key is worth a retry. */
  lemma RetriedIff(start: nat, n: nat, answers: seq<Attempt>, first: seq<Call>, second: seq<Call>, result: Outcome)
    requires Rotation(start, n, answers, first, second, result) && TokensOf(first[|first| - 1].attempt) == []
    ensures second != [] <==> first[|first| - 1].attempt.Refused? && Retryable(first) != []
    ensures first[|first| - 1].attempt.Streamed? ==> result == first[|first| - 1].attempt.outcome
  {
    if first[|first| - 1].attempt.Refused? && second == [] {
      assert Keys(second) == [];
    }
  }

  /** What the caller gets is what the last answer asked for says: its outcome when a body had begun, and
      else, every call having been refused, the error of that last refusal. What the sink gains are the tokens
      of that body. */
  lemma ResultIsLastAnswer(start: nat, n: nat, answers: seq<Attempt>, first: seq<Call>, second: seq<Call>, result: Outcome)
    requires Rotation(start, n, answers, first, second, result)
    ensures var last := answers[|first| + |second| - 1];
            && (last.Streamed? ==> result == last.outcome && TokensOf(LastAttempt(first, second)) == last.tokens)
            && (last.Refused? ==> result == Failed(last.error) && AllRefused(first) && AllRefused(second))
            && (last.Refused? ==> TokensOf(LastAttempt(first, second)) == [])
  {}

  /** Within each pass a call is followed by another exactly if it was refused and a key is left. */
  lemma NextCallIff(start: nat, n: nat, answers: seq<Attempt>, first: seq<Call>, second: seq<Call>, result: Outcome,
                    i: nat)
    requires Rotation(start, n, answers, first, second, result)
    ensures i < |first| ==> (i + 1 < |first| <==> first[i].attempt.Refused? && i + 1 < n)
    ensures i < |second| ==> (i + 1 < |second| <==> second[i].attempt.Refused? && i + 1 < |Retryable(first)|)
  {
    assert |Keys(second)| == |second| <= |Retryable(first)|;
    if i < |first| && first[i].attempt.Refused? && i + 1 == |first| {
      assert AllRefused(first);
    }
  }

  lemma FirstPassUnique(start: nat, n: nat, answers: seq<Attempt>, a: seq<Call>, b: seq<Call>)
    requires FirstPass(start, n, a) && AnsweredFrom(answers, 0, a) && RefusedButLast(a) && (AllRefused(a) ==> |a| == n)
    requires FirstPass(start, n, b) && AnsweredFrom(answers, 0, b) && RefusedButLast(b) && (AllRefused(b) ==> |b| == n)
    requires a != [] && b != []
    ensures a == b
  {
    assert |a| < |b| ==> AllRefused(a);
    assert |b| < |a| ==> AllRefused(b);
  }

  lemma SecondPassUnique(answers: seq<Attempt>, first: seq<Call>, a: seq<Call>, b: seq<Call>)
    requires SecondPass(answers, first, a) && (AllRefused(a) ==> Keys(a) == Retryable(first))
    requires SecondPass(answers, first, b) && (AllRefused(b) ==> Keys(b) == Retryable(first))
    ensures a == b
  {
    assert |Keys(a)| == |a| && |Keys(b)| == |b|;
    forall i | 0 <= i < |a| && i < |b| ensures a[i] == b[i] {
      assert Keys(a)[i] == Retryable(first)[i] == Keys(b)[i];
    }
    assert |a| < |b| ==> AllRefused(a);
    assert |b| < |a| ==> AllRefused(b);
  }

  /** The answers determine the run. */
  lemma RotationUnique(start: nat, n: nat, answers: seq<Attempt>, first: seq<Call>, second: seq<Call>, result: Outcome,
                       first': seq<Call>, second': seq<Call>, result': Outcome)
    requires Rotation(start, n, answers, first, second, result)
    requires Rotation(start, n, answers, first', second', result')
    ensures first' == first && second' == second && result' == result
  {
    FirstPassUnique(start, n, answers, first, first');
    if AllRefused(first) {
      SecondPassUnique(answers, first, second, second');
    }
  }

  /** The run in which the first of two keys opens a body that breaks off at once: the second key is
      not called. */
  lemma BrokenBodyNotRetried(error: Error, first: seq<Call>, second: seq<Call>, result: Outcome)
    ensures var answer := Streamed([], Failed(error));
            Rotation(0, 2, [answer, answer, answer, answer], first, second, result) <==>
              first == [Call(0, answer)] && second == [] && result == Failed(error)
  {
    var answer := Streamed([], Failed(error));
    assert Retryable([Call(0, answer)]) == [];
    assert Keys([]) == [];
    assert Rotation(0, 2, [answer, answer, answer, answer], [Call(0, answer)], [], Failed(error));
    if Rotation(0, 2, [answer, answer, answer, answer], first, second, result) {
      RotationUnique(0, 2, [answer, answer, answer, answer], [Call(0, answer)], [], Failed(error), first, second, result);
    }
  }
}
