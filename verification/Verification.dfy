/** `verifyInputUpdate`: polling the input until it shows the expected value.
    The live input is abstracted to the sequence of values `input.value` yields
    on successive reads: `values[i]` is read by the i-th comparison, and
    `values[maxRetries]` by the error message after the last wait. */
module Verification {
  import opened Outcomes
  import opened Dates

  /** `config.maxRetries`. */
  const MaxRetries: nat := 15

  function MismatchMessage(expected: string, got: string): string {
    "Failed to update date in input field. Expected: " + expected + ", Got: " + got
  }

  /** No value among the comparisons `lo..hi` equals `expected`. */
  predicate NoneMatch(values: seq<string>, expected: string, lo: nat, hi: nat)
    requires lo <= hi <= |values|
  {
    forall j :: lo <= j < hi ==> values[j] != expected
  }

  /** The polling loop from comparison `retries` on. `Ok(i)` means the i-th
      comparison matched. */
  function PollFrom(values: seq<string>, expected: string, retries: nat, maxRetries: nat): (r: Result<nat>)
    requires retries <= maxRetries < |values|
    ensures r.Ok? ==> retries <= r.value < maxRetries && values[r.value] == expected
                      && NoneMatch(values, expected, retries, r.value)
    ensures r.Err? ==> NoneMatch(values, expected, retries, maxRetries)
                       && r.error == MismatchMessage(expected, values[maxRetries])
    decreases maxRetries - retries
  {
    if retries < maxRetries then
      if values[retries] == expected then Ok(retries)
      else PollFrom(values, expected, retries + 1, maxRetries)
    else
      Err(MismatchMessage(expected, values[maxRetries]))
  }

  /** `verifyInputUpdate(input, year, month, day)`: succeeds exactly when one of
      the first `maxRetries` values read equals the formatted date, and fails
      otherwise with a message naming the expected value and the value read
      after the last wait. */
  function VerifyInputUpdate(values: seq<string>, year: nat, month: nat, day: nat): (r: Result<nat>)
    requires |values| > MaxRetries
    ensures var expected := FormatDateForInput(year, month, day);
      r.Ok? <==> exists i :: 0 <= i < MaxRetries && values[i] == expected
    ensures var expected := FormatDateForInput(year, month, day);
      r.Err? ==> r.error == MismatchMessage(expected, values[MaxRetries])
  {
    PollFrom(values, FormatDateForInput(year, month, day), 0, MaxRetries)
  }

  /** The loop as written: compare, wait, count, and report the value read
      after the last wait. It computes what `PollFrom` specifies and performs
      `comparisons` comparisons, at most `maxRetries`. */
  method PollInputValue(values: seq<string>, expected: string, maxRetries: nat)
    returns (r: Result<nat>, comparisons: nat)
    requires |values| > maxRetries
    ensures r == PollFrom(values, expected, 0, maxRetries)
    ensures comparisons <= maxRetries
    ensures r.Ok? ==> comparisons == r.value + 1
    ensures r.Err? ==> comparisons == maxRetries
    ensures r.Ok? <==> exists i :: 0 <= i < maxRetries && values[i] == expected
  {
    var retries := 0;
    comparisons := 0;
    while retries < maxRetries
      invariant retries <= maxRetries
      invariant comparisons == retries
      invariant NoneMatch(values, expected, 0, retries)
      invariant PollFrom(values, expected, 0, maxRetries) == PollFrom(values, expected, retries, maxRetries)
    {
      comparisons := comparisons + 1;
      if values[retries] == expected {
        return Ok(retries), comparisons;
      }
      retries := retries + 1;
    }
    r := Err(MismatchMessage(expected, values[maxRetries]));
  }

  /** The value read after the last wait is reported but never compared: it can
      equal the expected value while verification still fails. */
  lemma FinalValueNotCompared(year: nat, month: nat, day: nat)
    ensures var expected := FormatDateForInput(year, month, day);
      var values := seq(MaxRetries, _ => "") + [expected];
      |values| > MaxRetries && values[MaxRetries] == expected
      && VerifyInputUpdate(values, year, month, day) == Err(MismatchMessage(expected, expected))
  {
    var expected := FormatDateForInput(year, month, day);
    var values := seq(MaxRetries, _ => "") + [expected];
    assert |expected| > 0;
    assert NoneMatch(values, expected, 0, MaxRetries);
  }

  /** A value that arrives after `n` unsuccessful comparisons, `n < maxRetries`,
      is accepted at the (n+1)-th comparison. */
  lemma AcceptsLateValue(values: seq<string>, expected: string, n: nat, maxRetries: nat)
    requires n < maxRetries < |values|
    requires NoneMatch(values, expected, 0, n) && values[n] == expected
    ensures PollFrom(values, expected, 0, maxRetries) == Ok(n)
  {
  }
}
