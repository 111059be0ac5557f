/** Polling with retries: `repeatBlock`, `observeChangesInBalance` and `waitForCreationTransaction` of
    MultisigWallet/MultisigWalletApplication/EthereumApplicationService.swift over the loop of
    MultisigWallet/MultisigWalletDomainModel/Worker.swift. */
module RepeatBlock {
  import opened Outcomes

  /** What one poll of the node gives. */
  datatype Answer<+T> = Reading(value: T) | Failing(error: string)

  datatype Ending = Stopped | Threw(error: string) | StillRunning

  const RETRIES := 3

  // ----- When polling ends -----

  /** The last three answers are failures. */
  predicate GivesUpAt<T>(answers: seq<Answer<T>>, n: nat) {
    RETRIES <= n <= |answers| && forall i | n - RETRIES <= i < n :: answers[i].Failing?
  }

  /** The failures at the end of the first n answers. */
  function Streak<T>(answers: seq<Answer<T>>, n: nat): (k: nat)
    requires n <= |answers|
    ensures k <= n && forall i | n - k <= i < n :: answers[i].Failing?
    ensures k < n ==> answers[n - k - 1].Reading?
  {
    if n > 0 && answers[n - 1].Failing? then 1 + Streak(answers, n - 1) else 0
  }

  lemma GivesUpIffStreak<T>(answers: seq<Answer<T>>, n: nat)
    requires n <= |answers|
    ensures GivesUpAt(answers, n) <==> Streak(answers, n) >= RETRIES
  {}

  /** The successful readings among the first n answers. */
  function Readings<T>(answers: seq<Answer<T>>, n: nat): seq<T>
    requires n <= |answers|
  {
    if n == 0 then []
    else Readings(answers, n - 1) + (if answers[n - 1].Reading? then [answers[n - 1].value] else [])
  }

  /** The readings that differ from the one before. */
  function Changes<T(==)>(readings: seq<T>): seq<T> {
    if readings == [] then []
    else
      var n := |readings|;
      Changes(readings[..n - 1]) + (if n == 1 || readings[n - 1] != readings[n - 2] then [readings[n - 1]] else [])
  }

  predicate IsChange<T(==)>(answers: seq<Answer<T>>, n: nat)
    requires 0 < n <= |answers|
  {
    answers[n - 1].Reading? &&
    var before := Readings(answers, n - 1);
    before == [] || before[|before| - 1] != answers[n - 1].value
  }

  /** The n-th answer is a change, and the observer, called with it, asks to stop. */
  predicate StopsAt<T(==)>(answers: seq<Answer<T>>, stop: seq<T> -> bool, n: nat) {
    0 < n <= |answers| && IsChange(answers, n) && stop(Changes(Readings(answers, n)))
  }

  predicate EndsAt<T(==)>(answers: seq<Answer<T>>, stop: seq<T> -> bool, n: nat) {
    GivesUpAt(answers, n) || StopsAt(answers, stop, n)
  }

  lemma ChangesSnoc<T>(answers: seq<Answer<T>>, n: nat)
    requires n < |answers| && answers[n].Reading?
    ensures Readings(answers, n + 1) == Readings(answers, n) + [answers[n].value]
    ensures Changes(Readings(answers, n + 1)) ==
            Changes(Readings(answers, n)) + (if IsChange(answers, n + 1) then [answers[n].value] else [])
  {
    var before, after := Readings(answers, n), Readings(answers, n + 1);
    assert after == before + [answers[n].value];
    assert after[..|after| - 1] == before;
  }

  function LastReading<T>(answers: seq<Answer<T>>, n: nat): Option<T>
    requires n <= |answers|
  {
    var r := Readings(answers, n);
    if r == [] then None else Some(r[|r| - 1])
  }

  lemma FailingStep<T>(answers: seq<Answer<T>>, stop: seq<T> -> bool, n: nat)
    requires n < |answers| && answers[n].Failing?
    ensures Readings(answers, n + 1) == Readings(answers, n)
    ensures Streak(answers, n + 1) == Streak(answers, n) + 1
    ensures EndsAt(answers, stop, n + 1) <==> Streak(answers, n) + 1 >= 3
  {
    GivesUpIffStreak(answers, n + 1);
  }

  lemma ReadingStep<T>(answers: seq<Answer<T>>, stop: seq<T> -> bool, n: nat)
    requires n < |answers| && answers[n].Reading?
    ensures Streak(answers, n + 1) == 0
    ensures LastReading(answers, n + 1) == Some(answers[n].value)
    ensures IsChange(answers, n + 1) <==> LastReading(answers, n) != Some(answers[n].value)
    ensures EndsAt(answers, stop, n + 1) <==> IsChange(answers, n + 1) && stop(Changes(Readings(answers, n + 1)))
  {
    GivesUpIffStreak(answers, n + 1);
  }

  lemma HowItEnded<T>(answers: seq<Answer<T>>, stop: seq<T> -> bool, n: nat)
    requires n <= |answers|
    ensures Streak(answers, n) > 0 ==> !StopsAt(answers, stop, n)
    ensures Streak(answers, n) == 0 ==> !GivesUpAt(answers, n)
    ensures EndsAt(answers, stop, n) <==> GivesUpAt(answers, n) || StopsAt(answers, stop, n)
  {
    GivesUpIffStreak(answers, n);
  }

  lemma NothingYet<T>(answers: seq<Answer<T>>, stop: seq<T> -> bool)
    ensures Readings(answers, 0) == [] && Changes(Readings(answers, 0)) == []
    ensures Streak(answers, 0) == 0 && !EndsAt(answers, stop, 0)
  {}

  /** The observer is called with exactly the changed readings, in order, up to the first answer that ends
      the polling: a call that asks to stop, or the third failure in a row. It throws in the second case,
      with the last failure, and only then. The answers given run out only if neither happens. */
  method ObserveChangesInBalance<T(==)>(answers: seq<Answer<T>>, stop: seq<T> -> bool)
    returns (calls: seq<T>, ending: Ending, consumed: nat)
    ensures consumed <= |answers|
    ensures calls == Changes(Readings(answers, consumed))
    ensures forall n | 0 <= n < consumed :: !EndsAt(answers, stop, n)
    ensures ending.Stopped? <==> StopsAt(answers, stop, consumed)
    ensures ending.Threw? <==> GivesUpAt(answers, consumed)
    ensures ending.Threw? ==> answers[consumed - 1] == Failing(ending.error)
    ensures ending.StillRunning? ==> consumed == |answers|
  {
    hide Changes, Readings, Streak, GivesUpAt, StopsAt, EndsAt, IsChange;
    var balance: Option<T> := None;
    var error: Option<string> := None;
    var retryCount := 3;
    var shouldStop := false;
    calls, consumed := [], 0;
    NothingYet(answers, stop);
    while !shouldStop && consumed < |answers|
      invariant consumed <= |answers|
      invariant calls == Changes(Readings(answers, consumed))
      invariant balance == LastReading(answers, consumed)
      invariant retryCount == 3 - Streak(answers, consumed)
      invariant forall n | 0 <= n < consumed :: !EndsAt(answers, stop, n)
      invariant shouldStop <==> EndsAt(answers, stop, consumed)
      invariant error.Some? <==> Streak(answers, consumed) > 0
      invariant error.Some? ==> consumed > 0 && answers[consumed - 1] == Failing(error.value)
      invariant !shouldStop ==> Streak(answers, consumed) < 3
      decreases |answers| - consumed
    {
      match answers[consumed] {
        case Reading(newBalance) =>
          ChangesSnoc(answers, consumed);
          ReadingStep(answers, stop, consumed);
          var oldBalance := balance;
          balance := Some(newBalance);
          shouldStop := false;
          if balance != oldBalance {
            calls := calls + [newBalance];
            shouldStop := stop(calls);
          }
          retryCount := 3;
          error := None;
        case Failing(e) =>
          FailingStep(answers, stop, consumed);
          error := Some(e);
          retryCount := retryCount - 1;
          shouldStop := retryCount == 0;
      }
      consumed := consumed + 1;
    }
    HowItEnded(answers, stop, consumed);
    ending := if !shouldStop then StillRunning else if error.Some? then Threw(error.value) else Stopped;
  }

  /** Polling until something is found, as for the creation transaction or a receipt: the result is the
      first value found, and it is there whenever the call returns. */
  method WaitFor<T>(answers: seq<Answer<Option<T>>>) returns (found: Option<T>, ending: Ending, consumed: nat)
    ensures consumed <= |answers|
    ensures forall n | 0 <= n < consumed :: !GivesUpAt(answers, n)
    ensures forall i | 0 <= i < consumed - 1 :: answers[i].Reading? ==> answers[i].value.None?
    ensures ending.Stopped? <==> FoundAt(answers, consumed)
    ensures ending.Stopped? ==> found.Some? && answers[consumed - 1] == Reading(found)
    ensures ending.Threw? <==> GivesUpAt(answers, consumed)
    ensures ending.Threw? ==> answers[consumed - 1] == Failing(ending.error)
    ensures ending.StillRunning? ==> consumed == |answers|
  {
    hide Streak, GivesUpAt;
    var error: Option<string> := None;
    var retryCount := 3;
    var shouldStop := false;
    found, consumed := None, 0;
    NothingFound(answers);
    while !shouldStop && consumed < |answers|
      invariant consumed <= |answers|
      invariant retryCount == 3 - Streak(answers, consumed)
      invariant forall n | 0 <= n < consumed :: !GivesUpAt(answers, n)
      invariant forall i | 0 <= i < consumed - 1 :: answers[i].Reading? ==> answers[i].value.None?
      invariant shouldStop <==> GivesUpAt(answers, consumed) || FoundAt(answers, consumed)
      invariant error.Some? <==> Streak(answers, consumed) > 0
      invariant error.Some? ==> consumed > 0 && answers[consumed - 1] == Failing(error.value)
      invariant consumed > 0 && answers[consumed - 1].Reading? ==> answers[consumed - 1].value == found
      invariant GivesUpAt(answers, consumed) <==> Streak(answers, consumed) >= 3
      decreases |answers| - consumed
    {
      NextStreak(answers, consumed);
      match answers[consumed] {
        case Reading(value) =>
          found := value;
          shouldStop := found.Some?;
          retryCount := 3;
          error := None;
        case Failing(e) =>
          error := Some(e);
          retryCount := retryCount - 1;
          shouldStop := retryCount == 0;
      }
      consumed := consumed + 1;
    }
    ending := if !shouldStop then StillRunning else if error.Some? then Threw(error.value) else Stopped;
  }

  predicate FoundAt<T>(answers: seq<Answer<Option<T>>>, n: nat) {
    0 < n <= |answers| && answers[n - 1].Reading? && answers[n - 1].value.Some?
  }

  lemma NothingFound<T>(answers: seq<Answer<T>>)
    ensures Streak(answers, 0) == 0 && !GivesUpAt(answers, 0)
  {}

  lemma NextStreak<T>(answers: seq<Answer<T>>, n: nat)
    requires n < |answers|
    ensures answers[n].Reading? ==> Streak(answers, n + 1) == 0 && !GivesUpAt(answers, n + 1)
    ensures answers[n].Failing? ==> Streak(answers, n + 1) == Streak(answers, n) + 1
    ensures GivesUpAt(answers, n + 1) <==> Streak(answers, n + 1) >= 3
  {
    GivesUpIffStreak(answers, n + 1);
  }

  /** The reported values never repeat in a row and are drawn from the readings. */
  lemma {:induction false} ChangesAreChanges<T>(readings: seq<T>)
    ensures forall i | 1 <= i < |Changes(readings)| :: Changes(readings)[i] != Changes(readings)[i - 1]
    ensures readings != [] ==> Changes(readings) != [] && Changes(readings)[0] == readings[0]
    ensures readings != [] ==> Changes(readings)[|Changes(readings)| - 1] == readings[|readings| - 1]
  {
    if readings != [] {
      ChangesAreChanges(readings[..|readings| - 1]);
    }
  }

  /** Three failures in a row, and not fewer. */
  lemma ThirdFailureGivesUp<T>(answers: seq<Answer<T>>, n: nat)
    requires n <= |answers|
    ensures GivesUpAt(answers, n) <==>
            n >= 3 && answers[n - 1].Failing? && answers[n - 2].Failing? && answers[n - 3].Failing?
  {}

  /** The readings are the values in order, each repeated at least once. */
  predicate Repeats<T(==)>(readings: seq<T>, values: seq<T>) {
    if readings == [] || values == [] then readings == [] && values == []
    else
      var n, k := |readings| - 1, |values| - 1;
      readings[n] == values[k] && (Repeats(readings[..n], values) || Repeats(readings[..n], values[..k]))
  }

  /** Nothing is left out. */
  lemma {:induction false} ReadingsRepeatChanges<T>(readings: seq<T>)
    ensures Repeats(readings, Changes(readings))
  {
    if readings != [] {
      var n := |readings| - 1;
      var values := Changes(readings[..n]);
      ReadingsRepeatChanges(readings[..n]);
      ChangesAreChanges(readings[..n]);
      if n == 0 || readings[n] != readings[n - 1] {
        assert Changes(readings)[..|values|] == values;
      } else {
        assert readings[..n][n - 1] == readings[n];
        assert Changes(readings) == values + [] == values;
      }
    }
  }
}
