/** Starting a channel program and retrying it: which sequences of hardware answers lead where. */
module ChannelIo {
  import opened Bytes
  import opened FiniteSets

  const CU_TYPE_UNKNOWN: uint16 := 0x0000
  const CU_TYPE_DASD_2107: uint16 := 0x2107
  const CU_TYPE_DASD_3990: uint16 := 0x3990
  /** Channel end and device end, and nothing else. */
  const GOOD_STATUS: byte := 0x0c

  /** The answers to one attempt: the condition codes of start and of status collection, and the status collected. */
  datatype Answer = Answer(start: nat, collect: nat, deviceStatus: byte, channelStatus: byte)

  predicate Possible(a: Answer) {
    a.start <= 3 && a.collect <= 3
  }

  predicate Busy(a: Answer) {
    a.start == 1 || a.start == 2
  }

  /** The code one attempt returns: -1 to try again, otherwise the first condition code that is not 0. */
  function AttemptCode(a: Answer): int {
    if Busy(a) then -1 else if a.start != 0 then a.start else a.collect
  }

  predicate Clean(a: Answer) {
    a.start == 0 && a.collect == 0 && a.channelStatus == 0 && a.deviceStatus == GOOD_STATUS
  }

  predicate UnitCheck(a: Answer) {
    a.deviceStatus / 2 % 2 == 1
  }

  predicate InterfaceControlCheck(a: Answer) {
    a.channelStatus / 2 % 2 == 1
  }

  /** The program ran and failed in one of the two ways worth another attempt. */
  predicate Retryable(a: Answer) {
    AttemptCode(a) == 0 && !Clean(a) && (UnitCheck(a) || InterfaceControlCheck(a))
  }

  /** Attempt `k` is followed by another. */
  predicate GoesOn(answers: seq<Answer>, k: nat)
    requires k < |answers|
  {
    Busy(answers[k]) || (Retryable(answers[k]) && k <= 2)
  }

  datatype Outcome = StillTrying | Returned(code: int)

  /** What happened: which attempts were followed by a sense command, and how it ended. */
  datatype Report = Report(outcome: Outcome, attempts: nat, senses: seq<bool>)

  /** The retry loop, against a given sequence of hardware answers. */
  method DoCio(cutype: uint16, answers: seq<Answer>) returns (r: Report)
    requires forall k :: 0 <= k < |answers| ==> Possible(answers[k])
    ensures r.attempts == |r.senses| <= |answers|
    ensures r.outcome == StillTrying ==>
      r.attempts == |answers| && forall k :: 0 <= k < |answers| ==> GoesOn(answers, k)
    ensures r.outcome.Returned? ==>
      0 < r.attempts && !GoesOn(answers, r.attempts - 1) && forall k :: 0 <= k < r.attempts - 1 ==> GoesOn(answers, k)
    ensures r.outcome.Returned? ==>
      var last := answers[r.attempts - 1];
      (r.outcome.code == 0 <==> Clean(last)) &&
      (AttemptCode(last) != 0 ==> r.outcome.code == AttemptCode(last)) &&
      (AttemptCode(last) == 0 && !Clean(last) ==> r.outcome.code == -1)
    ensures forall k :: 0 <= k < r.attempts && GoesOn(answers, k) ==>
      (r.senses[k] <==> !Busy(answers[k]) && UnitCheck(answers[k]))
  {
    var retries, k := 0, 0;
    var senses: seq<bool> := [];
    while k < |answers|
      invariant 0 <= k == retries == |senses| <= |answers|
      invariant forall i :: 0 <= i < k ==> GoesOn(answers, i)
      invariant forall i :: 0 <= i < k ==> (senses[i] <==> !Busy(answers[i]) && UnitCheck(answers[i]))
      decreases |answers| - k
    {
      var a := answers[k];
      var rc := AttemptCode(a);
      if rc == -1 {
        retries, k, senses := retries + 1, k + 1, senses + [false];
        continue;
      }
      if rc != 0 {
        return Report(Returned(rc), k + 1, senses + [false]);
      }
      if a.channelStatus == 0 && a.deviceStatus == GOOD_STATUS {
        return Report(Returned(0), k + 1, senses + [false]);
      }
      if (UnitCheck(a) || InterfaceControlCheck(a)) && retries <= 2 {
        retries, k, senses := retries + 1, k + 1, senses + [UnitCheck(a)];
        continue;
      }
      var dasd := cutype == CU_TYPE_DASD_3990 || cutype == CU_TYPE_DASD_2107 || cutype == CU_TYPE_UNKNOWN;
      return Report(Returned(-1), k + 1, senses + [dasd]);
    }
    return Report(StillTrying, k, senses);
  }

  /** The attempts after which an error is retried. */
  function ErrorRetries(answers: seq<Answer>, n: nat): set<nat>
    requires n <= |answers|
  {
    set k: nat | k < n && GoesOn(answers, k) && Retryable(answers[k])
  }

  /** However long the run, at most three errors are retried; each busy answer uses up one of the three. */
  lemma AtMostThreeErrorRetries(answers: seq<Answer>, n: nat)
    requires n <= |answers| && forall k :: 0 <= k < |answers| ==> Possible(answers[k])
    ensures |ErrorRetries(answers, n)| <= 3
    ensures forall k: nat :: k < 3 && k < n && Busy(answers[k]) ==> |ErrorRetries(answers, n)| <= 2
  {
    var first: set<nat> := {0, 1, 2};
    var retried := ErrorRetries(answers, n);
    assert retried <= first;
    Smaller(retried, first);
    forall k: nat | k < 3 && k < n && Busy(answers[k])
      ensures |retried| <= 2
    {
      assert k !in retried;
      assert |first - {k}| == 2;
      Smaller(retried, first - {k});
    }
  }
}
