/**
 Waiting for confirmations across chain reorganisations: locate the transaction's block, wait
 for the block that completes the confirmations, and look the transaction up again.

 The environment is a list of ticks. A tick answers whichever request the loop makes at that
 moment; the loops only stop early when the list ends, which is reported as `StillWaiting`.
 */
module Confirmations {

  datatype Receipt = RequestFailed | NotFound | Reverted | Pending | MinedAt(block: nat)

  datatype Head = HeadFailed | HeadAt(block: nat)

  /** `expired` is whether the deadline has passed when the loop looks at the clock. */
  datatype Tick = Tick(expired: bool, receipt: Receipt, head: Head)

  datatype Failure = TimedOut | TxReverted

  datatype Outcome = Confirmed | Failed(failure: Failure) | StillWaiting

  // ---------- specification: a state machine over ticks ----------

  datatype Phase = Locate | WaitFor(block: nat) | Recheck(block: nat) | Done | Stopped(failure: Failure)

  function Target(block: nat, required: nat): int {
    block + required - 1
  }

  ghost function NextPhase(phase: Phase, tick: Tick, required: nat): Phase {
    if phase.Done? || phase.Stopped? then phase
    else if tick.expired then Stopped(TimedOut)
    else
      match phase
      case WaitFor(block) =>
        if tick.head.HeadAt? && tick.head.block >= Target(block, required) then Recheck(block) else phase
      case _ =>
        match tick.receipt
        case Reverted => Stopped(TxReverted)
        case MinedAt(block) =>
          if phase.Locate? then (if block == 0 then Locate else WaitFor(block))
          else if block == phase.block then Done else Locate
        case _ => phase
  }

  ghost function PhaseAt(ticks: seq<Tick>, n: nat, required: nat): Phase
    requires n <= |ticks|
  {
    if n == 0 then Locate else NextPhase(PhaseAt(ticks, n - 1, required), ticks[n - 1], required)
  }

  // ---------- the loops ----------

  datatype Lookup = Found(block: nat) | LookupFailed(failure: Failure) | NoAnswer

  method TransactionConfirmedAt(ticks: seq<Tick>, from: nat, ghost required: nat) returns (r: Lookup, next: nat)
    requires from <= |ticks|
    requires var phase := PhaseAt(ticks, from, required); phase.Locate? || phase.Recheck?
    ensures from <= next <= |ticks|
    ensures var phase := PhaseAt(ticks, from, required);
            match r
            case Found(block) => from < next && PhaseAt(ticks, next - 1, required) == phase
                                 && !ticks[next - 1].expired && ticks[next - 1].receipt == MinedAt(block)
            case LookupFailed(failure) => PhaseAt(ticks, next, required) == Stopped(failure)
            case NoAnswer => next == |ticks| && PhaseAt(ticks, next, required) == phase
  {
    next := from;
    while next < |ticks|
      invariant from <= next <= |ticks|
      invariant PhaseAt(ticks, next, required) == PhaseAt(ticks, from, required)
    {
      var tick := ticks[next];
      next := next + 1;
      if tick.expired {
        return LookupFailed(TimedOut), next;
      }
      match tick.receipt {
        case Reverted => return LookupFailed(TxReverted), next;
        case MinedAt(block) => return Found(block), next;
        case _ =>
      }
    }
    r := NoAnswer;
  }

  method WaitForBlock(ticks: seq<Tick>, from: nat, block: nat, ghost confirmedAt: nat, ghost required: nat)
    returns (r: Lookup, next: nat)
    requires from <= |ticks| && block == Target(confirmedAt, required)
    requires PhaseAt(ticks, from, required) == WaitFor(confirmedAt)
    ensures from <= next <= |ticks|
    ensures match r
            case Found(_) => PhaseAt(ticks, next, required) == Recheck(confirmedAt)
            case LookupFailed(failure) => PhaseAt(ticks, next, required) == Stopped(failure)
            case NoAnswer => next == |ticks| && PhaseAt(ticks, next, required) == WaitFor(confirmedAt)
  {
    next := from;
    while next < |ticks|
      invariant from <= next <= |ticks|
      invariant PhaseAt(ticks, next, required) == WaitFor(confirmedAt)
    {
      var tick := ticks[next];
      next := next + 1;
      if tick.expired {
        return LookupFailed(TimedOut), next;
      }
      if tick.head.HeadAt? && tick.head.block >= block {
        return Found(tick.head.block), next;
      }
    }
    r := NoAnswer;
  }

  method WaitForConfirmations(ticks: seq<Tick>, required: nat) returns (r: Outcome)
    ensures match PhaseAt(ticks, |ticks|, required)
            case Done => r == Confirmed
            case Stopped(failure) => r == Failed(failure)
            case _ => r == StillWaiting
    ensures r.Failed? ==> exists n: nat :: FailsAt(ticks, n, r.failure)
    ensures r == StillWaiting ==> forall i :: 0 <= i < |ticks| ==> !ticks[i].expired
    ensures r == Confirmed ==> exists i: nat, j: nat, k: nat, block: nat :: Evidence(ticks, i, j, k, block, required)
  {
    FailureIsReal(ticks, |ticks|, required);
    var pos: nat := 0;
    while true
      invariant pos <= |ticks| && PhaseAt(ticks, pos, required) == Locate
      decreases |ticks| - pos
    {
      var lookup, next := TransactionConfirmedAt(ticks, pos, required);
      if !lookup.Found? {
        if lookup.NoAnswer? {
          return StillWaiting;
        }
        DecisionIsFinal(ticks, next, |ticks|, required);
        return Failed(lookup.failure);
      }
      var confirmedAt := lookup.block;
      pos := next;
      if confirmedAt == 0 {
        continue;
      }
      // Not below zero: the block is positive.
      var confirmationBlock: nat := confirmedAt + required - 1;
      lookup, next := WaitForBlock(ticks, pos, confirmationBlock, confirmedAt, required);
      if !lookup.Found? {
        if lookup.NoAnswer? {
          return StillWaiting;
        }
        DecisionIsFinal(ticks, next, |ticks|, required);
        return Failed(lookup.failure);
      }
      pos := next;
      lookup, next := TransactionConfirmedAt(ticks, pos, required);
      if !lookup.Found? {
        if lookup.NoAnswer? {
          return StillWaiting;
        }
        DecisionIsFinal(ticks, next, |ticks|, required);
        return Failed(lookup.failure);
      }
      pos := next;
      if lookup.block == confirmedAt {
        assert PhaseAt(ticks, pos, required) == Done;
        ConfirmedOnlyOnEvidence(ticks, pos, required);
        DecisionIsFinal(ticks, pos, |ticks|, required);
        return Confirmed;
      }
    }
  }

  lemma {:induction false} DecisionIsFinal(ticks: seq<Tick>, n: nat, later: nat, required: nat)
    requires n <= later <= |ticks|
    requires PhaseAt(ticks, n, required).Done? || PhaseAt(ticks, n, required).Stopped?
    ensures PhaseAt(ticks, later, required) == PhaseAt(ticks, n, required)
    decreases later
  {
    if n < later {
      DecisionIsFinal(ticks, n, later - 1, required);
    }
  }

  // ---------- what a failure proves ----------

  /**
   Tick `n` makes the wait fail: the deadline has passed, or it has not and the transaction's receipt says that it was
   reverted. Until then the deadline had not passed.
   */
  ghost predicate FailsAt(ticks: seq<Tick>, n: nat, failure: Failure) {
    && n < |ticks|
    && (forall m :: 0 <= m < n ==> !ticks[m].expired)
    && (if ticks[n].expired then failure == TimedOut else ticks[n].receipt == Reverted && failure == TxReverted)
  }

  /** A wait that fails does so at such a tick; one that goes on has not met an expired tick. */
  lemma {:induction false} FailureIsReal(ticks: seq<Tick>, n: nat, required: nat)
    requires n <= |ticks|
    ensures var phase := PhaseAt(ticks, n, required);
            && (phase.Stopped? ==> exists i: nat :: i < n && FailsAt(ticks, i, phase.failure))
            && (!phase.Stopped? && !phase.Done? ==> forall i :: 0 <= i < n ==> !ticks[i].expired)
  {
    if n > 0 {
      FailureIsReal(ticks, n - 1, required);
      var before, phase := PhaseAt(ticks, n - 1, required), PhaseAt(ticks, n, required);
      if phase.Stopped? && !before.Stopped? {
        assert FailsAt(ticks, n - 1, phase.failure);
      }
    }
  }

  /**
   A running wait fails exactly when the deadline has passed, or when it is looking for the transaction and finds it
   reverted. A receipt that is missing, pending or not available never ends it.
   */
  lemma FailsNowIff(ticks: seq<Tick>, n: nat, required: nat)
    requires n < |ticks|
    requires !PhaseAt(ticks, n, required).Done? && !PhaseAt(ticks, n, required).Stopped?
    ensures var looking := !PhaseAt(ticks, n, required).WaitFor?;
            && (PhaseAt(ticks, n + 1, required) == Stopped(TimedOut) <==> ticks[n].expired)
            && (PhaseAt(ticks, n + 1, required) == Stopped(TxReverted)
                <==> !ticks[n].expired && looking && ticks[n].receipt == Reverted)
            && (!ticks[n].expired && looking && ticks[n].receipt in {RequestFailed, NotFound, Pending} ==>
                  PhaseAt(ticks, n + 1, required) == PhaseAt(ticks, n, required))
  {
  }

  /** A transaction that is reverted when it is first found fails the wait, however long it was missing before. */
  lemma {:induction false} RevertedTransactionFails(ticks: seq<Tick>, n: nat, required: nat)
    requires n < |ticks| && !ticks[n].expired && ticks[n].receipt == Reverted
    requires forall m :: 0 <= m < n ==> !ticks[m].expired && ticks[m].receipt in {RequestFailed, NotFound, Pending}
    ensures PhaseAt(ticks, n, required) == Locate && PhaseAt(ticks, n + 1, required) == Stopped(TxReverted)
  {
    StillLocating(ticks, n, required);
  }

  lemma {:induction false} StillLocating(ticks: seq<Tick>, n: nat, required: nat)
    requires n <= |ticks|
    requires forall m :: 0 <= m < n ==> !ticks[m].expired && ticks[m].receipt in {RequestFailed, NotFound, Pending}
    ensures PhaseAt(ticks, n, required) == Locate
  {
    if n > 0 {
      StillLocating(ticks, n - 1, required);
    }
  }

  // ---------- what a confirmation proves ----------

  ghost predicate MinedInTime(tick: Tick, block: nat) {
    !tick.expired && tick.receipt == MinedAt(block)
  }

  /**
   Tick `i` placed the transaction in `block`, the later tick `j` saw a head that completes the
   confirmations, and tick `k`, after `j`, placed the transaction in the same block again. No answer
   between `i` and `j` showed such a head, and no receipt between `j` and `k` named a block. The deadline had not
   passed.
   */
  ghost predicate Evidence(ticks: seq<Tick>, i: nat, j: nat, k: nat, block: nat, required: nat) {
    && i < j < k < |ticks|
    && block > 0
    && (forall m :: 0 <= m <= k ==> !ticks[m].expired)
    && ticks[i].receipt == MinedAt(block)
    && HeadReaches(ticks[j], block + required - 1)
    && ticks[k].receipt == MinedAt(block)
    && (forall m :: i < m < j ==> !HeadReaches(ticks[m], block + required - 1))
    && (forall m :: j < m < k ==> !ticks[m].receipt.MinedAt? && ticks[m].receipt != Reverted)
  }

  ghost predicate HeadReaches(tick: Tick, height: int) {
    tick.head.HeadAt? && tick.head.block >= height
  }

  lemma {:induction false} WaitingSince(ticks: seq<Tick>, n: nat, required: nat) returns (i: nat)
    requires n <= |ticks| && PhaseAt(ticks, n, required).WaitFor?
    ensures var block := PhaseAt(ticks, n, required).block;
            && i < n && block > 0 && MinedInTime(ticks[i], block)
            && forall m :: i < m < n ==> !HeadReaches(ticks[m], block + required - 1)
  {
    if PhaseAt(ticks, n - 1, required).WaitFor? {
      i := WaitingSince(ticks, n - 1, required);
    } else {
      i := n - 1;
    }
  }

  lemma {:induction false} RecheckingSince(ticks: seq<Tick>, n: nat, required: nat) returns (i: nat, j: nat)
    requires n <= |ticks| && PhaseAt(ticks, n, required).Recheck?
    ensures var block := PhaseAt(ticks, n, required).block;
            && i < j < n && block > 0 && MinedInTime(ticks[i], block)
            && HeadReaches(ticks[j], block + required - 1)
            && (forall m :: i < m < j ==> !HeadReaches(ticks[m], block + required - 1))
            && (forall m :: j < m < n ==> !ticks[m].receipt.MinedAt? && ticks[m].receipt != Reverted)
  {
    if PhaseAt(ticks, n - 1, required).Recheck? {
      i, j := RecheckingSince(ticks, n - 1, required);
    } else {
      i := WaitingSince(ticks, n - 1, required);
      j := n - 1;
    }
  }

  /** A confirmation is reported only on such evidence. */
  lemma {:induction false} ConfirmedOnlyOnEvidence(ticks: seq<Tick>, n: nat, required: nat)
    requires n <= |ticks| && PhaseAt(ticks, n, required) == Done
    ensures exists i: nat, j: nat, k: nat, block: nat :: Evidence(ticks, i, j, k, block, required)
  {
    var before := PhaseAt(ticks, n - 1, required);
    if before.Done? {
      ConfirmedOnlyOnEvidence(ticks, n - 1, required);
    } else {
      var i, j := RecheckingSince(ticks, n - 1, required);
      FailureIsReal(ticks, n - 1, required);
      assert Evidence(ticks, i, j, n - 1, before.block, required);
    }
  }

  /**
   From tick `n` on the chain is settled: the transaction stays in `block`, and the head is high enough for it and for
   `other`.
   */
  ghost predicate Settled(ticks: seq<Tick>, n: nat, block: nat, other: nat, required: nat) {
    && block > 0 && n + 5 <= |ticks|
    && forall m :: n <= m < |ticks| ==>
         && MinedInTime(ticks[m], block)
         && HeadReaches(ticks[m], block + required - 1) && HeadReaches(ticks[m], other + required - 1)
  }

  /** Once the chain is settled, five more answers are enough, even if a reorganisation has to be noticed first. */
  lemma SettledChainConfirms(ticks: seq<Tick>, n: nat, block: nat, other: nat, required: nat)
    requires n <= |ticks| && Settled(ticks, n, block, other, required)
    requires !PhaseAt(ticks, n, required).Stopped?
    requires PhaseAt(ticks, n, required).WaitFor? ==> PhaseAt(ticks, n, required).block == other
    ensures PhaseAt(ticks, n + 5, required) == Done
  {
    assert PhaseAt(ticks, n + 1, required) == NextPhase(PhaseAt(ticks, n, required), ticks[n], required);
    assert PhaseAt(ticks, n + 2, required) == NextPhase(PhaseAt(ticks, n + 1, required), ticks[n + 1], required);
    assert PhaseAt(ticks, n + 3, required) == NextPhase(PhaseAt(ticks, n + 2, required), ticks[n + 2], required);
    assert PhaseAt(ticks, n + 4, required) == NextPhase(PhaseAt(ticks, n + 3, required), ticks[n + 3], required);
  }
}
