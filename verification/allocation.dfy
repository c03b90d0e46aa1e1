/**
  Settling one payment against a sequence of withdrawals, front to back: each
  record with a positive balance is paid down, in full while the payment lasts
  and partly when it runs out; whatever is left after the last record is the
  surplus that becomes credit.
 */
module Allocation {
  import opened Records

  /** The withdrawals after settlement and the part of the payment left over. */
  datatype Settlement = Settlement(withdrawals: seq<Withdrawal>, leftover: int)

  /** `after` is `before` paid down by some amount: the same debt; a balance that
      is zero or below is left exactly as it was; a positive balance ends between
      zero and where it started. */
  predicate PaidDown(before: Withdrawal, after: Withdrawal) {
    && SameDebt(before, after)
    && (before.remainingAmount <= 0 ==> after == before)
    && (before.remainingAmount > 0 ==> 0 <= after.remainingAmount <= before.remainingAmount)
  }

  /** What one pass of the loop body leaves: the record after payment and the
      part of the payment still to pay. */
  datatype Step = Step(record: Withdrawal, remaining: int)

  /** The loop body on one record, for a payment `p` not yet used up: a positive
      balance is cleared when `p` covers it and otherwise reduced by `p`, which
      then runs out; a balance of zero or below is skipped. */
  function PayOne(w: Withdrawal, p: int): (r: Step)
    requires p > 0
    ensures PaidDown(w, r.record) && 0 <= r.remaining <= p
    ensures w.remainingAmount - r.record.remainingAmount == p - r.remaining
    ensures Positive(w.remainingAmount) - Positive(r.record.remainingAmount) == p - r.remaining
    ensures r.remaining > 0 ==> r.record.remainingAmount <= 0
    ensures r.record.remainingAmount > 0 && r.record != w ==> r.remaining == 0
  {
    if w.remainingAmount > 0 then
      if p >= w.remainingAmount then Step(w.(remainingAmount := 0), p - w.remainingAmount)
      else Step(w.(remainingAmount := w.remainingAmount - p), 0)
    else Step(w, p)
  }

  /** The settlement loop of the payment operation, as a recursion over the
      withdrawals: while the payment is not used up, the loop body is applied
      to the next record. A payment that is zero or below (or one that has run
      out) stops the walk and leaves the rest of the records as they are. */
  function Settle(ws: seq<Withdrawal>, payment: int): (s: Settlement)
    ensures |s.withdrawals| == |ws|
    ensures payment <= 0 ==> s.withdrawals == ws && s.leftover == payment
    ensures payment > 0 ==> 0 <= s.leftover <= payment
  {
    if |ws| == 0 || payment <= 0 then Settlement(ws, payment)
    else
      var step := PayOne(ws[0], payment);
      Prepend([step.record], Settle(ws[1..], step.remaining))
  }

  /** `s` with `prefix` put in front of its withdrawals. */
  function Prepend(prefix: seq<Withdrawal>, s: Settlement): Settlement {
    Settlement(prefix + s.withdrawals, s.leftover)
  }

  /** A walk that goes on past its first record: that record is the loop body's
      result and the rest is the walk over the remaining records. */
  lemma SettleFirst(ws: seq<Withdrawal>, payment: int) returns (step: Step, rest: Settlement)
    requires |ws| > 0 && payment > 0
    ensures step == PayOne(ws[0], payment) && rest == Settle(ws[1..], step.remaining)
    ensures Settle(ws, payment).withdrawals[0] == step.record
    ensures Settle(ws, payment).withdrawals[1..] == rest.withdrawals
    ensures Settle(ws, payment).leftover == rest.leftover
    ensures forall k :: 1 <= k < |ws| ==>
      Settle(ws, payment).withdrawals[k] == rest.withdrawals[k - 1] && ws[k] == ws[1..][k - 1]
  {
    step := PayOne(ws[0], payment);
    rest := Settle(ws[1..], step.remaining);
    assert Settle(ws, payment).withdrawals == [step.record] + rest.withdrawals;
  }

  /** Each record is paid down and nothing else about it changes. */
  lemma {:induction false} SettlePaysDown(ws: seq<Withdrawal>, payment: int)
    ensures forall i :: 0 <= i < |ws| ==> PaidDown(ws[i], Settle(ws, payment).withdrawals[i])
  {
    if |ws| > 0 && payment > 0 {
      var step, rest := SettleFirst(ws, payment);
      SettlePaysDown(ws[1..], step.remaining);
    }
  }

  /** Conservation: what the balances drop by, plus what is left over, is the
      payment, whether the balances are counted in full or only where positive. */
  lemma {:induction false} SettleConserves(ws: seq<Withdrawal>, payment: int)
    requires payment > 0
    ensures var s := Settle(ws, payment);
      && Total(ws) - Total(s.withdrawals) == payment - s.leftover
      && Outstanding(ws) - Outstanding(s.withdrawals) == payment - s.leftover
  {
    if |ws| > 0 {
      var step, rest := SettleFirst(ws, payment);
      if step.remaining > 0 {
        SettleConserves(ws[1..], step.remaining);
      }
    }
  }

  /** The leftover is the part of the payment above what is outstanding: nothing
      is left while the payment covers at most the outstanding debt, and once it
      covers all of it, every balance ends at zero or below. */
  lemma {:induction false} SettleLeftover(ws: seq<Withdrawal>, payment: int)
    requires payment > 0
    ensures var s := Settle(ws, payment);
      && (payment <= Outstanding(ws) ==> s.leftover == 0)
      && (payment > Outstanding(ws) ==> s.leftover == payment - Outstanding(ws))
      && (payment >= Outstanding(ws) ==> forall i :: 0 <= i < |ws| ==> s.withdrawals[i].remainingAmount <= 0)
  {
    var s := Settle(ws, payment);
    SettleConserves(ws, payment);
    OutstandingIsNonNegative(s.withdrawals);
    SettleSurplusClears(ws, payment);
    if payment >= Outstanding(ws) {
      SettleExhausts(ws, payment);
    }
  }

  /** A payment with something left over has cleared every balance. */
  lemma {:induction false} SettleSurplusClears(ws: seq<Withdrawal>, payment: int)
    requires payment > 0
    ensures Settle(ws, payment).leftover > 0 ==>
      forall i :: 0 <= i < |ws| ==> Settle(ws, payment).withdrawals[i].remainingAmount <= 0
  {
    if |ws| > 0 {
      var step, rest := SettleFirst(ws, payment);
      if step.remaining > 0 {
        SettleSurplusClears(ws[1..], step.remaining);
      }
    }
  }

  /** A payment at least as large as the outstanding debt clears every balance. */
  lemma {:induction false} SettleExhausts(ws: seq<Withdrawal>, payment: int)
    requires payment > 0 && payment >= Outstanding(ws)
    ensures forall i :: 0 <= i < |ws| ==> Settle(ws, payment).withdrawals[i].remainingAmount <= 0
  {
    if |ws| > 0 {
      var step, rest := SettleFirst(ws, payment);
      OutstandingIsNonNegative(ws[1..]);
      if step.remaining > 0 {
        SettleExhausts(ws[1..], step.remaining);
      }
    }
  }

  /** Oldest first: a record's balance is reduced only when every record before
      it ends at zero or below; a record left partly paid ends the walk, so every
      record after it is unchanged and nothing is left over. */
  lemma {:induction false} SettleOldestFirst(ws: seq<Withdrawal>, payment: int)
    ensures var s := Settle(ws, payment);
      && (forall i, j :: 0 <= i < j < |ws| && s.withdrawals[j].remainingAmount < ws[j].remainingAmount
            ==> s.withdrawals[i].remainingAmount <= 0)
      && (forall i :: 0 <= i < |ws| && 0 < s.withdrawals[i].remainingAmount < ws[i].remainingAmount
            ==> s.leftover == 0 && s.withdrawals[i + 1..] == ws[i + 1..])
  {
    SettleReducesInOrder(ws, payment);
    SettlePartialStops(ws, payment);
  }

  /** The first half of oldest first: reduction happens only behind cleared records. */
  lemma {:induction false} SettleReducesInOrder(ws: seq<Withdrawal>, payment: int)
    ensures var s := Settle(ws, payment);
      forall i, j :: 0 <= i < j < |ws| && s.withdrawals[j].remainingAmount < ws[j].remainingAmount
        ==> s.withdrawals[i].remainingAmount <= 0
  {
    if |ws| > 0 && payment > 0 {
      var s := Settle(ws, payment).withdrawals;
      var step, rest := SettleFirst(ws, payment);
      SettleReducesInOrder(ws[1..], step.remaining);
      forall i, j | 0 <= i < j < |ws| && s[j].remainingAmount < ws[j].remainingAmount
        ensures s[i].remainingAmount <= 0
      {
        assert s[j] == rest.withdrawals[j - 1] && ws[j] == ws[1..][j - 1];
        if i > 0 {
          assert s[i] == rest.withdrawals[i - 1];
        }
      }
    }
  }

  /** The second half of oldest first: a partly paid record ends the walk. */
  lemma {:induction false} SettlePartialStops(ws: seq<Withdrawal>, payment: int)
    ensures var s := Settle(ws, payment);
      forall i :: 0 <= i < |ws| && 0 < s.withdrawals[i].remainingAmount < ws[i].remainingAmount
        ==> s.leftover == 0 && s.withdrawals[i + 1..] == ws[i + 1..]
  {
    if |ws| > 0 && payment > 0 {
      var s := Settle(ws, payment);
      var step, rest := SettleFirst(ws, payment);
      SettlePartialStops(ws[1..], step.remaining);
      forall i | 0 <= i < |ws| && 0 < s.withdrawals[i].remainingAmount < ws[i].remainingAmount
        ensures s.leftover == 0 && s.withdrawals[i + 1..] == ws[i + 1..]
      {
        if i > 0 {
          assert s.withdrawals[i] == rest.withdrawals[i - 1] && ws[i] == ws[1..][i - 1];
          assert s.withdrawals[i + 1..] == rest.withdrawals[i..];
          assert ws[i + 1..] == ws[1..][i..];
        }
      }
    }
  }

  /** Oldest first, as a relation between the records before and after: a
      record is paid down only if every record before it ends at zero or below. */
  predicate OldestFirst(before: seq<Withdrawal>, after: seq<Withdrawal>)
    requires |before| == |after|
  {
    forall i, j :: 0 <= i < j < |after| && after[j].remainingAmount < before[j].remainingAmount
      ==> after[i].remainingAmount <= 0
  }

  /** What a settlement of a positive `payment` must achieve, stated without
      saying how: every record is paid down, oldest first, and the outstanding
      debt falls by the payment, or by all of it when the payment is larger. */
  predicate GreedyOutcome(before: seq<Withdrawal>, after: seq<Withdrawal>, payment: int) {
    && |after| == |before|
    && (forall i :: 0 <= i < |before| ==> PaidDown(before[i], after[i]))
    && OldestFirst(before, after)
    && Outstanding(before) - Outstanding(after)
         == (if payment <= Outstanding(before) then payment else Outstanding(before))
  }

  /** The settlement walk is characterised by what it achieves: for a positive
      payment, a sequence of records is the outcome of `Settle` exactly when it
      meets `GreedyOutcome`. */
  lemma SettleIsTheGreedyOutcome(before: seq<Withdrawal>, after: seq<Withdrawal>, payment: int)
    requires payment > 0
    ensures GreedyOutcome(before, after, payment) <==> after == Settle(before, payment).withdrawals
  {
    var s := Settle(before, payment);
    SettlePaysDown(before, payment);
    SettleOldestFirst(before, payment);
    SettleConserves(before, payment);
    SettleLeftover(before, payment);
    assert GreedyOutcome(before, s.withdrawals, payment);
    if GreedyOutcome(before, after, payment) {
      GreedyOutcomeIsUnique(before, after, payment);
    }
  }

  lemma SameDebtSameBalance(a: Withdrawal, b: Withdrawal)
    requires SameDebt(a, b) && a.remainingAmount == b.remainingAmount
    ensures a == b
  {
    assert a == Issued(a).(remainingAmount := a.remainingAmount);
    assert b == Issued(b).(remainingAmount := b.remainingAmount);
  }

  /** Paying down never raises the outstanding debt, and leaves it unchanged
      only when no record changed. */
  lemma {:induction false} PaidDownShrinks(before: seq<Withdrawal>, after: seq<Withdrawal>)
    requires |before| == |after|
    requires forall i :: 0 <= i < |before| ==> PaidDown(before[i], after[i])
    ensures Outstanding(after) <= Outstanding(before)
    ensures Outstanding(after) == Outstanding(before) ==> after == before
  {
    if |before| > 0 {
      assert forall i :: 0 <= i < |before| - 1 ==> before[1..][i] == before[i + 1] && after[1..][i] == after[i + 1];
      PaidDownShrinks(before[1..], after[1..]);
      if Outstanding(after) == Outstanding(before) {
        if before[0].remainingAmount > 0 {
          SameDebtSameBalance(before[0], after[0]);
        }
        assert after == [after[0]] + after[1..];
        assert before == [before[0]] + before[1..];
      }
    }
  }

  /** Once the first record stays positive, oldest-first forbids touching the rest. */
  lemma RestUntouched(before: seq<Withdrawal>, after: seq<Withdrawal>)
    requires |before| == |after| > 0
    requires forall i :: 0 <= i < |before| ==> PaidDown(before[i], after[i])
    requires OldestFirst(before, after)
    requires after[0].remainingAmount > 0
    ensures after[1..] == before[1..]
  {
    forall j | 1 <= j < |after|
      ensures after[j] == before[j]
    {
      if before[j].remainingAmount > 0 {
        SameDebtSameBalance(before[j], after[j]);
      }
    }
  }

  /** The paid-down and oldest-first relations pass from a sequence to its tail. */
  lemma GreedyTail(before: seq<Withdrawal>, after: seq<Withdrawal>)
    requires |before| == |after| > 0
    requires forall i :: 0 <= i < |before| ==> PaidDown(before[i], after[i])
    requires OldestFirst(before, after)
    ensures forall i :: 0 <= i < |before| - 1 ==> PaidDown(before[1..][i], after[1..][i])
    ensures OldestFirst(before[1..], after[1..])
    ensures Outstanding(before) == Positive(before[0].remainingAmount) + Outstanding(before[1..])
    ensures Outstanding(after) == Positive(after[0].remainingAmount) + Outstanding(after[1..])
  {
    var tail, tail' := before[1..], after[1..];
    assert forall i :: 0 <= i < |tail| ==> tail[i] == before[i + 1] && tail'[i] == after[i + 1];
    forall i, j | 0 <= i < j < |tail'| && tail'[j].remainingAmount < tail[j].remainingAmount
      ensures tail'[i].remainingAmount <= 0
    {
      assert after[j + 1].remainingAmount < before[j + 1].remainingAmount;
    }
  }

  /** A positive payment that covers the first positive balance must clear it. */
  lemma GreedyClearsFirst(before: seq<Withdrawal>, after: seq<Withdrawal>, payment: int)
    requires payment > 0 && GreedyOutcome(before, after, payment)
    requires |before| > 0 && 0 < before[0].remainingAmount <= payment
    ensures after[0] == before[0].(remainingAmount := 0)
  {
    GreedyTail(before, after);
    OutstandingIsNonNegative(before[1..]);
    if after[0].remainingAmount > 0 {
      RestUntouched(before, after);
      assert false;
    }
    SameDebtSameBalance(before[0].(remainingAmount := 0), after[0]);
  }

  /** A positive payment smaller than the first positive balance pays only it down. */
  lemma GreedyStopsAtFirst(before: seq<Withdrawal>, after: seq<Withdrawal>, payment: int)
    requires payment > 0 && GreedyOutcome(before, after, payment)
    requires |before| > 0 && payment < before[0].remainingAmount
    ensures after == [before[0].(remainingAmount := before[0].remainingAmount - payment)] + before[1..]
  {
    GreedyTail(before, after);
    PaidDownShrinks(before[1..], after[1..]);
    OutstandingIsNonNegative(before[1..]);
    if after[0].remainingAmount > 0 {
      RestUntouched(before, after);
      SameDebtSameBalance(before[0].(remainingAmount := before[0].remainingAmount - payment), after[0]);
      assert after == [after[0]] + after[1..];
    } else {
      assert false;
    }
  }

  /** A greedy outcome takes the loop body's step on its first record, and what
      follows is the greedy outcome of what is left of the payment (or the rest
      untouched, once the payment has run out). */
  lemma GreedyStep(before: seq<Withdrawal>, after: seq<Withdrawal>, payment: int)
    requires payment > 0 && GreedyOutcome(before, after, payment) && |before| > 0
    ensures var step := PayOne(before[0], payment);
      && after[0] == step.record
      && (step.remaining > 0 ==> GreedyOutcome(before[1..], after[1..], step.remaining))
      && (step.remaining == 0 ==> after[1..] == before[1..])
  {
    var w := before[0];
    var tail, tail' := before[1..], after[1..];
    GreedyTail(before, after);
    PaidDownShrinks(tail, tail');
    OutstandingIsNonNegative(tail);
    if w.remainingAmount <= 0 {
      assert GreedyOutcome(tail, tail', payment);
    } else if payment >= w.remainingAmount {
      GreedyClearsFirst(before, after, payment);
    } else {
      GreedyStopsAtFirst(before, after, payment);
    }
  }

  /** There is only one greedy outcome, and the walk produces it. */
  lemma {:induction false} GreedyOutcomeIsUnique(before: seq<Withdrawal>, after: seq<Withdrawal>, payment: int)
    requires payment > 0
    requires GreedyOutcome(before, after, payment)
    ensures after == Settle(before, payment).withdrawals
    decreases |before|
  {
    if |before| > 0 {
      var step, rest := SettleFirst(before, payment);
      GreedyStep(before, after, payment);
      if step.remaining > 0 {
        GreedyOutcomeIsUnique(before[1..], after[1..], step.remaining);
      }
      assert after == [after[0]] + after[1..];
      assert Settle(before, payment).withdrawals == [step.record] + rest.withdrawals;
    }
  }

  /** The invariant of `SettleInPlace` after `i` records: the records from `i`
      on are untouched, and the walk over them with what is left of the payment,
      put behind the records done so far, gives the whole walk's result `target`. */
  predicate WalkState(sorted: seq<Withdrawal>, target: Settlement, i: nat, ws: seq<Withdrawal>, p: int) {
    && i <= |ws| == |sorted|
    && ws[i..] == sorted[i..]
    && target == Prepend(ws[..i], Settle(sorted[i..], p))
  }

  /** The loop body of `SettleInPlace` keeps its invariant. */
  lemma WalkStep(sorted: seq<Withdrawal>, target: Settlement, i: nat, ws: seq<Withdrawal>, p: int)
    requires WalkState(sorted, target, i, ws, p) && i < |ws| && p > 0
    ensures var step := PayOne(ws[i], p);
      WalkState(sorted, target, i + 1, ws[i := step.record], step.remaining)
  {
    var step := PayOne(ws[i], p);
    SliceStep(sorted, ws, i, step.record);
    var done := Settle(sorted[i + 1..], step.remaining).withdrawals;
    assert Settle(sorted[i..], p) == Prepend([step.record], Settle(sorted[i + 1..], step.remaining));
    assert ws[..i] + ([step.record] + done) == (ws[..i] + [step.record]) + done;
  }

  /** How the slices of the invariant move when index `i` is overwritten. */
  lemma SliceStep(sorted: seq<Withdrawal>, ws: seq<Withdrawal>, i: nat, x: Withdrawal)
    requires i < |ws| == |sorted| && ws[i..] == sorted[i..]
    ensures sorted[i..][0] == ws[i] && sorted[i..][1..] == sorted[i + 1..]
    ensures ws[i := x][..i + 1] == ws[..i] + [x]
    ensures ws[i := x][i + 1..] == sorted[i + 1..]
  {
    assert ws[i := x][i + 1..] == ws[i + 1..] == sorted[i..][1..];
  }

  /** Where the walk stops, the rest of the records are as they were. */
  lemma WalkDone(sorted: seq<Withdrawal>, target: Settlement, i: nat, ws: seq<Withdrawal>, p: int)
    requires WalkState(sorted, target, i, ws, p)
    requires i == |ws| || p <= 0
    ensures target == Settlement(ws, p)
  {
    assert ws == ws[..i] + ws[i..];
  }

  /** The loop body as the source writes it, on the record at index `i` of
      `ws` with `paymentRemaining` still to pay: only that record changes; it is
      paid down by exactly what the payment loses; and if any payment remains,
      the record has been cleared. */
  method PayAt(ws: seq<Withdrawal>, i: nat, paymentRemaining: int) returns (ws': seq<Withdrawal>, p': int)
    requires i < |ws| && paymentRemaining > 0
    ensures |ws'| == |ws| && ws' == ws[i := ws'[i]]
    ensures PaidDown(ws[i], ws'[i]) && 0 <= p' <= paymentRemaining
    ensures ws[i].remainingAmount - ws'[i].remainingAmount == paymentRemaining - p'
    ensures p' > 0 ==> ws'[i].remainingAmount <= 0
  {
    var w := ws[i];
    ws', p' := ws, paymentRemaining;
    if w.remainingAmount > 0 {
      if paymentRemaining >= w.remainingAmount {
        p' := paymentRemaining - w.remainingAmount;
        ws' := ws[i := w.(remainingAmount := 0)];
      } else {
        ws' := ws[i := w.(remainingAmount := w.remainingAmount - paymentRemaining)];
        p' := 0;
      }
    } else {
      assert ws == ws[i := w];
    }
  }

  /** The loop body is determined by what it achieves: a record paid down by
      exactly what the payment loses, cleared whenever some payment remains, is
      the record `PayOne` produces, and what remains is what `PayOne` leaves. */
  lemma PayOneIsDetermined(w: Withdrawal, p: int, x: Withdrawal, p': int)
    requires p > 0
    requires PaidDown(w, x) && 0 <= p' <= p
    requires w.remainingAmount - x.remainingAmount == p - p'
    requires p' > 0 ==> x.remainingAmount <= 0
    ensures PayOne(w, p) == Step(x, p')
  {
    if w.remainingAmount > 0 {
      if p >= w.remainingAmount {
        SameDebtSameBalance(w.(remainingAmount := 0), x);
      } else {
        SameDebtSameBalance(w.(remainingAmount := w.remainingAmount - p), x);
      }
    }
  }

  /** The settlement loop as the source writes it: an index walk over the
      (already sorted) withdrawals that stops as soon as the payment is used up,
      rewriting balances in place. It computes exactly `Settle`. */
  method SettleInPlace(sorted: seq<Withdrawal>, amount: int) returns (ws: seq<Withdrawal>, paymentRemaining: int)
    ensures Settlement(ws, paymentRemaining) == Settle(sorted, amount)
  {
    ws := sorted;
    paymentRemaining := amount;
    ghost var target := Settle(sorted, amount);
    assert WalkState(sorted, target, 0, ws, paymentRemaining) by {
      assert sorted[..0] + target.withdrawals == target.withdrawals;
    }
    var i := 0;
    while i < |ws|
      invariant WalkState(sorted, target, i, ws, paymentRemaining)
      decreases |ws| - i
    {
      if paymentRemaining <= 0 {
        break;
      }
      WalkStep(sorted, target, i, ws, paymentRemaining);
      ghost var (ws0, p0) := (ws, paymentRemaining);
      ws, paymentRemaining := PayAt(ws, i, paymentRemaining);
      PayOneIsDetermined(ws0[i], p0, ws[i], paymentRemaining);
      i := i + 1;
    }
    WalkDone(sorted, target, i, ws, paymentRemaining);
  }
}
