/**
  The credit tracker's two recording operations and its derived statistics,
  over an explicit ledger value: recording a withdrawal appends a debt;
  recording a payment re-sorts the debts oldest first, settles the payment
  against them, turns any surplus into credit and logs the payment.
 */
module CreditTracker {
  import opened Records
  import opened DateSort
  import opened Allocation

  /** `upcoming7Days` counts balances falling due at most this many days ahead. */
  const UpcomingWindowDays: int := 7

  // ---------------------------------------------------------------------------
  // Recording a withdrawal

  /** Appends a new debt whose balance is its full amount and which falls due
      thirty days after its date. The amount is not checked. */
  function AddWithdrawal(l: Ledger, id: string, amount: int, date: Day, note: string): (r: Ledger)
    ensures |r.withdrawals| == |l.withdrawals| + 1
    ensures r.withdrawals[..|l.withdrawals|] == l.withdrawals
    ensures var w := r.withdrawals[|l.withdrawals|];
      && w.id == id && w.amount == amount && w.date == date && w.note == note
      && w.remainingAmount == w.amount
      && w.dueDate == w.date + DueAfterDays
    ensures r.payments == l.payments
    ensures r.creditBalance == l.creditBalance
  {
    var w := Withdrawal(id, amount, amount, date, note, date + DueAfterDays);
    assert (l.withdrawals + [w])[..|l.withdrawals|] == l.withdrawals;
    l.(withdrawals := l.withdrawals + [w])
  }

  // ---------------------------------------------------------------------------
  // Recording a payment

  /** The credit after a settlement: only a positive leftover is added. */
  function CreditAfter(credit: int, leftover: int): (c: int)
    ensures c >= credit
  {
    if leftover > 0 then credit + leftover else credit
  }

  /** Sorts the withdrawals oldest first, settles `amount` against them in that
      order, adds any surplus to the credit and logs the payment at the end. The
      withdrawals of the result are the sorted ones, each paid down. */
  function AddPayment(l: Ledger, id: string, amount: int, date: Day): (r: Ledger)
    ensures |r.withdrawals| == |l.withdrawals|
    ensures SortedByDate(r.withdrawals)
    ensures multiset(IssuedAll(r.withdrawals)) == multiset(IssuedAll(l.withdrawals))
    ensures forall i :: 0 <= i < |r.withdrawals| ==> PaidDown(SortByDate(l.withdrawals)[i], r.withdrawals[i])
    ensures r.payments == l.payments + [Payment(id, amount, date)]
    ensures r.creditBalance >= l.creditBalance
  {
    var sorted := SortByDate(l.withdrawals);
    var s := Settle(sorted, amount);
    SettlePaysDown(sorted, amount);
    assert IssuedAll(s.withdrawals) == IssuedAll(sorted);
    IssuedOfPermutation(sorted, l.withdrawals);
    Ledger(s.withdrawals, l.payments + [Payment(id, amount, date)], CreditAfter(l.creditBalance, s.leftover))
  }

  /** Unfolds `AddPayment` for worked examples. */
  lemma AddPaymentUnfold(l: Ledger, id: string, amount: int, date: Day)
    ensures AddPayment(l, id, amount, date).withdrawals == Settle(SortByDate(l.withdrawals), amount).withdrawals
    ensures AddPayment(l, id, amount, date).creditBalance
      == CreditAfter(l.creditBalance, Settle(SortByDate(l.withdrawals), amount).leftover)
  {
  }

  // ---------------------------------------------------------------------------
  // Statistics

  function TotalDebt(l: Ledger): int {
    Total(l.withdrawals)
  }

  function NetDebt(l: Ledger): int {
    TotalDebt(l) - l.creditBalance
  }

  /** A record counted by `upcoming7Days`: still owed and due within the window,
      which includes every overdue record. */
  predicate DueSoon(w: Withdrawal, today: Day) {
    w.remainingAmount > 0 && w.dueDate - today <= UpcomingWindowDays
  }

  /** The records that are due soon, in order. */
  function DueSoonOnly(ws: seq<Withdrawal>, today: Day): seq<Withdrawal> {
    if |ws| == 0 then []
    else if DueSoon(ws[0], today) then [ws[0]] + DueSoonOnly(ws[1..], today)
    else DueSoonOnly(ws[1..], today)
  }

  function Upcoming(ws: seq<Withdrawal>, today: Day): int {
    Total(DueSoonOnly(ws, today))
  }

  datatype Stats = Stats(totalDebt: int, creditBalance: int, netDebt: int, upcoming7Days: int)

  /** The dashboard figures, read against an explicit `today` in place of the
      wall clock. */
  function GetStats(l: Ledger, today: Day): (s: Stats)
    ensures s.creditBalance == l.creditBalance
    ensures s.netDebt == s.totalDebt - s.creditBalance
    ensures 0 <= s.upcoming7Days <= Outstanding(l.withdrawals)
    ensures AllValid(l.withdrawals) ==> 0 <= s.upcoming7Days <= s.totalDebt
  {
    UpcomingBounds(l.withdrawals, today);
    ValidDebtIsOutstanding(l.withdrawals);
    Stats(TotalDebt(l), l.creditBalance, NetDebt(l), Upcoming(l.withdrawals, today))
  }

  /** On valid records the total debt is what is outstanding. */
  lemma ValidDebtIsOutstanding(ws: seq<Withdrawal>)
    ensures AllValid(ws) ==> Outstanding(ws) == Total(ws)
  {
    if AllValid(ws) {
      OutstandingOfNonNegative(ws);
    }
  }

  lemma {:induction false} UpcomingBounds(ws: seq<Withdrawal>, today: Day)
    ensures 0 <= Upcoming(ws, today) <= Outstanding(ws)
  {
    if |ws| > 0 {
      UpcomingBounds(ws[1..], today);
      if DueSoon(ws[0], today) {
        assert ([ws[0]] + DueSoonOnly(ws[1..], today))[1..] == DueSoonOnly(ws[1..], today);
      }
    }
  }

  /** A record's contribution to `upcoming7Days`. */
  function UpcomingPart(w: Withdrawal, today: Day): int {
    if DueSoon(w, today) then w.remainingAmount else 0
  }

  lemma UpcomingFront(ws: seq<Withdrawal>, today: Day)
    requires |ws| > 0
    ensures Upcoming(ws, today) == UpcomingPart(ws[0], today) + Upcoming(ws[1..], today)
  {
    if DueSoon(ws[0], today) {
      assert ([ws[0]] + DueSoonOnly(ws[1..], today))[1..] == DueSoonOnly(ws[1..], today);
    }
  }

  /** As the clock advances, more records fall inside the window and none leaves
      it, so the figure never shrinks. */
  lemma {:induction false} UpcomingGrowsWithTime(ws: seq<Withdrawal>, today: Day, later: Day)
    requires today <= later
    ensures Upcoming(ws, today) <= Upcoming(ws, later)
  {
    if |ws| > 0 {
      UpcomingFront(ws, today);
      UpcomingFront(ws, later);
      UpcomingGrowsWithTime(ws[1..], today, later);
    }
  }

  /** When every record is due within the window, the figure is the whole
      outstanding debt; when none is, it is zero. */
  lemma {:induction false} UpcomingExtremes(ws: seq<Withdrawal>, today: Day)
    ensures (forall i :: 0 <= i < |ws| ==> ws[i].dueDate - today <= UpcomingWindowDays)
      ==> Upcoming(ws, today) == Outstanding(ws)
    ensures (forall i :: 0 <= i < |ws| ==> ws[i].dueDate - today > UpcomingWindowDays)
      ==> Upcoming(ws, today) == 0
  {
    if |ws| > 0 {
      UpcomingFront(ws, today);
      UpcomingExtremes(ws[1..], today);
      assert forall i :: 1 <= i < |ws| ==> ws[i] == ws[1..][i - 1];
    }
  }

  lemma DueSoonAppend(a: seq<Withdrawal>, b: seq<Withdrawal>, today: Day)
    ensures DueSoonOnly(a + b, today) == DueSoonOnly(a, today) + DueSoonOnly(b, today)
  {
    if |a| > 0 {
      assert (a + b)[1..] == a[1..] + b;
      DueSoonAppend(a[1..], b, today);
    } else {
      assert a + b == b;
    }
  }

  /** The records due soon depend only on the multiset of records. */
  lemma {:induction false} DueSoonOfPermutation(a: seq<Withdrawal>, b: seq<Withdrawal>, today: Day)
    requires multiset(a) == multiset(b)
    ensures multiset(DueSoonOnly(a, today)) == multiset(DueSoonOnly(b, today))
    decreases |a|
  {
    if |a| == 0 {
      assert |b| == |multiset(b)| == 0;
    } else {
      assert a == [a[0]] + a[1..];
      var k := PermutationSplit(a[0], a[1..], b);
      DueSoonOfPermutation(a[1..], b[..k] + b[k + 1..], today);
      DueSoonAppend([a[0]], a[1..], today);
      DueSoonAppend(b[..k], b[k + 1..], today);
      DueSoonAppend(b[..k] + [a[0]], b[k + 1..], today);
      DueSoonAppend(b[..k], [a[0]], today);
    }
  }

  /** Reordering the records does not change any of the figures. */
  lemma StatsOfPermutation(a: seq<Withdrawal>, b: seq<Withdrawal>, today: Day)
    requires multiset(a) == multiset(b)
    ensures Total(a) == Total(b)
    ensures Upcoming(a, today) == Upcoming(b, today)
  {
    SumsOfPermutation(a, b);
    DueSoonOfPermutation(a, b, today);
    SumsOfPermutation(DueSoonOnly(a, today), DueSoonOnly(b, today));
  }

  /** Paying records down, position by position, never raises the figure. */
  lemma {:induction false} UpcomingOfPaidDown(before: seq<Withdrawal>, after: seq<Withdrawal>, today: Day)
    requires |before| == |after|
    requires forall i :: 0 <= i < |before| ==> PaidDown(before[i], after[i])
    ensures Upcoming(after, today) <= Upcoming(before, today)
  {
    if |before| > 0 {
      UpcomingFront(before, today);
      UpcomingFront(after, today);
      assert forall i :: 0 <= i < |before| - 1 ==> before[1..][i] == before[i + 1] && after[1..][i] == after[i + 1];
      UpcomingOfPaidDown(before[1..], after[1..], today);
      assert Issued(before[0]).dueDate == Issued(after[0]).dueDate;
    }
  }

  // ---------------------------------------------------------------------------
  // What the operations do to the money

  /** Recording a withdrawal adds its amount to the debt and to the net debt. */
  lemma WithdrawalAddsDebt(l: Ledger, id: string, amount: int, date: Day, note: string)
    ensures var r := AddWithdrawal(l, id, amount, date, note);
      && TotalDebt(r) == TotalDebt(l) + amount
      && NetDebt(r) == NetDebt(l) + amount
  {
    var r := AddWithdrawal(l, id, amount, date, note);
    var w := r.withdrawals[|l.withdrawals|];
    assert r.withdrawals == l.withdrawals + [w];
    SumsAppend(l.withdrawals, [w]);
  }

  /** A new withdrawal counts towards `upcoming7Days` exactly when its amount
      is positive and it falls due within the window. */
  lemma WithdrawalUpcoming(l: Ledger, id: string, amount: int, date: Day, note: string, today: Day)
    ensures Upcoming(AddWithdrawal(l, id, amount, date, note).withdrawals, today)
      == Upcoming(l.withdrawals, today)
         + (if amount > 0 && date + DueAfterDays - today <= UpcomingWindowDays then amount else 0)
  {
    var r := AddWithdrawal(l, id, amount, date, note);
    var w := r.withdrawals[|l.withdrawals|];
    assert r.withdrawals == l.withdrawals + [w];
    DueSoonAppend(l.withdrawals, [w], today);
    assert DueSoonOnly([w], today) == if DueSoon(w, today) then [w] else [];
    SumsAppend(DueSoonOnly(l.withdrawals, today), DueSoonOnly([w], today));
  }

  /** Conservation: for a positive payment, the drop in the total debt plus the
      rise in credit is exactly the amount paid, so the net debt falls by exactly
      that amount; a payment of zero or below changes neither. */
  lemma PaymentConserves(l: Ledger, id: string, amount: int, date: Day)
    ensures var r := AddPayment(l, id, amount, date);
      && (amount > 0 ==> (TotalDebt(l) - TotalDebt(r)) + (r.creditBalance - l.creditBalance) == amount)
      && (amount <= 0 ==> TotalDebt(r) == TotalDebt(l) && r.creditBalance == l.creditBalance)
      && NetDebt(r) == NetDebt(l) - Positive(amount)
  {
    var sorted := SortByDate(l.withdrawals);
    SumsOfPermutation(sorted, l.withdrawals);
    if amount > 0 {
      SettleConserves(sorted, amount);
    }
  }

  /** The surplus rule: a payment no larger than what is outstanding leaves the
      credit alone; a larger one adds exactly the excess to the credit; and a
      payment that covers everything outstanding clears every balance. */
  lemma PaymentCredit(l: Ledger, id: string, amount: int, date: Day)
    ensures var r := AddPayment(l, id, amount, date);
      var owed := Outstanding(l.withdrawals);
      && (amount <= owed ==> r.creditBalance == l.creditBalance)
      && (amount > owed ==> r.creditBalance == l.creditBalance + amount - owed)
      && (amount >= owed ==> forall i :: 0 <= i < |r.withdrawals| ==> r.withdrawals[i].remainingAmount <= 0)
  {
    var sorted := SortByDate(l.withdrawals);
    SumsOfPermutation(sorted, l.withdrawals);
    OutstandingIsNonNegative(sorted);
    if amount > 0 {
      SettleLeftover(sorted, amount);
    }
  }

  /** Oldest first, in the order the payment leaves the ledger in: a record is
      paid down only if every earlier record ends at zero or below, and a record
      left partly paid is followed only by records the payment did not touch. */
  lemma PaymentOldestFirst(l: Ledger, id: string, amount: int, date: Day)
    ensures var before := SortByDate(l.withdrawals);
      var after := AddPayment(l, id, amount, date).withdrawals;
      && (forall i, j :: 0 <= i < j < |after| && after[j].remainingAmount < before[j].remainingAmount
            ==> after[i].remainingAmount <= 0)
      && (forall i :: 0 <= i < |after| && 0 < after[i].remainingAmount < before[i].remainingAmount
            ==> after[i + 1..] == before[i + 1..])
  {
    SettleOldestFirst(SortByDate(l.withdrawals), amount);
  }

  /** For a positive payment, the records it leaves are the one outcome that
      pays the date-sorted records down oldest first by the payment, or by all
      that is outstanding when the payment is larger. */
  lemma PaymentIsGreedy(l: Ledger, id: string, amount: int, date: Day)
    requires amount > 0
    ensures GreedyOutcome(SortByDate(l.withdrawals), AddPayment(l, id, amount, date).withdrawals, amount)
  {
    var sorted := SortByDate(l.withdrawals);
    SettleIsTheGreedyOutcome(sorted, Settle(sorted, amount).withdrawals, amount);
  }

  /** On a valid ledger, in the ledger's own figures: a payment up to the total
      debt lowers it by exactly the payment and leaves the credit alone; a larger
      one settles every record to zero and credits the excess. */
  lemma PaymentOnValidLedger(l: Ledger, id: string, amount: int, date: Day)
    requires Valid(l) && amount > 0
    ensures var r := AddPayment(l, id, amount, date);
      && (amount <= TotalDebt(l) ==> TotalDebt(r) == TotalDebt(l) - amount && r.creditBalance == l.creditBalance)
      && (amount > TotalDebt(l) ==>
            && TotalDebt(r) == 0
            && (forall i :: 0 <= i < |r.withdrawals| ==> r.withdrawals[i].remainingAmount == 0)
            && r.creditBalance == l.creditBalance + amount - TotalDebt(l))
  {
    var r := AddPayment(l, id, amount, date);
    ValidDebtIsOutstanding(l.withdrawals);
    PaymentConserves(l, id, amount, date);
    PaymentCredit(l, id, amount, date);
    PaymentKeepsValid(l, id, amount, date);
  }

  /** A payment never raises the amount falling due within the window. */
  lemma PaymentNeverRaisesUpcoming(l: Ledger, id: string, amount: int, date: Day, today: Day)
    ensures Upcoming(AddPayment(l, id, amount, date).withdrawals, today) <= Upcoming(l.withdrawals, today)
  {
    var sorted := SortByDate(l.withdrawals);
    StatsOfPermutation(sorted, l.withdrawals, today);
    UpcomingOfPaidDown(sorted, AddPayment(l, id, amount, date).withdrawals, today);
  }

  // ---------------------------------------------------------------------------
  // The ledger invariant

  /** A withdrawal of a non-negative amount keeps the ledger valid. */
  lemma WithdrawalKeepsValid(l: Ledger, id: string, amount: int, date: Day, note: string)
    requires Valid(l) && amount >= 0
    ensures Valid(AddWithdrawal(l, id, amount, date, note))
  {
    var r := AddWithdrawal(l, id, amount, date, note);
    assert forall i :: 0 <= i < |l.withdrawals| ==> r.withdrawals[i] == r.withdrawals[..|l.withdrawals|][i];
  }

  /** A payment of any amount keeps the ledger valid. */
  lemma PaymentKeepsValid(l: Ledger, id: string, amount: int, date: Day)
    requires Valid(l)
    ensures Valid(AddPayment(l, id, amount, date))
  {
    var sorted := SortByDate(l.withdrawals);
    var r := AddPayment(l, id, amount, date);
    forall i | 0 <= i < |sorted|
      ensures ValidWithdrawal(sorted[i])
    {
      assert sorted[i] in multiset(l.withdrawals);
    }
    forall i | 0 <= i < |r.withdrawals|
      ensures ValidWithdrawal(r.withdrawals[i])
    {
      assert PaidDown(sorted[i], r.withdrawals[i]);
      assert Issued(sorted[i]).amount == Issued(r.withdrawals[i]).amount;
    }
  }

  // ---------------------------------------------------------------------------
  // Sequences of operations

  datatype Operation =
    | RecordWithdrawal(id: string, amount: int, date: Day, note: string)
    | RecordPayment(id: string, amount: int, date: Day)

  function Apply(l: Ledger, op: Operation): Ledger {
    match op
    case RecordWithdrawal(id, amount, date, note) => AddWithdrawal(l, id, amount, date, note)
    case RecordPayment(id, amount, date) => AddPayment(l, id, amount, date)
  }

  /** The ledger after the operations, in order. */
  function Replay(l: Ledger, ops: seq<Operation>): Ledger
    decreases |ops|
  {
    if |ops| == 0 then l else Replay(Apply(l, ops[0]), ops[1..])
  }

  /** The money the operations borrow and repay. */
  function Borrowed(ops: seq<Operation>): int {
    if |ops| == 0 then 0
    else (if ops[0].RecordWithdrawal? then ops[0].amount else 0) + Borrowed(ops[1..])
  }

  function Repaid(ops: seq<Operation>): int {
    if |ops| == 0 then 0
    else (if ops[0].RecordPayment? then Positive(ops[0].amount) else 0) + Repaid(ops[1..])
  }

  /** The payments the operations log, in order. */
  function PaymentsOf(ops: seq<Operation>): seq<Payment> {
    if |ops| == 0 then [] else Logged(ops[0]) + PaymentsOf(ops[1..])
  }

  /** The payment record one operation logs, if any. */
  function Logged(op: Operation): seq<Payment> {
    if op.RecordPayment? then [Payment(op.id, op.amount, op.date)] else []
  }

  /** One operation logs its payment, if any, and never lowers the credit. */
  lemma ApplyLogs(l: Ledger, op: Operation)
    ensures Apply(l, op).payments == l.payments + Logged(op)
    ensures Apply(l, op).creditBalance >= l.creditBalance
  {
    match op
    case RecordWithdrawal(id, amount, date, note) =>
      assert l.payments + [] == l.payments;
    case RecordPayment(id, amount, date) =>
  }

  /** `f` follows every record of `ws` to a record of its own in `ws'`: the
      same debt, at a balance no higher, and no two records to the same one. */
  predicate Tracks(ws: seq<Withdrawal>, ws': seq<Withdrawal>, f: seq<nat>) {
    && |f| == |ws|
    && (forall k :: 0 <= k < |f| ==>
          f[k] < |ws'| && SameDebt(ws[k], ws'[f[k]]) && ws'[f[k]].remainingAmount <= ws[k].remainingAmount)
    && Distinct(f)
  }

  /** The positions 0 to n - 1, in order. */
  function Upto(n: nat): (r: seq<nat>)
    ensures |r| == n && forall k :: 0 <= k < n ==> r[k] == k
  {
    if n == 0 then [] else Upto(n - 1) + [n - 1]
  }

  lemma TrackedAcrossStep(l: Ledger, op: Operation) returns (f: seq<nat>)
    ensures Tracks(l.withdrawals, Apply(l, op).withdrawals, f)
  {
    match op
    case RecordWithdrawal(id, amount, date, note) =>
      f := WithdrawalTracked(l, id, amount, date, note);
    case RecordPayment(id, amount, date) =>
      f := PaymentTracked(l, id, amount, date);
  }

  /** A withdrawal keeps every earlier record where it was. */
  lemma WithdrawalTracked(l: Ledger, id: string, amount: int, date: Day, note: string) returns (f: seq<nat>)
    ensures Tracks(l.withdrawals, AddWithdrawal(l, id, amount, date, note).withdrawals, f)
  {
    var r := AddWithdrawal(l, id, amount, date, note).withdrawals;
    f := Upto(|l.withdrawals|);
    forall k | 0 <= k < |f|
      ensures r[f[k]] == l.withdrawals[k]
    {
      assert r[k] == r[..|l.withdrawals|][k];
    }
  }

  /** A payment moves each record to its sorted position and pays it down. */
  lemma PaymentTracked(l: Ledger, id: string, amount: int, date: Day) returns (f: seq<nat>)
    ensures Tracks(l.withdrawals, AddPayment(l, id, amount, date).withdrawals, f)
  {
    var r := AddPayment(l, id, amount, date).withdrawals;
    var sorted := SortByDate(l.withdrawals);
    f := PermutationIndex(l.withdrawals, sorted);
    forall k | 0 <= k < |f|
      ensures SameDebt(l.withdrawals[k], r[f[k]]) && r[f[k]].remainingAmount <= l.withdrawals[k].remainingAmount
    {
      assert PaidDown(sorted[f[k]], r[f[k]]);
    }
  }

  /** Following `f` and then `g` follows each record to a record of its own. */
  lemma TracksCompose(a: seq<Withdrawal>, b: seq<Withdrawal>, c: seq<Withdrawal>, f: seq<nat>, g: seq<nat>)
    returns (h: seq<nat>)
    requires Tracks(a, b, f) && Tracks(b, c, g)
    ensures Tracks(a, c, h)
  {
    h := seq(|f|, k requires 0 <= k < |f| => g[f[k]]);
    forall i, j | 0 <= i < j < |h|
      ensures h[i] != h[j]
    {
      assert f[i] != f[j];
    }
  }

  /** Over any sequence of operations no record disappears and no balance
      rises: each record of the ledger is followed to a record of its own in the
      final ledger, the same debt at a balance no higher. */
  lemma {:induction false} ReplayNeverRaisesBalances(l: Ledger, ops: seq<Operation>) returns (f: seq<nat>)
    ensures Tracks(l.withdrawals, Replay(l, ops).withdrawals, f)
    decreases |ops|
  {
    if |ops| == 0 {
      f := Upto(|l.withdrawals|);
    } else {
      var m := Apply(l, ops[0]);
      var f1 := TrackedAcrossStep(l, ops[0]);
      var f2 := ReplayNeverRaisesBalances(m, ops[1..]);
      f := TracksCompose(l.withdrawals, m.withdrawals, Replay(l, ops).withdrawals, f1, f2);
    }
  }

  /** Over any sequence of operations the credit never falls and the payment
      log only grows, by the payments recorded, in order. */
  lemma {:induction false} ReplayCreditAndLog(l: Ledger, ops: seq<Operation>)
    ensures Replay(l, ops).creditBalance >= l.creditBalance
    ensures Replay(l, ops).payments == l.payments + PaymentsOf(ops)
    decreases |ops|
  {
    if |ops| > 0 {
      var m := Apply(l, ops[0]);
      ApplyLogs(l, ops[0]);
      ReplayCreditAndLog(m, ops[1..]);
      assert Replay(l, ops) == Replay(m, ops[1..]);
      assert PaymentsOf(ops) == Logged(ops[0]) + PaymentsOf(ops[1..]);
      assert l.payments + Logged(ops[0]) + PaymentsOf(ops[1..]) == l.payments + PaymentsOf(ops);
    }
  }

  /** Over any sequence of operations the net debt moves by exactly what was
      borrowed minus what was repaid. */
  lemma {:induction false} ReplayNetDebt(l: Ledger, ops: seq<Operation>)
    ensures NetDebt(Replay(l, ops)) == NetDebt(l) + Borrowed(ops) - Repaid(ops)
    decreases |ops|
  {
    if |ops| > 0 {
      ReplayNetDebt(Apply(l, ops[0]), ops[1..]);
      match ops[0]
      case RecordWithdrawal(id, amount, date, note) =>
        WithdrawalAddsDebt(l, id, amount, date, note);
      case RecordPayment(id, amount, date) =>
        PaymentConserves(l, id, amount, date);
    }
  }

  /** Starting valid, and with no withdrawal of a negative amount, the ledger
      stays valid after any sequence of operations. */
  lemma {:induction false} ReplayKeepsValid(l: Ledger, ops: seq<Operation>)
    requires Valid(l)
    requires forall k :: 0 <= k < |ops| ==> ops[k].RecordWithdrawal? ==> ops[k].amount >= 0
    ensures Valid(Replay(l, ops))
    decreases |ops|
  {
    if |ops| > 0 {
      var op := ops[0];
      if op.RecordWithdrawal? {
        WithdrawalKeepsValid(l, op.id, op.amount, op.date, op.note);
      } else {
        PaymentKeepsValid(l, op.id, op.amount, op.date);
      }
      assert forall k :: 0 <= k < |ops| - 1 ==> ops[1..][k] == ops[k + 1];
      ReplayKeepsValid(Apply(l, op), ops[1..]);
    }
  }
}
