/**
  Worked ledgers: amounts in minor units (1 unit = 100), days counted from
  1 January 2024 as day 0.
 */
module Scenarios {
  import opened Records
  import opened DateSort
  import opened Allocation
  import opened CreditTracker

  /** Start empty, borrow 100 for rent on 1 January, pay 150 on 15 January: the
      debt is settled, 50 becomes credit and the net debt is -50. */
  lemma RentOverpaid()
    ensures var l1 := AddWithdrawal(EmptyLedger, "w1", 10000, 0, "rent");
      && TotalDebt(l1) == 10000 && l1.creditBalance == 0
      && l1.withdrawals[0].dueDate == 30
      && var l2 := AddPayment(l1, "p1", 15000, 14);
      && l2.withdrawals[0].remainingAmount == 0
      && l2.creditBalance == 5000
      && NetDebt(l2) == -5000
      && l2.payments == [Payment("p1", 15000, 14)]
  {
    var l1 := AddWithdrawal(EmptyLedger, "w1", 10000, 0, "rent");
    var w := Withdrawal("w1", 10000, 10000, 0, "rent", 30);
    assert l1.withdrawals == [w];
    assert [w][1..] == [];
    assert Total(l1.withdrawals) == 10000;
    assert SortByDate(l1.withdrawals) == l1.withdrawals;
    var s := Settle([w], 15000);
    assert Settle([], 5000) == Settlement([], 5000);
    assert s == Settlement([w.(remainingAmount := 0)], 5000);
    var l2 := AddPayment(l1, "p1", 15000, 14);
    assert l2.withdrawals == [w.(remainingAmount := 0)];
    assert [w.(remainingAmount := 0)][1..] == [];
    assert Total(l2.withdrawals) == 0;
  }

  /** Two debts of 50, recorded February first, then January; a payment of 60
      settles January in full and leaves 40 on February, and the ledger is left
      in date order. */
  lemma OldestSettledFirst()
    ensures var jan := Withdrawal("jan", 5000, 5000, 0, "", 30);
      var feb := Withdrawal("feb", 5000, 5000, 31, "", 61);
      var l := Ledger([feb, jan], [], 0);
      AddPayment(l, "p", 6000, 40).withdrawals
        == [jan.(remainingAmount := 0), feb.(remainingAmount := 4000)]
  {
    var jan := Withdrawal("jan", 5000, 5000, 0, "", 30);
    var feb := Withdrawal("feb", 5000, 5000, 31, "", 61);
    SortTwo(feb, jan);
    SettleTwo(jan, feb);
    AddPaymentUnfold(Ledger([feb, jan], [], 0), "p", 6000, 40);
  }

  lemma SortTwo(a: Withdrawal, b: Withdrawal)
    requires b.date < a.date
    ensures SortByDate([a, b]) == [b, a]
  {
    assert [a, b][1..] == [b];
    assert [b][1..] == [];
    assert SortByDate([b]) == InsertByDate(b, []) == [b];
    assert InsertByDate(a, []) == [a];
    assert InsertByDate(a, [b]) == [b] + InsertByDate(a, []);
  }

  lemma SettleTwo(jan: Withdrawal, feb: Withdrawal)
    requires jan.remainingAmount == feb.remainingAmount == 5000
    ensures Settle([jan, feb], 6000).withdrawals == [jan.(remainingAmount := 0), feb.(remainingAmount := 4000)]
  {
    var feb' := feb.(remainingAmount := 4000);
    assert Settle([feb], 1000) == Settlement([feb'], 0) by {
      assert [feb][1..] == [];
      assert PayOne(feb, 1000) == Step(feb', 0);
    }
    assert [jan, feb][1..] == [feb];
    assert PayOne(jan, 6000) == Step(jan.(remainingAmount := 0), 1000);
  }

  /** Against today = day 100: a balance of 20 due in 3 days is counted, one
      due in 10 days is not, and an overdue one is. */
  lemma DueWindow()
    ensures var soon := Withdrawal("a", 2000, 2000, 73, "", 103);
      var later := Withdrawal("b", 3000, 3000, 80, "", 110);
      var overdue := Withdrawal("c", 500, 500, 40, "", 70);
      && Upcoming([soon, later], 100) == 2000
      && Upcoming([soon, later, overdue], 100) == 2500
  {
    var soon := Withdrawal("a", 2000, 2000, 73, "", 103);
    var later := Withdrawal("b", 3000, 3000, 80, "", 110);
    var overdue := Withdrawal("c", 500, 500, 40, "", 70);
    assert [soon, later][1..] == [later];
    assert [soon, later, overdue][1..] == [later, overdue];
    assert [later, overdue][1..] == [overdue];
    assert [later][1..] == [] && [overdue][1..] == [];
    assert DueSoonOnly([later], 100) == [];
    assert DueSoonOnly([overdue], 100) == [overdue];
    assert DueSoonOnly([later, overdue], 100) == [overdue];
    assert DueSoonOnly([soon, later], 100) == [soon];
    assert DueSoonOnly([soon, later, overdue], 100) == [soon, overdue];
    assert [soon, overdue][1..] == [overdue];
    assert Total([overdue]) == 500;
    assert Total([soon]) == 2000;
  }
}
