/**
  The ledger's records: withdrawals (debts), payments, and the ledger that
  holds both plus the running credit balance, together with the sums over
  withdrawal balances that the allocation engine and the statistics share.

  Amounts are exact integers in minor currency units; dates are whole day
  numbers counted from an arbitrary epoch.
 */
module Records {

  /** A calendar date as a day number. */
  type Day = int

  /** A withdrawal falls due this many days after it was incurred. */
  const DueAfterDays: int := 30

  /** A debt. `remainingAmount` is the outstanding balance that payments pay down;
      every other field is fixed when the record is created. */
  datatype Withdrawal = Withdrawal(
    id: string,
    amount: int,
    remainingAmount: int,
    date: Day,
    note: string,
    dueDate: Day)

  /** An append-only log entry for a payment. */
  datatype Payment = Payment(id: string, amount: int, date: Day)

  /** The aggregate the engine transforms. */
  datatype Ledger = Ledger(
    withdrawals: seq<Withdrawal>,
    payments: seq<Payment>,
    creditBalance: int)

  /** The state a fresh ledger starts from when nothing was stored. */
  const EmptyLedger: Ledger := Ledger([], [], 0)

  /** The record as it was when created: the balance put back to the full amount.
      Two records with the same `Issued` form differ at most in their balance. */
  function Issued(w: Withdrawal): Withdrawal {
    w.(remainingAmount := w.amount)
  }

  /** `a` and `b` are the same debt, possibly at different balances. */
  predicate SameDebt(a: Withdrawal, b: Withdrawal) {
    Issued(a) == Issued(b)
  }

  /** The issued form of every record, in order. */
  function IssuedAll(ws: seq<Withdrawal>): (r: seq<Withdrawal>)
    ensures |r| == |ws|
    ensures forall i :: 0 <= i < |ws| ==> r[i] == Issued(ws[i])
  {
    seq(|ws|, i requires 0 <= i < |ws| => Issued(ws[i]))
  }

  function Positive(x: int): int {
    if x > 0 then x else 0
  }

  /** Sum of the remaining balances. */
  function Total(ws: seq<Withdrawal>): int {
    if |ws| == 0 then 0 else ws[0].remainingAmount + Total(ws[1..])
  }

  /** Sum of the balances that are still owed, i.e. of the positive ones: the
      allocation engine never touches a balance that is zero or below. */
  function Outstanding(ws: seq<Withdrawal>): int {
    if |ws| == 0 then 0 else Positive(ws[0].remainingAmount) + Outstanding(ws[1..])
  }

  /** The record invariant: the balance lies between zero and the amount, and the
      due date is thirty days after the date. */
  predicate ValidWithdrawal(w: Withdrawal) {
    && 0 <= w.remainingAmount <= w.amount
    && w.dueDate == w.date + DueAfterDays
  }

  predicate AllValid(ws: seq<Withdrawal>) {
    forall i :: 0 <= i < |ws| ==> ValidWithdrawal(ws[i])
  }

  /** The ledger invariant: every record valid and no negative credit. */
  predicate Valid(l: Ledger) {
    AllValid(l.withdrawals) && l.creditBalance >= 0
  }

  lemma {:induction false} OutstandingIsNonNegative(ws: seq<Withdrawal>)
    ensures Outstanding(ws) >= 0
    ensures Outstanding(ws) >= Total(ws)
    ensures Outstanding(ws) == 0 <==> forall i :: 0 <= i < |ws| ==> ws[i].remainingAmount <= 0
  {
    if |ws| > 0 {
      OutstandingIsNonNegative(ws[1..]);
      assert forall i :: 1 <= i < |ws| ==> ws[i] == ws[1..][i - 1];
    }
  }

  /** When no balance is negative the two sums agree. */
  lemma {:induction false} OutstandingOfNonNegative(ws: seq<Withdrawal>)
    requires forall i :: 0 <= i < |ws| ==> ws[i].remainingAmount >= 0
    ensures Outstanding(ws) == Total(ws)
  {
    if |ws| > 0 {
      assert forall i :: 0 <= i < |ws| - 1 ==> ws[1..][i] == ws[i + 1];
      OutstandingOfNonNegative(ws[1..]);
    }
  }

  lemma {:induction false} SumsAppend(a: seq<Withdrawal>, b: seq<Withdrawal>)
    ensures Total(a + b) == Total(a) + Total(b)
    ensures Outstanding(a + b) == Outstanding(a) + Outstanding(b)
  {
    if |a| == 0 {
      assert a + b == b;
    } else {
      assert (a + b)[1..] == a[1..] + b;
      SumsAppend(a[1..], b);
    }
  }

  /** Removing the element at `k` from a sequence that is a permutation of
      `[x] + rest` leaves a permutation of `rest`. */
  lemma PermutationSplit(x: Withdrawal, rest: seq<Withdrawal>, b: seq<Withdrawal>) returns (k: nat)
    requires multiset([x] + rest) == multiset(b)
    ensures k < |b| && b[k] == x
    ensures b == b[..k] + [x] + b[k + 1..]
    ensures multiset(rest) == multiset(b[..k] + b[k + 1..])
  {
    assert multiset([x] + rest) == multiset{x} + multiset(rest);
    k := IndexOf(x, b);
    RemoveAt(b, k);
    MultisetCancel(multiset(rest), multiset(b[..k] + b[k + 1..]), x);
  }

  /** A position of `x` in `b`. */
  lemma IndexOf(x: Withdrawal, b: seq<Withdrawal>) returns (k: nat)
    requires x in multiset(b)
    ensures k < |b| && b[k] == x
  {
    assert x in b;
    k :| 0 <= k < |b| && b[k] == x;
  }

  lemma MultisetCancel(m: multiset<Withdrawal>, n: multiset<Withdrawal>, x: Withdrawal)
    requires m + multiset{x} == n + multiset{x}
    ensures m == n
  {
    assert m == m + multiset{x} - multiset{x};
    assert n == n + multiset{x} - multiset{x};
  }

  /** Cutting out the element at `k` removes one copy of it from the multiset. */
  lemma RemoveAt(b: seq<Withdrawal>, k: nat)
    requires k < |b|
    ensures b == b[..k] + [b[k]] + b[k + 1..]
    ensures multiset(b) == multiset(b[..k] + b[k + 1..]) + multiset{b[k]}
  {
    assert b == b[..k] + [b[k]] + b[k + 1..];
    assert multiset(b[..k] + b[k + 1..]) == multiset(b[..k]) + multiset(b[k + 1..]);
  }

  /** A permutation, as a map of positions: every position `k` of `a` goes to
      a position `f[k]` of `b` holding the same record, and no two positions
      go to the same one. */
  predicate MatchesAt(a: seq<Withdrawal>, b: seq<Withdrawal>, f: seq<nat>) {
    && |f| == |a|
    && (forall k :: 0 <= k < |f| ==> f[k] < |b| && b[f[k]] == a[k])
    && Distinct(f)
  }

  predicate Distinct(f: seq<nat>) {
    forall j, k :: 0 <= j < k < |f| ==> f[j] != f[k]
  }

  /** Two sequences with the same multiset are related by a one-to-one map of
      positions. */
  lemma {:induction false} PermutationIndex(a: seq<Withdrawal>, b: seq<Withdrawal>) returns (f: seq<nat>)
    requires multiset(a) == multiset(b)
    ensures MatchesAt(a, b, f)
    decreases |a|
  {
    if |a| == 0 {
      f := [];
    } else {
      assert a == [a[0]] + a[1..];
      var k := PermutationSplit(a[0], a[1..], b);
      var g := PermutationIndex(a[1..], b[..k] + b[k + 1..]);
      f := [k] + Lift(g, k);
      LiftMatches(a, b, k, g);
    }
  }

  /** Putting the position `k` of `a[0]` in front of a map for the rest. */
  lemma LiftMatches(a: seq<Withdrawal>, b: seq<Withdrawal>, k: nat, g: seq<nat>)
    requires |a| > 0 && k < |b| && b[k] == a[0]
    requires MatchesAt(a[1..], b[..k] + b[k + 1..], g)
    ensures MatchesAt(a, b, [k] + Lift(g, k))
  {
    LiftPoints(a, b, k, g);
    LiftDistinct(g, k);
  }

  lemma LiftPoints(a: seq<Withdrawal>, b: seq<Withdrawal>, k: nat, g: seq<nat>)
    requires |a| > 0 && k < |b| && b[k] == a[0]
    requires MatchesAt(a[1..], b[..k] + b[k + 1..], g)
    ensures forall j :: 0 <= j < |a| ==> ([k] + Lift(g, k))[j] < |b| && b[([k] + Lift(g, k))[j]] == a[j]
  {
    var f := [k] + Lift(g, k);
    var rest := b[..k] + b[k + 1..];
    CutAt(b, k);
    forall j | 1 <= j < |f|
      ensures f[j] < |b| && b[f[j]] == a[j]
    {
      assert f[j] == Lift(g, k)[j - 1];
      assert rest[g[j - 1]] == a[1..][j - 1];
    }
  }

  lemma LiftDistinct(g: seq<nat>, k: nat)
    requires Distinct(g)
    ensures Distinct([k] + Lift(g, k))
  {
    var f := [k] + Lift(g, k);
    forall i, j | 0 <= i < j < |f|
      ensures f[i] != f[j]
    {
      assert f[j] == Lift(g, k)[j - 1];
      if i > 0 {
        assert f[i] == Lift(g, k)[i - 1];
      }
    }
  }

  /** The elements of a sequence with index `k` cut out. */
  lemma CutAt(b: seq<Withdrawal>, k: nat)
    requires k < |b|
    ensures |b[..k] + b[k + 1..]| == |b| - 1
    ensures forall m :: 0 <= m < |b| - 1 ==>
      (b[..k] + b[k + 1..])[m] == if m < k then b[m] else b[m + 1]
  {
  }

  /** The positions `g` of a sequence with index `k` cut out, read as positions
      of the whole sequence: those from `k` on move up by one. */
  function Lift(g: seq<nat>, k: nat): (r: seq<nat>)
    ensures |r| == |g|
    ensures forall j :: 0 <= j < |g| ==> r[j] != k && (g[j] < k ==> r[j] == g[j]) && (g[j] >= k ==> r[j] == g[j] + 1)
  {
    seq(|g|, j requires 0 <= j < |g| => if g[j] < k then g[j] else g[j] + 1)
  }

  /** Both sums depend only on the multiset of records, not on their order. */
  lemma {:induction false} SumsOfPermutation(a: seq<Withdrawal>, b: seq<Withdrawal>)
    requires multiset(a) == multiset(b)
    ensures Total(a) == Total(b)
    ensures Outstanding(a) == Outstanding(b)
    decreases |a|
  {
    if |a| == 0 {
      assert |b| == |multiset(b)| == 0;
    } else {
      assert a == [a[0]] + a[1..];
      var k := PermutationSplit(a[0], a[1..], b);
      SumsOfPermutation(a[1..], b[..k] + b[k + 1..]);
      SumsAppend(b[..k], b[k + 1..]);
      SumsAppend(b[..k], [a[0]] + b[k + 1..]);
      assert ([a[0]] + b[k + 1..])[1..] == b[k + 1..];
      assert b[..k] + [a[0]] + b[k + 1..] == b[..k] + ([a[0]] + b[k + 1..]);
    }
  }

  /** Reordering the records reorders their issued forms. */
  lemma {:induction false} IssuedOfPermutation(a: seq<Withdrawal>, b: seq<Withdrawal>)
    requires multiset(a) == multiset(b)
    ensures multiset(IssuedAll(a)) == multiset(IssuedAll(b))
    decreases |a|
  {
    if |a| == 0 {
      assert |b| == |multiset(b)| == 0;
      assert IssuedAll(a) == IssuedAll(b) == [];
    } else {
      assert a == [a[0]] + a[1..];
      var k := PermutationSplit(a[0], a[1..], b);
      IssuedOfPermutation(a[1..], b[..k] + b[k + 1..]);
      IssuedAppend([a[0]], a[1..]);
      IssuedAppend(b[..k], [a[0]] + b[k + 1..]);
      IssuedAppend([a[0]], b[k + 1..]);
      IssuedAppend(b[..k], b[k + 1..]);
      assert b[..k] + [a[0]] + b[k + 1..] == b[..k] + ([a[0]] + b[k + 1..]);
      assert IssuedAll([a[0]]) == [Issued(a[0])];
    }
  }

  lemma IssuedAppend(u: seq<Withdrawal>, v: seq<Withdrawal>)
    ensures IssuedAll(u + v) == IssuedAll(u) + IssuedAll(v)
  {
    assert forall i :: 0 <= i < |u| ==> (u + v)[i] == u[i];
    assert forall i :: |u| <= i < |u| + |v| ==> (u + v)[i] == v[i - |u|];
  }
}
