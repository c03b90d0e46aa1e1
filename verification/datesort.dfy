/**
  The oldest-first ordering a payment imposes on the withdrawals: a stable sort
  by date, as the source obtains from `Array.prototype.sort` with a comparator
  that subtracts the two dates. Records with equal dates keep their relative
  order.
 */
module DateSort {
  import opened Records

  predicate SortedByDate(ws: seq<Withdrawal>) {
    forall i, j :: 0 <= i < j < |ws| ==> ws[i].date <= ws[j].date
  }

  /** The records of `ws` dated `d`, in their order in `ws`. Stability of a sort
      means exactly that this subsequence is the same before and after. */
  function OnDate(ws: seq<Withdrawal>, d: Day): seq<Withdrawal> {
    if |ws| == 0 then []
    else if ws[0].date == d then [ws[0]] + OnDate(ws[1..], d)
    else OnDate(ws[1..], d)
  }

  /** Places `w` before the first record dated no earlier than it. */
  function InsertByDate(w: Withdrawal, ws: seq<Withdrawal>): (r: seq<Withdrawal>)
    ensures multiset(r) == multiset(ws) + multiset{w}
  {
    if |ws| == 0 then [w]
    else if w.date <= ws[0].date then [w] + ws
    else
      assert ws == [ws[0]] + ws[1..];
      [ws[0]] + InsertByDate(w, ws[1..])
  }

  /** Every date of `ws` is `low` or later. */
  predicate DatesFrom(ws: seq<Withdrawal>, low: Day) {
    forall i :: 0 <= i < |ws| ==> low <= ws[i].date
  }

  /** Inserting into a sorted sequence keeps it sorted, and keeps every date at
      or above any bound that `w` and all of `ws` respect. */
  lemma {:induction false} InsertKeepsSorted(w: Withdrawal, ws: seq<Withdrawal>, low: Day)
    requires SortedByDate(ws)
    requires low <= w.date && DatesFrom(ws, low)
    ensures SortedByDate(InsertByDate(w, ws))
    ensures DatesFrom(InsertByDate(w, ws), low)
  {
    if |ws| == 0 {
      assert InsertByDate(w, ws) == [w];
    } else if w.date <= ws[0].date {
      SortedCons(w, ws, low);
    } else {
      var tail := ws[1..];
      SortedTail(ws, low);
      InsertKeepsSorted(w, tail, ws[0].date);
      SortedCons(ws[0], InsertByDate(w, tail), low);
    }
  }

  /** The tail of a sorted sequence is sorted and dated no earlier than its head. */
  lemma SortedTail(ws: seq<Withdrawal>, low: Day)
    requires |ws| > 0 && SortedByDate(ws) && DatesFrom(ws, low)
    ensures SortedByDate(ws[1..]) && DatesFrom(ws[1..], ws[0].date) && low <= ws[0].date
  {
    assert forall i :: 0 <= i < |ws| - 1 ==> ws[1..][i] == ws[i + 1];
  }

  /** A record dated no later than the head of a sorted sequence can go in front. */
  lemma SortedCons(w: Withdrawal, ws: seq<Withdrawal>, low: Day)
    requires SortedByDate(ws) && DatesFrom(ws, w.date) && low <= w.date
    ensures SortedByDate([w] + ws) && DatesFrom([w] + ws, low)
  {
    var r := [w] + ws;
    forall i, j | 0 <= i < j < |r|
      ensures r[i].date <= r[j].date
    {
      assert r[j] == ws[j - 1];
      if i > 0 {
        assert r[i] == ws[i - 1];
      }
    }
    forall i | 0 <= i < |r|
      ensures low <= r[i].date
    {
      if i > 0 {
        assert r[i] == ws[i - 1];
      }
    }
  }

  /** Stable insertion sort: each record is inserted in front of the sorted
      remainder, ahead of any record with the same date. */
  function SortByDate(ws: seq<Withdrawal>): (r: seq<Withdrawal>)
    ensures SortedByDate(r)
    ensures multiset(r) == multiset(ws)
    ensures |r| == |ws|
  {
    if |ws| == 0 then []
    else
      assert ws == [ws[0]] + ws[1..];
      var rest := SortByDate(ws[1..]);
      InsertSorted(ws[0], rest);
      InsertByDate(ws[0], rest)
  }

  /** Inserting into a sorted sequence keeps it sorted. */
  lemma InsertSorted(w: Withdrawal, ws: seq<Withdrawal>)
    requires SortedByDate(ws)
    ensures SortedByDate(InsertByDate(w, ws))
  {
    var low := if |ws| == 0 || w.date <= ws[0].date then w.date else ws[0].date;
    InsertKeepsSorted(w, ws, low);
  }

  lemma {:induction false} InsertKeepsDateOrder(w: Withdrawal, ws: seq<Withdrawal>, d: Day)
    ensures OnDate(InsertByDate(w, ws), d) == if w.date == d then [w] + OnDate(ws, d) else OnDate(ws, d)
  {
    if |ws| == 0 {
    } else if w.date <= ws[0].date {
      assert ([w] + ws)[1..] == ws;
    } else {
      InsertKeepsDateOrder(w, ws[1..], d);
      assert ([ws[0]] + InsertByDate(w, ws[1..]))[1..] == InsertByDate(w, ws[1..]);
    }
  }

  /** The sort is stable: the records of any one date keep their order. */
  lemma {:induction false} SortIsStable(ws: seq<Withdrawal>, d: Day)
    ensures OnDate(SortByDate(ws), d) == OnDate(ws, d)
  {
    if |ws| > 0 {
      SortIsStable(ws[1..], d);
      InsertKeepsDateOrder(ws[0], SortByDate(ws[1..]), d);
    }
  }

  lemma {:induction false} OnDateEmpty(ws: seq<Withdrawal>, d: Day)
    ensures OnDate(ws, d) == [] <==> forall i :: 0 <= i < |ws| ==> ws[i].date != d
  {
    if |ws| > 0 {
      OnDateEmpty(ws[1..], d);
      assert forall i :: 1 <= i < |ws| ==> ws[i] == ws[1..][i - 1];
    }
  }

  /** A sorted sequence is determined by its per-date subsequences: so
      `SortByDate` is the one and only stable sort by date, and any correct
      stable sort of the same records produces the same sequence. */
  lemma {:induction false} StableSortIsUnique(ws: seq<Withdrawal>, r: seq<Withdrawal>)
    requires SortedByDate(r)
    requires forall d :: OnDate(r, d) == OnDate(ws, d)
    ensures r == SortByDate(ws)
  {
    var s := SortByDate(ws);
    forall d
      ensures OnDate(r, d) == OnDate(s, d)
    {
      SortIsStable(ws, d);
    }
    SortedDeterminedByDates(r, s);
  }

  lemma {:induction false} SortedDeterminedByDates(a: seq<Withdrawal>, b: seq<Withdrawal>)
    requires SortedByDate(a) && SortedByDate(b)
    requires forall d :: OnDate(a, d) == OnDate(b, d)
    ensures a == b
    decreases |a|
  {
    if |a| == 0 {
      if |b| > 0 {
        assert OnDate(a, b[0].date) == [];
        OnDateEmpty(b, b[0].date);
        assert false;
      }
    } else {
      SameFirstDate(a, b);
      SameFirstDate(b, a);
      var da := a[0].date;
      assert a[0] == b[0] by {
        assert OnDate(a, da) == OnDate(b, da);
        OnDateFront(a, da);
        OnDateFront(b, da);
      }
      forall d
        ensures OnDate(a[1..], d) == OnDate(b[1..], d)
      {
        assert OnDate(a, d) == OnDate(b, d);
        OnDateFront(a, d);
        OnDateFront(b, d);
        if d == da {
          assert ([a[0]] + OnDate(a[1..], d))[1..] == OnDate(a[1..], d);
          assert ([b[0]] + OnDate(b[1..], d))[1..] == OnDate(b[1..], d);
        }
      }
      SortedDeterminedByDates(a[1..], b[1..]);
      assert a == [a[0]] + a[1..];
      assert b == [b[0]] + b[1..];
    }
  }

  lemma OnDateFront(ws: seq<Withdrawal>, d: Day)
    requires |ws| > 0
    ensures ws[0].date == d ==> OnDate(ws, d) == [ws[0]] + OnDate(ws[1..], d) && OnDate(ws, d)[0] == ws[0]
    ensures ws[0].date != d ==> OnDate(ws, d) == OnDate(ws[1..], d)
  {
  }

  /** Two sorted sequences with the same per-date subsequences: the first date
      of `a` is no later than the first date of `b`. */
  lemma SameFirstDate(a: seq<Withdrawal>, b: seq<Withdrawal>)
    requires SortedByDate(a) && |a| > 0
    requires forall d :: OnDate(a, d) == OnDate(b, d)
    ensures |b| > 0 && a[0].date <= b[0].date
  {
    var da := a[0].date;
    OnDateFront(a, da);
    assert OnDate(b, da) == OnDate(a, da);
    var i := DatedAt(b, da);
    var db := b[0].date;
    OnDateFront(b, db);
    assert OnDate(a, db) == OnDate(b, db);
    var j := DatedAt(a, db);
    if j > 0 {
      assert a[0].date <= a[j].date;
    }
  }

  /** A position with date `d`, in a sequence that has records of that date. */
  lemma {:induction false} DatedAt(ws: seq<Withdrawal>, d: Day) returns (i: nat)
    requires OnDate(ws, d) != []
    ensures i < |ws| && ws[i].date == d
  {
    assert |ws| > 0;
    i := 0;
    if ws[0].date != d {
      var k := DatedAt(ws[1..], d);
      assert ws[1..][k] == ws[k + 1];
      i := k + 1;
    }
  }
}
