/** Pure specification of the equation-numbering pass of FEM::InitEquations.

    A table holds one row of integer DOF status codes per node (or per rigid
    body). A row is visited by walking its slots in order and giving every
    non-negative (free) slot the next value of a running counter; negative
    slots are left alone. The whole pass visits rows in a given order (node
    order, or the bandwidth-reducing permutation P). */
module Numbering {

  /** Number of free (non-negative) entries of s. */
  function FreeCount(s: seq<int>): (n: nat)
    ensures n <= |s|
  {
    if s == [] then 0 else FreeCount(s[..|s| - 1]) + (if s[|s| - 1] >= 0 then 1 else 0)
  }

  /** The free (non-negative) entries of s, in slot order. */
  function Nonneg(s: seq<int>): (r: seq<int>)
    ensures |r| == FreeCount(s)
    ensures forall k :: 0 <= k < |r| ==> r[k] >= 0
  {
    if s == [] then []
    else Nonneg(s[..|s| - 1]) + (if s[|s| - 1] >= 0 then [s[|s| - 1]] else [])
  }

  /** The consecutive integers start, start+1, ..., start+n-1. */
  function Iota(start: int, n: nat): (r: seq<int>)
    ensures |r| == n
  {
    seq(n, k => start + k)
  }

  /** 0, 1, ..., n-1: the plain node order. */
  function Identity(n: nat): (r: seq<int>)
    ensures |r| == n
  {
    seq(n, k => k)
  }

  ghost predicate InRange(order: seq<int>, n: nat)
  {
    forall k :: 0 <= k < |order| ==> 0 <= order[k] < n
  }

  ghost predicate Distinct(order: seq<int>)
  {
    forall k, l :: 0 <= k < l < |order| ==> order[k] != order[l]
  }

  /** One row numbered with the counter starting at c: a free slot j receives
      c plus the number of free slots before it; other slots keep their code. */
  function NumberRow(row: seq<int>, c: int): (r: seq<int>)
    ensures |r| == |row|
    ensures c >= 0 ==> forall j :: 0 <= j < |row| ==> (r[j] >= 0 <==> row[j] >= 0)
    ensures forall j :: 0 <= j < |row| && row[j] < 0 ==> r[j] == row[j]
  {
    seq(|row|, j requires 0 <= j < |row| => if row[j] >= 0 then c + FreeCount(row[..j]) else row[j])
  }

  /** Slot j of a numbered row, and the free count one slot further on. */
  lemma NumberRowAt(row: seq<int>, c: int, j: int)
    requires 0 <= j < |row|
    ensures NumberRow(row, c)[j] == if row[j] >= 0 then c + FreeCount(row[..j]) else row[j]
    ensures FreeCount(row[..j + 1]) == FreeCount(row[..j]) + if row[j] >= 0 then 1 else 0
  {
    assert row[..j + 1][..j] == row[..j];
  }

  /** The running counter pass: rows are numbered in the sequence `order`,
      the counter starting at c0. Yields the new table and the final counter. */
  function Numbered(t: seq<seq<int>>, order: seq<int>, c0: int): (r: (seq<seq<int>>, int))
    requires InRange(order, |t|)
    ensures |r.0| == |t|
    ensures forall n :: 0 <= n < |t| ==> |r.0[n]| == |t[n]|
    decreases |order|
  {
    if order == [] then (t, c0)
    else
      var prev := Numbered(t, order[..|order| - 1], c0);
      var n := order[|order| - 1];
      (prev.0[n := NumberRow(prev.0[n], prev.1)], prev.1 + FreeCount(prev.0[n]))
  }

  /** Sum of the free counts of the rows named by `order`. */
  function SumFree(t: seq<seq<int>>, order: seq<int>): (s: nat)
    requires InRange(order, |t|)
    decreases |order|
  {
    if order == [] then 0 else SumFree(t, order[..|order| - 1]) + FreeCount(t[order[|order| - 1]])
  }

  /** The free entries of the rows named by `order`, row after row. */
  function Visited(t: seq<seq<int>>, order: seq<int>): seq<int>
    requires InRange(order, |t|)
    decreases |order|
  {
    if order == [] then [] else Visited(t, order[..|order| - 1]) + Nonneg(t[order[|order| - 1]])
  }

  /** Two rows with the same pattern of free slots have the same free count. */
  lemma {:induction false} FreeCountSigns(a: seq<int>, b: seq<int>)
    requires |a| == |b|
    requires forall j :: 0 <= j < |a| ==> (a[j] >= 0 <==> b[j] >= 0)
    ensures FreeCount(a) == FreeCount(b)
  {
    if a != [] {
      FreeCountSigns(a[..|a| - 1], b[..|b| - 1]);
    }
  }

  /** Numbering one row hands out exactly the values c, c+1, ..., in slot order. */
  lemma {:induction false} RowConsecutive(row: seq<int>, c: int)
    requires c >= 0
    ensures Nonneg(NumberRow(row, c)) == Iota(c, FreeCount(row))
  {
    if row != [] {
      var m := |row| - 1;
      var r := NumberRow(row, c);
      var front := row[..m];
      assert r[..m] == NumberRow(front, c) by {
        forall j | 0 <= j < m ensures r[..m][j] == NumberRow(front, c)[j] {
          assert front[..j] == row[..j];
        }
      }
      RowConsecutive(front, c);
      assert r[m] == c + FreeCount(front) || r[m] == row[m];
    }
  }

  /** A pass never changes a fixed or constrained slot, and keeps every slot's
      free/non-free status. */
  lemma {:induction false} NumberedKeepsSigns(t: seq<seq<int>>, order: seq<int>, c0: int)
    requires InRange(order, |t|) && c0 >= 0
    ensures Numbered(t, order, c0).1 >= c0
    ensures forall n, j :: 0 <= n < |t| && 0 <= j < |t[n]| ==>
              (Numbered(t, order, c0).0[n][j] >= 0 <==> t[n][j] >= 0)
    ensures forall n, j :: 0 <= n < |t| && 0 <= j < |t[n]| && t[n][j] < 0 ==>
              Numbered(t, order, c0).0[n][j] == t[n][j]
    decreases |order|
  {
    if order != [] {
      NumberedKeepsSigns(t, order[..|order| - 1], c0);
    }
  }

  /** A row that the order does not name is left as it was. */
  lemma {:induction false} NumberedUnvisited(t: seq<seq<int>>, order: seq<int>, c0: int, n: int)
    requires InRange(order, |t|) && 0 <= n < |t| && n !in order
    ensures Numbered(t, order, c0).0[n] == t[n]
    decreases |order|
  {
    if order != [] {
      assert n !in order[..|order| - 1] by {
        assert forall x :: x in order[..|order| - 1] ==> x in order;
      }
      NumberedUnvisited(t, order[..|order| - 1], c0, n);
    }
  }

  /** The final counter is the start plus the number of free slots in the
      visited rows. */
  lemma {:induction false} NumberedCount(t: seq<seq<int>>, order: seq<int>, c0: int)
    requires InRange(order, |t|) && c0 >= 0
    ensures Numbered(t, order, c0).1 == c0 + SumFree(t, order)
    decreases |order|
  {
    if order != [] {
      var front := order[..|order| - 1];
      var n := order[|order| - 1];
      NumberedCount(t, front, c0);
      NumberedKeepsSigns(t, front, c0);
      FreeCountSigns(Numbered(t, front, c0).0[n], t[n]);
    }
  }

  /** Closed form: when the order names each row at most once, the row visited
      k-th is numbered from the counter value reached by the rows before it. */
  lemma {:induction false} NumberedRowClosedForm(t: seq<seq<int>>, order: seq<int>, c0: int, k: int)
    requires InRange(order, |t|) && Distinct(order) && c0 >= 0 && 0 <= k < |order|
    ensures Numbered(t, order, c0).0[order[k]] == NumberRow(t[order[k]], c0 + SumFree(t, order[..k]))
    decreases |order|
  {
    var m := |order| - 1;
    if k == m {
      ClosedFormLast(t, order, c0);
    } else {
      var front := order[..m];
      PrefixOrder(order, |t|, m);
      assert front[k] == order[k] && order[k] != order[m];
      assert front[..k] == order[..k];
      NumberedRowClosedForm(t, front, c0, k);
      NumberedStep(t, order, c0, m);
      assert order[..m + 1] == order;
    }
  }

  /** The row visited last is numbered from the counter reached before it. */
  lemma ClosedFormLast(t: seq<seq<int>>, order: seq<int>, c0: int)
    requires InRange(order, |t|) && Distinct(order) && c0 >= 0 && |order| > 0
    ensures InRange(order[..|order| - 1], |t|)
    ensures Numbered(t, order, c0).0[order[|order| - 1]]
      == NumberRow(t[order[|order| - 1]], c0 + SumFree(t, order[..|order| - 1]))
  {
    var m := |order| - 1;
    PrefixOrder(order, |t|, m);
    NumberedUnvisited(t, order[..m], c0, order[m]);
    NumberedCount(t, order[..m], c0);
  }

  /** Visited depends only on the rows it names. */
  lemma {:induction false} VisitedFrame(t: seq<seq<int>>, order: seq<int>, n: int, row: seq<int>)
    requires InRange(order, |t|) && 0 <= n < |t| && n !in order
    ensures Visited(t[n := row], order) == Visited(t, order)
    decreases |order|
  {
    if order != [] {
      var front := order[..|order| - 1];
      assert n !in front by {
        assert forall x :: x in front ==> x in order;
      }
      VisitedFrame(t, front, n, row);
    }
  }

  /** The central property of the pass: reading the free slots of the visited
      rows in visiting order (row by row, slot by slot) gives exactly
      c0, c0+1, ..., c0+SumFree-1 — every number once, in order. */
  lemma {:induction false} NumberedConsecutive(t: seq<seq<int>>, order: seq<int>, c0: int)
    requires InRange(order, |t|) && Distinct(order) && c0 >= 0
    ensures Visited(Numbered(t, order, c0).0, order) == Iota(c0, SumFree(t, order))
    decreases |order|
  {
    if order != [] {
      var m := |order| - 1;
      var front := order[..m];
      var n := order[m];
      PrefixOrder(order, |t|, m);
      var prev := Numbered(t, front, c0);
      var row := NumberRow(prev.0[n], prev.1);
      var after := prev.0[n := row];
      assert Numbered(t, order, c0).0 == after;
      NumberedConsecutive(t, front, c0);
      VisitedFrame(prev.0, front, n, row);
      NumberedCount(t, front, c0);
      NumberedUnvisited(t, front, c0, n);
      RowConsecutive(t[n], prev.1);
      var a := SumFree(t, front);
      assert Visited(after, order) == Visited(after, front) + Nonneg(row);
      IotaConcat(c0, a, FreeCount(t[n]));
    }
  }

  /** A prefix of an order stays in range and distinct, and with a distinct
      order the row after the prefix is not in it. */
  lemma PrefixOrder(order: seq<int>, n: nat, m: int)
    requires InRange(order, n) && 0 <= m < |order|
    ensures InRange(order[..m], n)
    ensures Distinct(order) ==> Distinct(order[..m]) && order[m] !in order[..m]
  {
    if Distinct(order) {
      forall x | 0 <= x < m ensures order[..m][x] != order[m] {
        assert order[..m][x] == order[x];
      }
    }
  }

  lemma IotaConcat(c: int, a: nat, b: nat)
    ensures Iota(c, a) + Iota(c + a, b) == Iota(c, a + b)
  {
    var lhs := Iota(c, a) + Iota(c + a, b);
    forall k | 0 <= k < a + b ensures lhs[k] == Iota(c, a + b)[k] {
      if k < a { assert lhs[k] == Iota(c, a)[k]; } else { assert lhs[k] == Iota(c + a, b)[k - a]; }
    }
  }

  /** One step of the pass, stated on a prefix of the order. */
  lemma NumberedStep(t: seq<seq<int>>, order: seq<int>, c0: int, i: int)
    requires InRange(order, |t|) && 0 <= i < |order|
    ensures InRange(order[..i], |t|) && InRange(order[..i + 1], |t|)
    ensures var prev := Numbered(t, order[..i], c0);
      Numbered(t, order[..i + 1], c0)
        == (prev.0[order[i] := NumberRow(prev.0[order[i]], prev.1)], prev.1 + FreeCount(prev.0[order[i]]))
  {
    assert order[..i + 1][..i] == order[..i];
  }
}
