// The memoized reference computation the build command checks its result
// against: a recursive computation over a table of growable rows, where 0
// marks an entry not yet computed.

module AckMemo {
  import opened Ackermann

  /** Every entry already computed holds the Ackermann value of its position. */
  ghost predicate Sound(t: seq<seq<int>>) {
    forall i, j :: 0 <= i < |t| && 0 <= j < |t[i]| && t[i][j] != 0 ==> t[i][j] == Ack(i, j)
  }

  /** u is t after some calls: same number of rows, rows only grown, and
      every entry already computed in t unchanged. */
  ghost predicate Extends(t: seq<seq<int>>, u: seq<seq<int>>) {
    |u| == |t| &&
    (forall i :: 0 <= i < |t| ==> |u[i]| >= |t[i]|) &&
    (forall i, j :: 0 <= i < |t| && 0 <= j < |t[i]| && t[i][j] != 0 ==> u[i][j] == t[i][j])
  }

  lemma ExtendsTransitive(t: seq<seq<int>>, u: seq<seq<int>>, v: seq<seq<int>>)
    requires Extends(t, u) && Extends(u, v)
    ensures Extends(t, v)
  {
  }

  /** Row m resized to length n + 1, the new entries 0. */
  function Resized(t: seq<seq<int>>, m: nat, n: nat): (u: seq<seq<int>>)
    requires m < |t| && n >= |t[m]|
    ensures |u| == |t| && |u[m]| == n + 1 && u[m][n] == 0
    ensures forall i :: 0 <= i < |t| && i != m ==> u[i] == t[i]
    ensures forall j :: 0 <= j < |t[m]| ==> u[m][j] == t[m][j]
  {
    t[m := t[m] + seq(n + 1 - |t[m]|, _ => 0)]
  }

  /** Growing row m to length n + 1 with zeros keeps the table sound. */
  lemma GrowRow(t: seq<seq<int>>, m: nat, n: nat)
    requires Sound(t) && m < |t| && n >= |t[m]|
    ensures Sound(Resized(t, m, n)) && Extends(t, Resized(t, m, n))
  {
  }

  /** Recording the true value of (m, n) keeps the table sound and changes
      no entry that was already computed. */
  lemma Record(t: seq<seq<int>>, m: nat, n: nat)
    requires Sound(t) && m < |t| && n < |t[m]|
    ensures Sound(t[m := t[m][n := Ack(m, n)]])
    ensures Extends(t, t[m := t[m][n := Ack(m, n)]])
  {
  }

  lemma ExtendsReflexive(t: seq<seq<int>>)
    ensures Extends(t, t)
  {
  }

  /** The memo table: one growable row per first argument 0..m. */
  class MemoTable {
    var rows: seq<seq<int>>

    ghost predicate Valid()
      reads this
    {
      Sound(rows)
    }

    /** A table of m + 1 empty rows. */
    constructor (m: nat)
      ensures Valid()
      ensures |rows| == m + 1 && forall i :: 0 <= i < |rows| ==> rows[i] == []
    {
      rows := seq(m + 1, _ => []);
    }

    /** Computes Ack(m, n), reusing and extending the table: rows only grow,
        entries already computed never change, and on return the entry for
        (m, n) holds the result, which is never the "absent" mark 0. */
    method AckInternal(m: nat, n: nat) returns (r: nat)
      requires Valid() && m < |rows|
      modifies this
      ensures Valid() && Extends(old(rows), rows)
      ensures r == Ack(m, n)
      ensures n < |rows[m]| && rows[m][n] == r && r != 0
      decreases m, n
    {
      ghost var before := rows;
      if n >= |rows[m]| {
        GrowRow(rows, m, n);
        rows := Resized(rows, m, n);
      } else {
        ExtendsReflexive(rows);
      }
      if rows[m][n] != 0 {
        return rows[m][n];
      }

      ghost var sized := rows;
      var result: nat;
      if m == 0 {
        result := n + 1;
      } else if n == 0 {
        result := AckInternal(m - 1, 1);
        ExtendsTransitive(before, sized, rows);
      } else {
        var inner := AckInternal(m, n - 1);
        ghost var mid := rows;
        result := AckInternal(m - 1, inner);
        ExtendsTransitive(sized, mid, rows);
        ExtendsTransitive(before, sized, rows);
      }

      Record(rows, m, n);
      ExtendsTransitive(before, rows, rows[m := rows[m][n := result]]);
      rows := rows[m := rows[m][n := result]];
      r := result;
    }
  }

  /** The reference value ack(m, n) the build result is compared with. */
  method AckMemoized(m: nat, n: nat) returns (r: nat)
    ensures r == Ack(m, n)
  {
    var table := new MemoTable(m);
    r := table.AckInternal(m, n);
  }
}
