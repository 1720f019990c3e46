/** Table semantics shared by the parameterised SQL statements: a table is a sequence of rows
    in insertion order, and `SELECT ... WHERE p` keeps the rows satisfying `p` in that order. */
module Tables {

  /** The rows of `rows` that satisfy `p`, in their original order. */
  function Where<T>(rows: seq<T>, p: T -> bool): (r: seq<T>)
    ensures |r| <= |rows|
    ensures forall x | x in r :: x in rows && p(x)
    ensures forall x | x in rows && p(x) :: x in r
  {
    if rows == [] then []
    else (if p(rows[0]) then [rows[0]] else []) + Where(rows[1..], p)
  }

  /** Filtering distributes over concatenation, so `Where` keeps the relative order of rows. */
  lemma {:induction false} WhereAppend<T>(a: seq<T>, b: seq<T>, p: T -> bool)
    ensures Where(a + b, p) == Where(a, p) + Where(b, p)
  {
    if a == [] {
      assert a + b == b;
    } else {
      assert (a + b)[1..] == a[1..] + b;
      WhereAppend(a[1..], b, p);
    }
  }

  /** A filter every row passes returns the whole table. */
  lemma {:induction false} WhereAll<T>(rows: seq<T>, p: T -> bool)
    requires forall x :: x in rows ==> p(x)
    ensures Where(rows, p) == rows
  {
    if rows != [] {
      WhereAll(rows[1..], p);
    }
  }

  /** A filter no row passes returns nothing. */
  lemma {:induction false} WhereNone<T>(rows: seq<T>, p: T -> bool)
    requires forall x :: x in rows ==> !p(x)
    ensures Where(rows, p) == []
  {
    if rows != [] {
      WhereNone(rows[1..], p);
    }
  }

  /** Two filters that agree on every row select the same rows. */
  lemma {:induction false} WhereSame<T>(rows: seq<T>, p: T -> bool, q: T -> bool)
    requires forall x :: x in rows ==> p(x) == q(x)
    ensures Where(rows, p) == Where(rows, q)
  {
    if rows != [] {
      WhereSame(rows[1..], p, q);
    }
  }

  /** When exactly row `k` fails the filter, the result is the table without that row. */
  lemma WhereAllButOne<T>(rows: seq<T>, p: T -> bool, k: int)
    requires 0 <= k < |rows| && !p(rows[k])
    requires forall j | 0 <= j < |rows| && j != k :: p(rows[j])
    ensures Where(rows, p) == rows[..k] + rows[k + 1..]
  {
    var a, x, b := rows[..k], rows[k], rows[k + 1..];
    WhereSlice(rows, p, 0, k, k);
    assert rows[0..k] == a;
    WhereSlice(rows, p, k + 1, |rows|, k);
    assert rows[k + 1..|rows|] == b;
    calc {
      Where(rows, p);
    == { SplitAround(rows, k); }
      Where(a + [x] + b, p);
    == { WhereDropsMiddle(a, x, b, p); }
      a + b;
    }
  }

  /** A rejected row between two parts that pass whole is dropped and nothing else is. */
  lemma WhereDropsMiddle<T>(a: seq<T>, x: T, b: seq<T>, p: T -> bool)
    requires Where(a, p) == a && Where(b, p) == b && !p(x)
    ensures Where(a + [x] + b, p) == a + b
  {
    WhereRejected(x, p);
    WhereAppend(a, [x], p);
    WhereAppend(a + [x], b, p);
    assert a + [] == a;
  }

  /** A slice that avoids row `k` passes the filter whole. */
  lemma WhereSlice<T>(rows: seq<T>, p: T -> bool, lo: int, hi: int, k: int)
    requires 0 <= lo <= hi <= |rows| && (hi <= k || k < lo)
    requires forall j | 0 <= j < |rows| && j != k :: p(rows[j])
    ensures Where(rows[lo..hi], p) == rows[lo..hi]
  {
    var part := rows[lo..hi];
    forall x | x in part ensures p(x) {
      var j :| 0 <= j < |part| && part[j] == x;
      assert x == rows[lo + j];
    }
    WhereAll(part, p);
  }

  lemma WhereRejected<T>(x: T, p: T -> bool)
    requires !p(x)
    ensures Where([x], p) == []
  {
    assert [x][1..] == [];
  }

  /** A table is its rows before `k`, row `k` and its rows after `k`. Kept as a lemma of its
      own so that the proofs about selection need not reason about slices. */
  lemma SplitAround<T>(rows: seq<T>, k: int)
    requires 0 <= k < |rows|
    ensures rows == rows[..k] + [rows[k]] + rows[k + 1..]
  {
  }

  /** The first selected row is the first row of the table that satisfies `p`. */
  lemma {:induction false} WhereFirst<T>(rows: seq<T>, p: T -> bool)
    requires Where(rows, p) != []
    ensures exists k :: 0 <= k < |rows| && rows[k] == Where(rows, p)[0] && p(rows[k])
              && forall j :: 0 <= j < k ==> !p(rows[j])
  {
    if p(rows[0]) {
      assert rows[0] == Where(rows, p)[0];
    } else {
      WhereFirst(rows[1..], p);
      var k :| 0 <= k < |rows[1..]| && rows[1..][k] == Where(rows[1..], p)[0] && p(rows[1..][k])
               && forall j :: 0 <= j < k ==> !p(rows[1..][j]);
      assert rows[k + 1] == Where(rows, p)[0];
      forall j | 0 <= j < k + 1 ensures !p(rows[j]) {
        if j > 0 { assert rows[j] == rows[1..][j - 1]; }
      }
    }
  }
}
