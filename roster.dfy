/** The registrant table: rows read from the spreadsheet, the `Faculty`
    column added by `get_faculty`, and `sort_values` on
    (Faculty, Department, Full Name). */
module Roster {
  import opened Text
  import opened Faculty

  /** One spreadsheet row, the four columns the core reads, as text. */
  datatype Registrant = Registrant(name: string, department: string, phone: string, email: string)

  /** A table row: its index label, its derived faculty and its columns. */
  datatype Row = Row(index: nat, faculty: string, student: Registrant)

  /** No two rows carry the same index label. */
  predicate UniqueIndices(rows: seq<Row>) {
    forall p, q | 0 <= p < q < |rows| :: rows[p].index != rows[q].index
  }

  /** `df["Faculty"] = df["Department"].apply(get_faculty)` on a table
      freshly read from the spreadsheet, whose index labels are 0, 1, 2, ... */
  function ClassifyAll(catalogue: Catalogue, table: seq<Registrant>): (rows: seq<Row>)
    ensures |rows| == |table| && UniqueIndices(rows)
    ensures forall i | 0 <= i < |rows| ::
              rows[i].index == i && rows[i].student == table[i] &&
              rows[i].faculty == GetFaculty(catalogue, table[i].department)
  {
    seq(|table|, i requires 0 <= i < |table| => Row(i, GetFaculty(catalogue, table[i].department), table[i]))
  }

  // ---------------------------------------------------------------------
  // Index labels survive any reordering
  // ---------------------------------------------------------------------

  lemma {:induction false} UniqueIndicesPermutation(a: seq<Row>, b: seq<Row>)
    requires multiset(a) == multiset(b) && UniqueIndices(a)
    ensures UniqueIndices(b)
    decreases |a|
  {
    if a != [] {
      var x := a[0];
      assert x in multiset(b);
      var k :| 0 <= k < |b| && b[k] == x;
      var b' := RemoveAt(b, k);
      assert a == [x] + a[1..];
      assert multiset(a[1..]) == multiset(a) - multiset{x};
      UniqueIndicesTail(a);
      UniqueIndicesPermutation(a[1..], b');
      forall y: Row | y in multiset(b') ensures y.index != x.index {
        assert y in multiset(a[1..]);
        var m :| 0 <= m < |a[1..]| && a[1..][m] == y;
        assert a[m + 1] == y;
      }
      UniqueIndicesInsertAt(b, k);
    }
  }

  /** `s` without its element at position `k`. */
  function RemoveAt(s: seq<Row>, k: nat): (r: seq<Row>)
    requires k < |s|
    ensures |r| == |s| - 1
    ensures multiset(r) == multiset(s) - multiset{s[k]}
    ensures forall i | 0 <= i < |r| :: r[i] == s[if i < k then i else i + 1]
  {
    assert s == s[..k] + [s[k]] + s[k + 1..];
    s[..k] + s[k + 1..]
  }

  lemma UniqueIndicesTail(a: seq<Row>)
    requires a != [] && UniqueIndices(a)
    ensures UniqueIndices(a[1..])
  {
    forall p, q | 0 <= p < q < |a| - 1 ensures a[1..][p].index != a[1..][q].index {
      assert a[1..][p] == a[p + 1] && a[1..][q] == a[q + 1];
    }
  }

  lemma UniqueIndicesInsertAt(b: seq<Row>, k: nat)
    requires k < |b| && UniqueIndices(RemoveAt(b, k))
    requires forall y: Row | y in multiset(RemoveAt(b, k)) :: y.index != b[k].index
    ensures UniqueIndices(b)
  {
    var b' := RemoveAt(b, k);
    forall p, q | 0 <= p < q < |b| ensures b[p].index != b[q].index {
      if p == k {
        assert b[q] == b'[q - 1] && b'[q - 1] in multiset(b');
      } else if q == k {
        assert b[p] == b'[p] && b'[p] in multiset(b');
      } else {
        var p' := if p < k then p else p - 1;
        var q' := if q < k then q else q - 1;
        assert b[p] == b'[p'] && b[q] == b'[q'];
      }
    }
  }

  // ---------------------------------------------------------------------
  // The sort key (Faculty, Department, Full Name)
  // ---------------------------------------------------------------------

  /** `a` does not come after `b` by the three sort columns, compared
      column by column as Python compares strings. */
  predicate KeyLe(a: Row, b: Row) {
    if a.faculty != b.faculty then StrLe(a.faculty, b.faculty)
    else if a.student.department != b.student.department then StrLe(a.student.department, b.student.department)
    else StrLe(a.student.name, b.student.name)
  }

  lemma KeyLeTotal(a: Row, b: Row)
    ensures KeyLe(a, b) || KeyLe(b, a)
  {
    StrLeTotal(a.faculty, b.faculty);
    StrLeTotal(a.student.department, b.student.department);
    StrLeTotal(a.student.name, b.student.name);
  }

  lemma KeyLeTransitive(a: Row, b: Row, c: Row)
    requires KeyLe(a, b) && KeyLe(b, c)
    ensures KeyLe(a, c)
  {
    KeyLeFaculty(a, b);
    KeyLeFaculty(b, c);
    if a.faculty != c.faculty {
      StrLeTransitive(a.faculty, b.faculty, c.faculty);
    } else {
      if a.faculty != b.faculty { StrLeAntisymmetric(a.faculty, b.faculty); }
      assert a.faculty == b.faculty == c.faculty;
      var ad, bd, cd := a.student.department, b.student.department, c.student.department;
      StrLeReflexive(ad); StrLeReflexive(bd);
      if ad != cd {
        StrLeTransitive(ad, bd, cd);
      } else {
        if ad != bd { StrLeAntisymmetric(ad, bd); }
        StrLeTransitive(a.student.name, b.student.name, c.student.name);
      }
    }
  }

  /** The key order is ordered first by faculty. */
  lemma KeyLeFaculty(a: Row, b: Row)
    requires KeyLe(a, b)
    ensures StrLe(a.faculty, b.faculty)
  {
    StrLeReflexive(a.faculty);
  }

  predicate Sorted(rows: seq<Row>) {
    forall i, j | 0 <= i < j < |rows| :: KeyLe(rows[i], rows[j])
  }

  // ---------------------------------------------------------------------
  // sort_values
  // ---------------------------------------------------------------------

  /** Place `x` before the first row it does not come after. */
  function Insert(x: Row, rows: seq<Row>): (r: seq<Row>)
    requires Sorted(rows)
    ensures Sorted(r) && multiset(r) == multiset(rows) + multiset{x}
  {
    if rows == [] then [x]
    else if KeyLe(x, rows[0]) then
      InsertFront(x, rows);
      [x] + rows
    else
      var rest := Insert(x, rows[1..]);
      assert rows == [rows[0]] + rows[1..];
      InsertBehind(rows[0], x, rows[1..], rest);
      [rows[0]] + rest
  }

  /** A row that `x` comes after stays in front of the rest with `x` placed in it. */
  lemma InsertBehind(first: Row, x: Row, tail: seq<Row>, rest: seq<Row>)
    requires Sorted([first] + tail) && !KeyLe(x, first)
    requires Sorted(rest) && multiset(rest) == multiset(tail) + multiset{x}
    ensures Sorted([first] + rest)
  {
    KeyLeTotal(x, first);
    forall y | y in multiset(rest) ensures KeyLe(first, y) {
      if y != x {
        assert y in multiset(tail);
        var m :| 0 <= m < |tail| && tail[m] == y;
        assert ([first] + tail)[0] == first && ([first] + tail)[m + 1] == y;
      }
    }
    forall j | 0 < j < |rest| + 1 ensures KeyLe(first, ([first] + rest)[j]) {
      assert ([first] + rest)[j] == rest[j - 1] && rest[j - 1] in multiset(rest);
    }
  }

  lemma InsertFront(x: Row, rows: seq<Row>)
    requires Sorted(rows) && rows != [] && KeyLe(x, rows[0])
    ensures Sorted([x] + rows)
  {
    forall j | 0 < j < |rows| ensures KeyLe(x, rows[j]) {
      KeyLeTransitive(x, rows[0], rows[j]);
    }
  }

  /** `df.sort_values(["Faculty", "Department", "Full Name ..."])`: a stable
      sort by the three columns (stability is `SortRowsStable`). */
  function SortRows(rows: seq<Row>): (r: seq<Row>)
    ensures Sorted(r) && multiset(r) == multiset(rows)
  {
    if rows == [] then []
    else
      assert rows == [rows[0]] + rows[1..];
      Insert(rows[0], SortRows(rows[1..]))
  }

  // ---------------------------------------------------------------------
  // Stability
  // ---------------------------------------------------------------------

  /** Index labels go up along the table, as in a table freshly read. */
  predicate IncreasingIndices(rows: seq<Row>) {
    forall p, q | 0 <= p < q < |rows| :: rows[p].index < rows[q].index
  }

  /** Rows whose three sort columns tie stand in the order of their index
      labels. */
  predicate TiesInIndexOrder(rows: seq<Row>) {
    forall i, j | 0 <= i < j < |rows| && KeyLe(rows[j], rows[i]) :: rows[i].index < rows[j].index
  }

  /** Inserting a row whose label is below every other label keeps ties in
      label order: it goes in front of every row it ties with. */
  lemma {:induction false} InsertKeepsTies(x: Row, rows: seq<Row>)
    requires Sorted(rows) && TiesInIndexOrder(rows)
    requires forall y | y in rows :: x.index < y.index
    ensures TiesInIndexOrder(Insert(x, rows))
  {
    if rows != [] {
      if KeyLe(x, rows[0]) {
        TiesFront(x, rows);
      } else {
        var tail := rows[1..];
        TiesTail(rows);
        assert forall y | y in tail :: y in rows;
        InsertKeepsTies(x, tail);
        TiesBehind(x, rows, Insert(x, tail));
      }
    }
  }

  lemma TiesTail(rows: seq<Row>)
    requires rows != [] && TiesInIndexOrder(rows)
    ensures TiesInIndexOrder(rows[1..])
  {
    var tail := rows[1..];
    forall i, j | 0 <= i < j < |tail| && KeyLe(tail[j], tail[i]) ensures tail[i].index < tail[j].index {
      assert tail[i] == rows[i + 1] && tail[j] == rows[j + 1];
    }
  }

  lemma TiesFront(x: Row, rows: seq<Row>)
    requires TiesInIndexOrder(rows)
    requires forall y | y in rows :: x.index < y.index
    ensures TiesInIndexOrder([x] + rows)
  {
    var r := [x] + rows;
    forall i, j | 0 <= i < j < |r| && KeyLe(r[j], r[i]) ensures r[i].index < r[j].index {
      if i == 0 { assert r[j] == rows[j - 1] && rows[j - 1] in rows; }
      else { assert r[i] == rows[i - 1] && r[j] == rows[j - 1]; }
    }
  }

  /** `rows[0]`, which `x` comes after, in front of the rest with `x` placed in it. */
  lemma TiesBehind(x: Row, rows: seq<Row>, rest: seq<Row>)
    requires rows != [] && !KeyLe(x, rows[0]) && TiesInIndexOrder(rows)
    requires TiesInIndexOrder(rest) && multiset(rest) == multiset(rows[1..]) + multiset{x}
    ensures TiesInIndexOrder([rows[0]] + rest)
  {
    var r := [rows[0]] + rest;
    forall i, j | 0 <= i < j < |r| && KeyLe(r[j], r[i]) ensures r[i].index < r[j].index {
      if i == 0 {
        var y := rest[j - 1];
        assert y in multiset(rest);
        if y != x {
          assert y in multiset(rows[1..]);
          var m :| 0 <= m < |rows[1..]| && rows[1..][m] == y;
          assert rows[m + 1] == y;
        }
      } else {
        assert r[i] == rest[i - 1] && r[j] == rest[j - 1];
      }
    }
  }

  /** `sort_values` is stable: rows that tie on all three columns keep
      their order, which for a freshly read table is label order. */
  lemma {:induction false} SortRowsStable(rows: seq<Row>)
    requires IncreasingIndices(rows)
    ensures TiesInIndexOrder(SortRows(rows))
  {
    if rows != [] {
      var tail := rows[1..];
      assert IncreasingIndices(tail) by {
        forall p, q | 0 <= p < q < |tail| ensures tail[p].index < tail[q].index {
          assert tail[p] == rows[p + 1] && tail[q] == rows[q + 1];
        }
      }
      SortRowsStable(tail);
      var sorted := SortRows(tail);
      forall y | y in sorted ensures rows[0].index < y.index {
        assert y in multiset(sorted);
        assert y in multiset(tail);
        var m :| 0 <= m < |tail| && tail[m] == y;
        assert rows[m + 1] == y;
      }
      InsertKeepsTies(rows[0], sorted);
    }
  }

  /** Sorting keeps every row exactly once: the result is the same table,
      reordered, with its index labels still unique. */
  lemma SortRowsKeepsRows(rows: seq<Row>)
    requires UniqueIndices(rows)
    ensures |SortRows(rows)| == |rows| && UniqueIndices(SortRows(rows))
    ensures forall r | r in SortRows(rows) :: r in rows
    ensures forall r | r in rows :: r in SortRows(rows)
  {
    var s := SortRows(rows);
    assert |multiset(s)| == |multiset(rows)|;
    UniqueIndicesPermutation(rows, s);
    forall r | r in s ensures r in rows { assert r in multiset(s); }
    forall r | r in rows ensures r in s { assert r in multiset(rows); }
  }
}
