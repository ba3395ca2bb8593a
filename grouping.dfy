/** `df.groupby("Faculty", sort=False)`: one group per faculty, the groups
    in the order their faculty first appears, each group's rows in table
    order. */
module Grouping {
  import opened Text
  import opened Roster

  /** The rows of faculty `f`, in table order. */
  function Filter(rows: seq<Row>, f: string): (r: seq<Row>)
    ensures forall x | x in r :: x.faculty == f
  {
    if rows == [] then []
    else (if rows[0].faculty == f then [rows[0]] else []) + Filter(rows[1..], f)
  }

  /** The rows of every other faculty, in table order. */
  function Without(rows: seq<Row>, f: string): (r: seq<Row>)
    ensures forall x | x in r :: x.faculty != f
    ensures |r| + |Filter(rows, f)| == |rows|
    ensures multiset(r) + multiset(Filter(rows, f)) == multiset(rows)
  {
    if rows == [] then []
    else
      assert rows == [rows[0]] + rows[1..];
      (if rows[0].faculty == f then [] else [rows[0]]) + Without(rows[1..], f)
  }

  function Flatten(groups: seq<seq<Row>>): seq<Row> {
    if groups == [] then [] else groups[0] + Flatten(groups[1..])
  }

  /** A non-empty run of rows of a single faculty. */
  predicate Block(group: seq<Row>) {
    group != [] && forall x | x in group :: x.faculty == group[0].faculty
  }

  /** The groups are blocks of pairwise different faculties. */
  predicate FacultyBlocks(groups: seq<seq<Row>>) {
    (forall g | 0 <= g < |groups| :: Block(groups[g])) &&
    (forall g, h | 0 <= g < h < |groups| :: groups[g][0].faculty != groups[h][0].faculty)
  }

  /** The faculty groups in first-seen order: the group of the first row's
      faculty, then the groups of the remaining rows. */
  function GroupByFaculty(rows: seq<Row>): (groups: seq<seq<Row>>)
    ensures FacultyBlocks(groups)
    ensures multiset(Flatten(groups)) == multiset(rows)
    decreases |rows|
  {
    if rows == [] then []
    else
      var f := rows[0].faculty;
      var first := Filter(rows, f);
      assert first == [rows[0]] + Filter(rows[1..], f);
      var rest := GroupByFaculty(Without(rows, f));
      PrependBlock(first, rest, Without(rows, f));
      [first] + rest
  }

  /** A block whose faculty none of the later rows has can go in front of
      the groups of those rows. */
  lemma PrependBlock(first: seq<Row>, rest: seq<seq<Row>>, others: seq<Row>)
    requires Block(first) && FacultyBlocks(rest)
    requires multiset(Flatten(rest)) == multiset(others)
    requires forall x | x in others :: x.faculty != first[0].faculty
    ensures FacultyBlocks([first] + rest)
    ensures multiset(Flatten([first] + rest)) == multiset(first) + multiset(others)
  {
    var groups := [first] + rest;
    assert groups[1..] == rest;
    forall h | 0 < h < |groups| ensures groups[h][0].faculty != first[0].faculty {
      FlattenHolds(rest, h - 1, 0);
      assert groups[h][0] in multiset(others);
    }
    forall g, h | 0 <= g < h < |groups| ensures groups[g][0].faculty != groups[h][0].faculty {
      if g > 0 { assert groups[g] == rest[g - 1] && groups[h] == rest[h - 1]; }
    }
  }

  lemma {:induction false} FlattenHolds(groups: seq<seq<Row>>, g: nat, i: nat)
    requires g < |groups| && i < |groups[g]|
    ensures groups[g][i] in multiset(Flatten(groups))
  {
    if g > 0 {
      FlattenHolds(groups[1..], g - 1, i);
    }
  }

  lemma {:induction false} FlattenAppend(a: seq<seq<Row>>, b: seq<seq<Row>>)
    ensures Flatten(a + b) == Flatten(a) + Flatten(b)
  {
    if a == [] {
      assert a + b == b;
    } else {
      assert (a + b)[1..] == a[1..] + b;
      FlattenAppend(a[1..], b);
    }
  }

  // ---------------------------------------------------------------------
  // After the sort, groupby keeps the table order
  // ---------------------------------------------------------------------

  /** Rows of one faculty are never separated by a row of another faculty. */
  predicate Contiguous(rows: seq<Row>) {
    forall i, j, k | 0 <= i < j < k < |rows| ::
      rows[i].faculty == rows[k].faculty ==> rows[j].faculty == rows[i].faculty
  }

  /** A table sorted by (Faculty, Department, Name) has each faculty in one
      contiguous block. */
  lemma SortedContiguous(rows: seq<Row>)
    requires Sorted(rows)
    ensures Contiguous(rows)
  {
    forall i, j, k | 0 <= i < j < k < |rows| && rows[i].faculty == rows[k].faculty
      ensures rows[j].faculty == rows[i].faculty
    {
      KeyLeFaculty(rows[i], rows[j]);
      KeyLeFaculty(rows[j], rows[k]);
      StrLeAntisymmetric(rows[i].faculty, rows[j].faculty);
    }
  }

  /** The number of leading rows of faculty `f`. */
  function RunLength(rows: seq<Row>, f: string): (k: nat)
    ensures k <= |rows|
    ensures forall i | 0 <= i < k :: rows[i].faculty == f
    ensures k < |rows| ==> rows[k].faculty != f
  {
    if rows == [] || rows[0].faculty != f then 0 else 1 + RunLength(rows[1..], f)
  }

  lemma {:induction false} FilterNone(b: seq<Row>, f: string)
    requires forall x | x in b :: x.faculty != f
    ensures Filter(b, f) == [] && Without(b, f) == b
  {
    if b != [] {
      assert b[0] in b;
      FilterNone(b[1..], f);
    }
  }

  lemma {:induction false} FilterSplit(a: seq<Row>, b: seq<Row>, f: string)
    requires forall x | x in a :: x.faculty == f
    requires forall x | x in b :: x.faculty != f
    ensures Filter(a + b, f) == a && Without(a + b, f) == b
  {
    if a == [] {
      assert a + b == b;
      FilterNone(b, f);
    } else {
      assert a[0] in a;
      assert (a + b)[1..] == a[1..] + b;
      FilterSplit(a[1..], b, f);
    }
  }

  /** On a table whose faculties are contiguous, the groups are its runs and
      visiting them in order visits the table in its own order. */
  lemma {:induction false} ContiguousGroupsKeepOrder(rows: seq<Row>)
    requires Contiguous(rows)
    ensures Flatten(GroupByFaculty(rows)) == rows
    decreases |rows|
  {
    if rows != [] {
      var f := rows[0].faculty;
      var k := RunLength(rows, f);
      var a, b := rows[..k], rows[k..];
      assert rows == a + b;
      RunThenOthers(rows, k);
      FilterSplit(a, b, f);
      ContiguousSuffix(rows, k);
      ContiguousGroupsKeepOrder(b);
      assert GroupByFaculty(rows) == [a] + GroupByFaculty(b);
      assert ([a] + GroupByFaculty(b))[1..] == GroupByFaculty(b);
    }
  }

  /** In a contiguous table, once the first faculty's run ends that faculty
      does not appear again. */
  lemma RunThenOthers(rows: seq<Row>, k: nat)
    requires Contiguous(rows) && rows != [] && k == RunLength(rows, rows[0].faculty)
    ensures forall x | x in rows[k..] :: x.faculty != rows[0].faculty
  {
    var f := rows[0].faculty;
    forall x | x in rows[k..] ensures x.faculty != f {
      var j :| 0 <= j < |rows[k..]| && rows[k..][j] == x;
      assert rows[k + j] == x;
    }
  }

  lemma ContiguousSuffix(rows: seq<Row>, k: nat)
    requires Contiguous(rows) && k <= |rows|
    ensures Contiguous(rows[k..])
  {
    var b := rows[k..];
    forall i, j, l | 0 <= i < j < l < |b| && b[i].faculty == b[l].faculty
      ensures b[j].faculty == b[i].faculty
    {
      assert b[i] == rows[k + i] && b[j] == rows[k + j] && b[l] == rows[k + l];
    }
  }

  /** Sorting then grouping: groupby visits the faculty blocks in sorted
      order, with each block's rows in sorted order. */
  lemma SortedGroupsKeepOrder(rows: seq<Row>)
    requires Sorted(rows)
    ensures Flatten(GroupByFaculty(rows)) == rows
  {
    SortedContiguous(rows);
    ContiguousGroupsKeepOrder(rows);
  }
}
