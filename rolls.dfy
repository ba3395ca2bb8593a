/** Roll numbers: `f"{BASE_ROLL}{serial:04d}"`, numbered group by group
    with a gap of 20 unused serials after each faculty. */
module Rolls {
  import opened Text
  import opened Roster
  import opened Grouping

  const BaseRoll: nat := 5017010
  const FirstSerial: nat := 1
  /** Serials skipped after each faculty block. */
  const FacultyGap: nat := 20
  const SerialWidth: nat := 4

  /** `str(BASE_ROLL)`, the fixed front part of every roll number
      (`RollPrefixDigits` shows it is the decimal spelling of `BaseRoll`). */
  const RollPrefix: string := "5017010"

  /** `f"{BASE_ROLL}{serial:04d}"`: the prefix, then the serial in decimal,
      zero-padded to four digits; a longer suffix has no leading zero, so it
      is exactly as long as the serial needs. */
  function RollNumber(serial: nat): (roll: string)
    ensures |roll| >= |RollPrefix| + SerialWidth
    ensures |roll| > |RollPrefix| + SerialWidth ==> roll[|RollPrefix|] != '0'
    ensures roll[..|RollPrefix|] == RollPrefix
    ensures AllDigits(roll[|RollPrefix|..]) && DigitsValue(roll[|RollPrefix|..]) == serial
  {
    var suffix := ZeroPad(Decimal(serial), SerialWidth);
    PaddedDecimalValue(serial, SerialWidth);
    var roll := RollPrefix + suffix;
    assert roll[|RollPrefix|..] == suffix;
    roll
  }

  /** Two serials give the same roll number only if they are equal. */
  lemma RollNumberInjective(a: nat, b: nat)
    ensures RollNumber(a) == RollNumber(b) <==> a == b
  {
    if a != b {
      var n := |RollPrefix|;
      assert RollNumber(a)[n..] != RollNumber(b)[n..];
    }
  }

  /** The prefix is `str(BASE_ROLL)`. */
  lemma RollPrefixDigits()
    ensures Decimal(BaseRoll) == RollPrefix
  {
    assert Decimal(5) == "5";
    assert Decimal(50) == "50";
    assert Decimal(501) == "501";
    assert Decimal(5017) == "5017";
    assert Decimal(50170) == "50170";
    assert Decimal(501701) == "501701";
  }

  /** Serial 7 gives `"50170100007"`. */
  lemma RollNumberExample()
    ensures RollNumber(7) == "50170100007"
  {
    assert Decimal(7) == "7";
    ZeroPadZeros("7", SerialWidth);
    assert Zeros(3) == "000";
  }

  // ---------------------------------------------------------------------
  // Serials, block by block
  // ---------------------------------------------------------------------

  function Consecutive(start: nat, n: nat): (s: seq<nat>)
    ensures |s| == n && forall i | 0 <= i < n :: s[i] == start + i
  {
    seq(n, i => start + i)
  }

  /** The value of `serial` after the loop has numbered `groups`, starting
      from `start`. */
  function NextSerial(groups: seq<seq<Row>>, start: nat): nat {
    if groups == [] then start
    else NextSerial(groups[1..], start + |groups[0]| + FacultyGap)
  }

  /** The serials the loop hands out, in the order it visits the rows
      (`Flatten(groups)`): consecutive within a group, then a jump. */
  function Numbering(groups: seq<seq<Row>>, start: nat): (serials: seq<nat>)
    ensures |serials| == |Flatten(groups)|
  {
    if groups == [] then []
    else Consecutive(start, |groups[0]|) + Numbering(groups[1..], start + |groups[0]| + FacultyGap)
  }

  lemma {:induction false} NumberingAppend(a: seq<seq<Row>>, b: seq<seq<Row>>, start: nat)
    ensures Numbering(a + b, start) == Numbering(a, start) + Numbering(b, NextSerial(a, start))
    ensures NextSerial(a + b, start) == NextSerial(b, NextSerial(a, start))
  {
    if a == [] {
      assert a + b == b;
    } else {
      assert (a + b)[1..] == a[1..] + b;
      NumberingAppend(a[1..], b, start + |a[0]| + FacultyGap);
    }
  }

  /** The visiting order and the serials split around group `g`. */
  lemma GroupSplit(groups: seq<seq<Row>>, g: nat, start: nat)
    requires g < |groups|
    ensures Flatten(groups) == Flatten(groups[..g]) + groups[g] + Flatten(groups[g + 1..])
    ensures Numbering(groups, start) ==
            Numbering(groups[..g], start) + Consecutive(NextSerial(groups[..g], start), |groups[g]|) +
            Numbering(groups[g + 1..], NextSerial(groups[..g + 1], start))
    ensures |Flatten(groups[..g + 1])| == |Flatten(groups[..g])| + |groups[g]|
    ensures NextSerial(groups[..g + 1], start) == NextSerial(groups[..g], start) + |groups[g]| + FacultyGap
  {
    var pre, one, post := groups[..g], [groups[g]], groups[g + 1..];
    assert groups == pre + one + post;
    assert groups[..g + 1] == pre + one;
    FlattenAppend(pre + one, post);
    FlattenAppend(pre, one);
    NumberingAppend(pre + one, post, start);
    NumberingAppend(pre, one, start);
    assert Flatten(one) == groups[g] + Flatten([]);
    assert Numbering(one, NextSerial(pre, start)) ==
           Consecutive(NextSerial(pre, start), |groups[g]|) + Numbering([], NextSerial(pre, start) + |groups[g]| + FacultyGap);
  }

  /** How far the numbering has got once group `g` is done. */
  lemma GroupSizes(groups: seq<seq<Row>>, g: nat, start: nat)
    requires g < |groups|
    ensures |Flatten(groups[..g])| + |groups[g]| <= |Flatten(groups)|
    ensures |Flatten(groups[..g + 1])| == |Flatten(groups[..g])| + |groups[g]|
    ensures NextSerial(groups[..g + 1], start) == NextSerial(groups[..g], start) + |groups[g]| + FacultyGap
  {
    GroupSplit(groups, g, start);
  }

  /** Row `j` of group `g`: its position in the visiting order and its serial. */
  lemma GroupEntry(groups: seq<seq<Row>>, g: nat, j: nat, start: nat)
    requires g < |groups| && j < |groups[g]|
    ensures |Flatten(groups[..g])| + j < |Flatten(groups)|
    ensures Flatten(groups)[|Flatten(groups[..g])| + j] == groups[g][j]
    ensures Numbering(groups, start)[|Flatten(groups[..g])| + j] == NextSerial(groups[..g], start) + j
  {
    GroupSplit(groups, g, start);
  }

  /** The serials of `rows` start at `start` and go up by one between rows of
      the same faculty and by one plus the gap where the faculty changes. */
  predicate StepNumbered(rows: seq<Row>, serials: seq<nat>, start: nat) {
    |serials| == |rows| &&
    (|rows| > 0 ==> serials[0] == start) &&
    forall p | 0 <= p < |rows| - 1 ::
      serials[p + 1] == serials[p] + (if rows[p].faculty == rows[p + 1].faculty then 1 else 1 + FacultyGap)
  }

  /** Numbering faculty blocks follows the step rule. */
  lemma {:induction false} NumberingSteps(groups: seq<seq<Row>>, start: nat)
    requires FacultyBlocks(groups)
    ensures StepNumbered(Flatten(groups), Numbering(groups, start), start)
  {
    if groups != [] {
      var g0, rest := groups[0], groups[1..];
      var n := |g0|;
      var next := start + n + FacultyGap;
      assert FacultyBlocks(rest) by {
        forall g, h | 0 <= g < h < |rest| ensures rest[g][0].faculty != rest[h][0].faculty {
          assert rest[g] == groups[g + 1] && rest[h] == groups[h + 1];
        }
        forall g | 0 <= g < |rest| ensures Block(rest[g]) { assert rest[g] == groups[g + 1]; }
      }
      NumberingSteps(rest, next);
      var rows, serials := Flatten(groups), Numbering(groups, start);
      var rows', serials' := Flatten(rest), Numbering(rest, next);
      assert rows == g0 + rows' && serials == Consecutive(start, n) + serials';
      assert Block(g0);
      forall p | 0 <= p < |rows| - 1
        ensures serials[p + 1] == serials[p] + (if rows[p].faculty == rows[p + 1].faculty then 1 else 1 + FacultyGap)
      {
        if p < n - 1 {
          assert rows[p] == g0[p] && rows[p + 1] == g0[p + 1];
          assert g0[p] in g0 && g0[p + 1] in g0;
        } else if p == n - 1 {
          assert rest != [] && Block(rest[0]);
          assert rows' == rest[0] + Flatten(rest[1..]);
          assert rows[p + 1] == rest[0][0] && rows[p] == g0[n - 1];
          assert g0[n - 1] in g0;
          assert groups[0][0].faculty != groups[1][0].faculty;
        } else {
          assert rows[p] == rows'[p - n] && rows[p + 1] == rows'[p - n + 1];
        }
      }
    }
  }

  /** Under the step rule serials strictly increase. */
  lemma {:induction false} StepIncreasing(rows: seq<Row>, serials: seq<nat>, start: nat, p: nat, q: nat)
    requires StepNumbered(rows, serials, start)
    requires p < q < |rows|
    ensures serials[p] < serials[q]
    decreases q - p
  {
    if p + 1 < q {
      StepIncreasing(rows, serials, start, p, q - 1);
    }
  }

  /** Under the step rule serials strictly increase along the whole table. */
  lemma StepIncreasingAll(rows: seq<Row>, serials: seq<nat>, start: nat)
    requires StepNumbered(rows, serials, start)
    ensures forall p, q | 0 <= p < q < |rows| :: serials[p] < serials[q]
  {
    forall p, q | 0 <= p < q < |rows| ensures serials[p] < serials[q] {
      StepIncreasing(rows, serials, start, p, q);
    }
  }

  /** The serials of faculty blocks start at 1, increase strictly, and so no
      two rows get the same roll number. */
  lemma NumberingDistinctRolls(groups: seq<seq<Row>>, p: nat, q: nat)
    requires FacultyBlocks(groups)
    requires p < q < |Flatten(groups)|
    ensures Numbering(groups, FirstSerial)[0] == FirstSerial
    ensures Numbering(groups, FirstSerial)[p] < Numbering(groups, FirstSerial)[q]
    ensures RollNumber(Numbering(groups, FirstSerial)[p]) != RollNumber(Numbering(groups, FirstSerial)[q])
  {
    var serials := Numbering(groups, FirstSerial);
    NumberingSteps(groups, FirstSerial);
    StepIncreasing(Flatten(groups), serials, FirstSerial, p, q);
    RollNumberInjective(serials[p], serials[q]);
  }

  // ---------------------------------------------------------------------
  // The assignment loop
  // ---------------------------------------------------------------------

  function IndexSet(rows: seq<Row>): set<nat> {
    set r | r in rows :: r.index
  }

  /** The dictionary built by giving `order[p]` the roll number of
      `serials[p]`, one row after the other. */
  function RollMap(order: seq<Row>, serials: seq<nat>): map<nat, string>
    requires |order| == |serials|
  {
    if order == [] then map[]
    else
      var n := |order| - 1;
      RollMap(order[..n], serials[..n])[order[n].index := RollNumber(serials[n])]
  }

  /** The keys are the index labels of the rows. */
  lemma {:induction false} RollMapKeys(order: seq<Row>, serials: seq<nat>)
    requires |order| == |serials|
    ensures RollMap(order, serials).Keys == IndexSet(order)
  {
    if order != [] {
      var n := |order| - 1;
      RollMapKeys(order[..n], serials[..n]);
      assert order == order[..n] + [order[n]];
      assert IndexSet(order) == IndexSet(order[..n]) + {order[n].index};
    }
  }

  /** With unique index labels, no later row overwrites an earlier row's
      entry: the row at position `p` keeps the roll of `serials[p]`. */
  lemma {:induction false} RollMapValue(order: seq<Row>, serials: seq<nat>, p: nat)
    requires |order| == |serials| && UniqueIndices(order) && p < |order|
    ensures order[p].index in RollMap(order, serials)
    ensures RollMap(order, serials)[order[p].index] == RollNumber(serials[p])
  {
    var n := |order| - 1;
    if p < n {
      var pre, pres := order[..n], serials[..n];
      assert UniqueIndices(pre);
      assert order[p] == pre[p] && serials[p] == pres[p];
      RollMapValue(pre, pres, p);
    }
  }

  /** Rows with the same rows, in any order, have the same index labels. */
  lemma IndexSetPermutation(a: seq<Row>, b: seq<Row>)
    requires multiset(a) == multiset(b)
    ensures IndexSet(a) == IndexSet(b)
  {
    forall i | i in IndexSet(a) ensures i in IndexSet(b) {
      var r :| r in a && r.index == i;
      assert r in multiset(b);
    }
    forall i | i in IndexSet(b) ensures i in IndexSet(a) {
      var r :| r in b && r.index == i;
      assert r in multiset(a);
    }
  }

  /** The roll-number loop: walk the faculty groups in order, give each row
      of a group the next serial, and skip `FacultyGap` serials after each
      group. Every row gets exactly one roll number; the row in position `p`
      of the visiting order gets serial `Numbering(...)[p]`. */
  method AssignRolls(rows: seq<Row>) returns (rolls: map<nat, string>)
    requires UniqueIndices(rows)
    ensures rolls.Keys == IndexSet(rows)
    ensures var groups := GroupByFaculty(rows);
            var order, serials := Flatten(groups), Numbering(groups, FirstSerial);
            forall p | 0 <= p < |order| :: order[p].index in rolls && rolls[order[p].index] == RollNumber(serials[p])
  {
    var groups := GroupByFaculty(rows);
    ghost var order := Flatten(groups);
    ghost var serials := Numbering(groups, FirstSerial);
    rolls := map[];
    var serial := FirstSerial;
    ghost var done := 0;
    var g := 0;
    while g < |groups|
      invariant 0 <= g <= |groups|
      invariant done == |Flatten(groups[..g])| <= |order|
      invariant serial == NextSerial(groups[..g], FirstSerial)
      invariant rolls == RollMap(order[..done], serials[..done])
    {
      GroupSizes(groups, g, FirstSerial);
      BlockEntries(groups, g, FirstSerial, order, serials, done, serial);
      ghost var next := done + |groups[g]|;
      rolls, serial := NumberBlock(groups[g], rolls, serial, order, serials, done);
      assert rolls == RollMap(order[..next], serials[..next]);
      serial := serial + FacultyGap;
      done := next;
      g := g + 1;
    }
    WholePrefix(groups, order, serials, g, done);
    RollMapOfPermutation(rows, order, serials);
  }

  /** Once every group is done, the prefix is the whole visiting order. */
  lemma WholePrefix(groups: seq<seq<Row>>, order: seq<Row>, serials: seq<nat>, g: nat, done: nat)
    requires g == |groups| && order == Flatten(groups) && done == |Flatten(groups[..g])| && |serials| == |order|
    ensures done == |order| && order[..done] == order && serials[..done] == serials
  {
    assert groups[..g] == groups;
  }

  /** The dictionary built over any reordering of rows with unique index
      labels has exactly their labels as keys and each row's roll. */
  lemma RollMapOfPermutation(rows: seq<Row>, order: seq<Row>, serials: seq<nat>)
    requires UniqueIndices(rows) && multiset(order) == multiset(rows) && |order| == |serials|
    ensures RollMap(order, serials).Keys == IndexSet(rows)
    ensures forall p | 0 <= p < |order| ::
              order[p].index in RollMap(order, serials) &&
              RollMap(order, serials)[order[p].index] == RollNumber(serials[p])
  {
    UniqueIndicesPermutation(rows, order);
    IndexSetPermutation(rows, order);
    RollMapKeys(order, serials);
    forall p | 0 <= p < |order|
      ensures order[p].index in RollMap(order, serials) &&
              RollMap(order, serials)[order[p].index] == RollNumber(serials[p])
    {
      RollMapValue(order, serials, p);
    }
  }

  /** The inner loop: the rows of one faculty block get consecutive serials
      from `serial` on. The block occupies positions `done, done + 1, ...`
      of the visiting order `order`, whose serials are `serials`. */
  method NumberBlock(block: seq<Row>, rolls: map<nat, string>, serial: nat,
                     ghost order: seq<Row>, ghost serials: seq<nat>, ghost done: nat)
    returns (rolls': map<nat, string>, serial': nat)
    requires |order| == |serials| && done + |block| <= |order|
    requires forall j | 0 <= j < |block| :: order[done + j] == block[j] && serials[done + j] == serial + j
    requires rolls == RollMap(order[..done], serials[..done])
    ensures rolls' == RollMap(order[..done + |block|], serials[..done + |block|])
    ensures serial' == serial + |block|
  {
    rolls', serial' := rolls, serial;
    var j := 0;
    while j < |block|
      invariant 0 <= j <= |block|
      invariant serial' == serial + j
      invariant rolls' == RollMap(order[..done + j], serials[..done + j])
    {
      RollMapSnoc(order, serials, done + j, block[j], serial');
      rolls' := rolls'[block[j].index := RollNumber(serial')];
      serial' := serial' + 1;
      j := j + 1;
    }
  }

  /** Group `g` occupies consecutive positions of the visiting order, from
      the number of rows before it on, with consecutive serials. */
  lemma BlockEntries(groups: seq<seq<Row>>, g: nat, start: nat,
                     order: seq<Row>, serials: seq<nat>, done: nat, first: nat)
    requires g < |groups|
    requires order == Flatten(groups) && serials == Numbering(groups, start)
    requires done == |Flatten(groups[..g])| && first == NextSerial(groups[..g], start)
    ensures |order| == |serials| && done + |groups[g]| <= |order|
    ensures forall j | 0 <= j < |groups[g]| :: order[done + j] == groups[g][j] && serials[done + j] == first + j
  {
    GroupSizes(groups, g, start);
    forall j | 0 <= j < |groups[g]| ensures order[done + j] == groups[g][j] && serials[done + j] == first + j {
      GroupEntry(groups, g, j, start);
    }
  }

  /** Extending the prefix by the row at position `n` adds that row's entry. */
  lemma RollMapSnoc(order: seq<Row>, serials: seq<nat>, n: nat, row: Row, serial: nat)
    requires n < |order| == |serials| && order[n] == row && serials[n] == serial
    ensures RollMap(order[..n + 1], serials[..n + 1]) ==
            RollMap(order[..n], serials[..n])[row.index := RollNumber(serial)]
  {
    assert order[..n + 1][..n] == order[..n];
    assert serials[..n + 1][..n] == serials[..n];
  }
}
