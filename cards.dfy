/** The admit cards: the six text lines of each card, the QR payload, and
    the whole run from the spreadsheet rows to the list of cards. */
module AdmitCards {
  import opened Text
  import opened Faculty
  import opened Roster
  import opened Grouping
  import opened Rolls
  import opened Phone
  import opened Layout

  /** The four fields the QR code's JSON object carries. */
  datatype Payload = Payload(name: string, roll: string, department: string, phone: string)

  /** One card: where it is drawn, its text lines top to bottom, and what
      its QR code encodes. */
  datatype Card = Card(slot: Slot, lines: seq<string>, qr: Payload)

  /** The `Roll No` cell: the mapped roll number, or pandas' missing value
      when the index label has none. */
  function RollText(rolls: map<nat, string>, index: nat): string {
    if index in rolls then rolls[index] else "nan"
  }

  /** The printed lines show the same name, department, phone and roll
      number as the QR code. */
  predicate TextMatchesCode(card: Card) {
    |card.lines| == 6 &&
    card.lines[0] == "Name: " + card.qr.name &&
    card.lines[1] == "Dept: " + card.qr.department &&
    card.lines[3] == "Phone: " + card.qr.phone &&
    card.lines[5] == "Roll/Reg. ID: " + card.qr.roll
  }

  /** The card of `row`, with roll number `roll`, drawn at `slot`. The
      printed phone and the QR phone are computed the same way. */
  function MakeCard(row: Row, roll: string, slot: Slot): (card: Card)
    ensures card.slot == slot && TextMatchesCode(card)
    ensures card.qr == Payload(row.student.name, roll, row.student.department, CardPhone(row.student.phone))
    ensures card.lines[2] == "Faculty: " + row.faculty
    ensures card.lines[4] == "Email: " + row.student.email
  {
    var visible := CardPhone(row.student.phone);
    var phone := CardPhone(row.student.phone);
    Card(slot,
         ["Name: " + row.student.name,
          "Dept: " + row.student.department,
          "Faculty: " + row.faculty,
          "Phone: " + visible,
          "Email: " + row.student.email,
          "Roll/Reg. ID: " + roll],
         Payload(row.student.name, roll, row.student.department, phone))
  }

  /** The drawing loop: one card per row, in table order, each at the
      cursor's slot, the cursor moving on after every card. */
  method RenderCards(grid: Grid, rows: seq<Row>, rolls: map<nat, string>) returns (cards: seq<Card>)
    requires grid.Valid()
    ensures |cards| == |rows|
    ensures forall i | 0 <= i < |rows| ::
              cards[i] == MakeCard(rows[i], RollText(rolls, rows[i].index), SlotOf(grid, i))
  {
    var cursor := new CardCursor(grid);
    cards := [];
    var i := 0;
    while i < |rows|
      invariant 0 <= i <= |rows| && |cards| == i
      invariant cursor.Valid() && cursor.grid == grid && cursor.count == i
      invariant forall k {:trigger cards[k]} | 0 <= k < i ::
                  cards[k] == MakeCard(rows[k], RollText(rolls, rows[k].index), SlotOf(grid, k))
    {
      var card := MakeCard(rows[i], RollText(rolls, rows[i].index), cursor.Current());
      cards := cards + [card];
      cursor.Advance();
      i := i + 1;
    }
  }

  // ---------------------------------------------------------------------
  // The whole run
  // ---------------------------------------------------------------------

  /** The serials of a sorted table, row by row. */
  function SerialsOf(rows: seq<Row>): (serials: seq<nat>)
    requires Sorted(rows)
    ensures |serials| == |rows|
  {
    SortedGroupsKeepOrder(rows);
    Numbering(GroupByFaculty(rows), FirstSerial)
  }

  /** Every row of a reordered table is one of the classified rows: it
      carries its spreadsheet row and the faculty of that row's department. */
  lemma ReorderedRowsClassified(catalogue: Catalogue, table: seq<Registrant>, rows: seq<Row>)
    requires multiset(rows) == multiset(ClassifyAll(catalogue, table))
    ensures forall i | 0 <= i < |rows| ::
              rows[i].index < |table| && rows[i].student == table[rows[i].index] &&
              rows[i].faculty == GetFaculty(catalogue, rows[i].student.department)
  {
    var classified := ClassifyAll(catalogue, table);
    forall i | 0 <= i < |rows|
      ensures rows[i].index < |table| && rows[i].student == table[rows[i].index] &&
              rows[i].faculty == GetFaculty(catalogue, rows[i].student.department)
    {
      assert rows[i] in multiset(classified);
      var k :| 0 <= k < |classified| && classified[k] == rows[i];
    }
  }

  /** The rolls a sorted table receives: row `i` gets the roll of serial
      `SerialsOf(rows)[i]`, and the serials follow the step rule. */
  lemma SortedRolls(rows: seq<Row>, rolls: map<nat, string>)
    requires Sorted(rows)
    requires forall p | 0 <= p < |Flatten(GroupByFaculty(rows))| ::
               Flatten(GroupByFaculty(rows))[p].index in rolls &&
               rolls[Flatten(GroupByFaculty(rows))[p].index] == RollNumber(Numbering(GroupByFaculty(rows), FirstSerial)[p])
    ensures StepNumbered(rows, SerialsOf(rows), FirstSerial)
    ensures forall i | 0 <= i < |rows| :: RollText(rolls, rows[i].index) == RollNumber(SerialsOf(rows)[i])
    ensures forall i, j | 0 <= i < j < |rows| :: SerialsOf(rows)[i] < SerialsOf(rows)[j]
  {
    var groups := GroupByFaculty(rows);
    SortedGroupsKeepOrder(rows);
    var serials := SerialsOf(rows);
    assert serials == Numbering(groups, FirstSerial);
    NumberingSteps(groups, FirstSerial);
    StepIncreasingAll(rows, serials, FirstSerial);
  }

  /** The program from the spreadsheet rows to the cards: classify each
      row's department, sort by (Faculty, Department, Full Name), number the
      rows faculty by faculty, and draw one card per row in sorted order. */
  method GenerateAdmitCards(table: seq<Registrant>) returns (rows: seq<Row>, cards: seq<Card>)
    ensures rows == SortRows(ClassifyAll(FacultyDepartments, table))
    ensures multiset(rows) == multiset(ClassifyAll(FacultyDepartments, table))
    ensures Sorted(rows) && TiesInIndexOrder(rows) && |rows| == |table| && |cards| == |table|
    ensures forall i | 0 <= i < |rows| ::
              rows[i].index < |table| && rows[i].student == table[rows[i].index] &&
              rows[i].faculty == GetFaculty(FacultyDepartments, rows[i].student.department)
    ensures StepNumbered(rows, SerialsOf(rows), FirstSerial)
    ensures forall i {:trigger cards[i]} | 0 <= i < |cards| ::
              cards[i] == MakeCard(rows[i], RollNumber(SerialsOf(rows)[i]), SlotOf(SourceGrid, i))
    ensures forall i | 0 <= i < |cards| ::
              cards[i].slot == SlotOf(SourceGrid, i) &&
              cards[i].qr.roll == RollNumber(SerialsOf(rows)[i]) &&
              cards[i].qr.name == table[rows[i].index].name &&
              cards[i].qr.phone == CardPhone(table[rows[i].index].phone) &&
              TextMatchesCode(cards[i])
    ensures forall i, j | 0 <= i < j < |cards| :: cards[i].qr.roll != cards[j].qr.roll
  {
    var classified := ClassifyAll(FacultyDepartments, table);
    rows := SortRows(classified);
    UniqueIndicesPermutation(classified, rows);
    SortRowsStable(classified);
    var rolls := AssignRolls(rows);
    cards := RenderCards(SourceGrid, rows, rolls);
    CardsOfSortedRows(FacultyDepartments, table, rows, rolls, cards);
  }

  /** What the drawn cards show, given the sorted table and its rolls. */
  lemma CardsOfSortedRows(catalogue: Catalogue, table: seq<Registrant>, rows: seq<Row>, rolls: map<nat, string>, cards: seq<Card>)
    requires multiset(rows) == multiset(ClassifyAll(catalogue, table)) && Sorted(rows)
    requires forall p | 0 <= p < |Flatten(GroupByFaculty(rows))| ::
               Flatten(GroupByFaculty(rows))[p].index in rolls &&
               rolls[Flatten(GroupByFaculty(rows))[p].index] == RollNumber(Numbering(GroupByFaculty(rows), FirstSerial)[p])
    requires |cards| == |rows|
    requires forall i {:trigger cards[i]} | 0 <= i < |rows| ::
               cards[i] == MakeCard(rows[i], RollText(rolls, rows[i].index), SlotOf(SourceGrid, i))
    ensures |rows| == |table|
    ensures forall i | 0 <= i < |rows| ::
              rows[i].index < |table| && rows[i].student == table[rows[i].index] &&
              rows[i].faculty == GetFaculty(catalogue, rows[i].student.department)
    ensures StepNumbered(rows, SerialsOf(rows), FirstSerial)
    ensures forall i {:trigger cards[i]} | 0 <= i < |cards| ::
              cards[i] == MakeCard(rows[i], RollNumber(SerialsOf(rows)[i]), SlotOf(SourceGrid, i))
    ensures forall i | 0 <= i < |cards| ::
              cards[i].slot == SlotOf(SourceGrid, i) &&
              cards[i].qr.roll == RollNumber(SerialsOf(rows)[i]) &&
              cards[i].qr.name == table[rows[i].index].name &&
              cards[i].qr.phone == CardPhone(table[rows[i].index].phone) &&
              TextMatchesCode(cards[i])
    ensures forall i, j | 0 <= i < j < |cards| :: cards[i].qr.roll != cards[j].qr.roll
  {
    assert |multiset(rows)| == |multiset(ClassifyAll(catalogue, table))|;
    ReorderedRowsClassified(catalogue, table, rows);
    CardsShowRolls(rows, rolls, cards);
  }

  /** The drawn cards of a sorted table carry the roll numbers of their
      serials, and no two of them the same one. */
  lemma CardsShowRolls(rows: seq<Row>, rolls: map<nat, string>, cards: seq<Card>)
    requires Sorted(rows)
    requires forall p | 0 <= p < |Flatten(GroupByFaculty(rows))| ::
               Flatten(GroupByFaculty(rows))[p].index in rolls &&
               rolls[Flatten(GroupByFaculty(rows))[p].index] == RollNumber(Numbering(GroupByFaculty(rows), FirstSerial)[p])
    requires |cards| == |rows|
    requires forall i {:trigger cards[i]} | 0 <= i < |rows| ::
               cards[i] == MakeCard(rows[i], RollText(rolls, rows[i].index), SlotOf(SourceGrid, i))
    ensures StepNumbered(rows, SerialsOf(rows), FirstSerial)
    ensures forall i {:trigger cards[i]} | 0 <= i < |cards| ::
              cards[i] == MakeCard(rows[i], RollNumber(SerialsOf(rows)[i]), SlotOf(SourceGrid, i))
    ensures forall i, j | 0 <= i < j < |cards| :: cards[i].qr.roll != cards[j].qr.roll
  {
    SortedRolls(rows, rolls);
    var serials := SerialsOf(rows);
    forall i, j | 0 <= i < j < |cards| ensures cards[i].qr.roll != cards[j].qr.roll {
      RollNumberInjective(serials[i], serials[j]);
    }
  }
}
