# Admit-card generator: a verified model

This project models the core of `generate_admit_cards.py`, a script that
turns a spreadsheet of registrants into a PDF of admit cards. The script:

1. classifies each registrant's department into a faculty (`get_faculty`);
2. sorts the table by (Faculty, Department, Full Name);
3. numbers the rows faculty by faculty. A roll number is `5017010` followed
   by the serial zero-padded to four digits. Serials start at 1, go up by one per
   row, and 20 serials are skipped after each faculty;
4. draws one card per row on A4 pages. Each card carries six text lines and
   a QR code whose JSON object holds the name, roll number, department and
   phone. The phone is stripped of surrounding whitespace. Then a ten-character
   number that does not start with `0` gets a `0` in front, and an
   eleven-character number that does not start with `0` has its first
   character replaced by `0`.

The model has eight modules:

- `Text`: decimal spelling, zero padding, `str.strip()` and Python's string order.
- `Faculty`: the faculty catalogue and `GetFaculty`.
- `Roster`: table rows, classification and `sort_values`.
- `Grouping`: `groupby(..., sort=False)`.
- `Rolls`: roll numbers and the numbering loop.
- `Phone`: phone normalisation.
- `Layout`: the page grid and the `CardCursor` class that holds the
  drawing loop's `count`, `x` and `y`.
- `AdmitCards`: card contents, the drawing loop and the whole run.

The numbering loop and the drawing loop change variables step by step, so
they are methods with loop invariants. They are proved against
specification functions: `Numbering` and `RollMap` for the numbering loop,
`SlotOf` and `MakeCard` for the drawing loop. The rest is functions and
lemmas.

Lengths in `Layout` are whole millimetres: margin 10, card 100 × 50, gap 5,
A4 210 × 297. So the top card's lower edge is at y = 237, and neighbouring
cards are 105 apart across and 55 apart down. A page number stands for the
number of `showPage` calls made before the card.

The grid follows the code: `CARDS_PER_ROW = 1`, `CARDS_PER_COL = 5`, so
five cards fit on a page. The comment beside `CARDS_PER_COL` says four.

## Model

| member | source | states |
|---|---|---|
| Faculty.GetFaculty | generate_admit_cards.py:64-68 | the result is `"Others"` or the name of a catalogue entry |
| Faculty.GetFacultyFirstListing | generate_admit_cards.py:65-67 | when entry `k` is the first in catalogue order whose list holds the department, the result is entry `k`'s name |
| Faculty.GetFacultyUnlisted | generate_admit_cards.py:68 | a department no entry lists is classified `"Others"` |
| Faculty.ListedOrNot | generate_admit_cards.py:64-68 | every department is either unlisted or has a first listing, so the two lemmas above fix the result on every input |
| Faculty.GetFacultyUnique | generate_admit_cards.py:64-68 | when no department is listed twice, the faculty is the entry that lists the department, wherever that entry is |
| Faculty.FacultyDepartmentsWellFormed | generate_admit_cards.py:15-53 | the configured catalogue lists each department under one faculty only, and no faculty is named `"Others"` |
| Faculty.ConfiguredOthersIffUnlisted | generate_admit_cards.py:64-70 | with the configured catalogue, a department is classified `"Others"` exactly when no faculty lists it |
| Faculty.ExampleMathematics | generate_admit_cards.py:16-17 | `"Mathematics"` is classified under the Faculty of Science and Engineering, the first entry |
| Faculty.ExampleBotany | generate_admit_cards.py:24-29 | `"Botany"` is classified under the Faculty of Bio-Sciences |
| Faculty.ExampleLaw | generate_admit_cards.py:50-52 | `"Law"` is classified under the Faculty of Law, the last entry |
| Faculty.ExampleUnlisted | generate_admit_cards.py:68 | a department outside the catalogue is classified `"Others"` |
| Roster.ClassifyAll | generate_admit_cards.py:70 | one row per spreadsheet row, with index label `i`, that row's columns, and the faculty of its department; the index labels are distinct |
| Roster.UniqueIndicesPermutation | generate_admit_cards.py:72 | reordering the table keeps its index labels distinct |
| Roster.KeyLeTotal | generate_admit_cards.py:72 | any two rows are comparable by (Faculty, Department, Full Name) |
| Roster.KeyLeTransitive | generate_admit_cards.py:72 | the sort key order is transitive |
| Roster.Insert | generate_admit_cards.py:72 | inserting a row into a sorted table gives a sorted table with that row added |
| Roster.SortRows | generate_admit_cards.py:72 | the sorted table is ordered by (Faculty, Department, Full Name) and is a permutation of the input; its stability is the next row |
| Roster.SortRowsStable | generate_admit_cards.py:72 | the sort is stable: on a freshly read table, rows that tie on all three columns stay in spreadsheet order |
| Roster.SortRowsKeepsRows | generate_admit_cards.py:72 | sorting keeps the length, keeps the index labels distinct, and neither adds nor drops a row |
| Grouping.GroupByFaculty | generate_admit_cards.py:77 | the groups are non-empty single-faculty blocks with distinct faculties, and together they hold exactly the input rows |
| Grouping.SortedContiguous | generate_admit_cards.py:72-77 | in a sorted table the rows of each faculty stand next to each other |
| Grouping.ContiguousGroupsKeepOrder | generate_admit_cards.py:77-78 | when each faculty's rows are contiguous, first-seen grouping visits the rows in table order |
| Grouping.SortedGroupsKeepOrder | generate_admit_cards.py:72-78 | after the sort, the loop over groups and their rows visits the rows in sorted order |
| Rolls.RollNumber | generate_admit_cards.py:79 | a roll number is `"5017010"`, then decimal digits whose value is the serial: exactly four, or more with no leading `0`, so the suffix is `max(4, digits of serial)` long |
| Rolls.RollPrefixDigits | generate_admit_cards.py:14 | `"5017010"` is the decimal spelling of `BASE_ROLL` |
| Rolls.RollNumberInjective | generate_admit_cards.py:79 | two serials give the same roll number exactly when they are equal |
| Rolls.RollNumberExample | generate_admit_cards.py:79 | serial 7 gives `"50170100007"` |
| Rolls.Numbering | generate_admit_cards.py:76-82 | the loop gives one serial to every row it visits, in visiting order |
| Rolls.NumberingAppend | generate_admit_cards.py:76-82 | numbering two runs of groups is numbering the first, then the second from the serial the first stops at |
| Rolls.GroupEntry | generate_admit_cards.py:78-81 | row `j` of group `g` gets the group's first serial plus `j` |
| Rolls.NumberingSteps | generate_admit_cards.py:76-82 | serials start at 1, go up by 1 between rows of one faculty and by 21 where a new faculty starts |
| Rolls.StepIncreasing | generate_admit_cards.py:81-82 | under that step rule, serials strictly increase along the table |
| Rolls.StepIncreasingAll | generate_admit_cards.py:81-82 | under that step rule, every earlier row has a smaller serial than every later row |
| Rolls.NumberingDistinctRolls | generate_admit_cards.py:76-82 | different rows get different serials, and so different roll numbers |
| Rolls.RollMapKeys | generate_admit_cards.py:80 | the rows given a roll are exactly the index labels visited |
| Rolls.RollMapValue | generate_admit_cards.py:80 | with distinct labels, the row at position `p` is mapped to the roll of serial `p` |
| Rolls.AssignRolls | generate_admit_cards.py:75-84 | the loop maps exactly the table's index labels, and the row at position `p` of the group-by-group order to the roll of `Numbering(...)[p]` |
| Rolls.NumberBlock | generate_admit_cards.py:78-81 | the inner loop extends the map by one group's rows and advances the serial by the group's size |
| Phone.NormalizePhone | generate_admit_cards.py:117-120 | ten characters without a leading `0` gain one; eleven without a leading `0` have the first character replaced by `0`; all else is unchanged |
| Phone.NormalizePhoneChanges | generate_admit_cards.py:117-120 | the number is rewritten exactly when it has ten or eleven characters and does not start with `0` |
| Phone.NormalizePhoneLocalForm | generate_admit_cards.py:117-120 | the result is eleven characters starting with `0` exactly when the input was, or had ten or eleven characters without a leading `0` |
| Phone.NormalizePhoneKeepsSubscriber | generate_admit_cards.py:117-120 | the last ten characters of a ten- or eleven-character number are kept |
| Phone.NormalizePhoneExamples | generate_admit_cards.py:117-120 | sample inputs: a number missing its `0`, one with a country digit, a local one, an international one |
| Phone.CardPhone | generate_admit_cards.py:116-120 | when the stripped cell has ten or eleven characters and no leading `0`, the card phone is eleven characters starting with `0`; otherwise it is exactly the stripped cell |
| Phone.CardPhoneKeepsSubscriber | generate_admit_cards.py:116-120 | when the stripped cell is rewritten, the card phone after its leading `0` is the last ten characters of the stripped cell |
| Phone.CardPhoneIdempotent | generate_admit_cards.py:116-120 | applying the card-phone rule to a card phone changes nothing |
| Text.Strip | generate_admit_cards.py:116 | the result is a slice of the cell with only whitespace cut off before and after it, and it neither starts nor ends with whitespace |
| Text.StripIdempotent | generate_admit_cards.py:116 | stripping twice is stripping once |
| Text.Decimal | generate_admit_cards.py:79 | `str(n)` is a non-empty string of digits with value `n` and no leading `0`, except that `str(0)` is `"0"` |
| Text.ZeroPadZeros | generate_admit_cards.py:79 | padding to a width puts exactly enough `0`s in front of the digits to reach that width, and none when they already reach it |
| Text.PaddedDecimalValue | generate_admit_cards.py:79 | `{serial:04d}` is all digits, has value `serial`, and is `max(4, digits of serial)` long |
| Text.StrLeFirstDifference | generate_admit_cards.py:72 | the string order used by the sort holds exactly when the first string is a prefix of the second, or has the smaller character where they first differ |
| Layout.StepCases | generate_admit_cards.py:166-176 | one cursor step starts a new page, at the top left, exactly when the count is a multiple of the cards per page; otherwise it moves one column right, or back to the margin one row down when the count fills a row |
| Layout.StepSlotOf | generate_admit_cards.py:166-176 | the cursor update moves card `i`'s slot to card `i + 1`'s slot |
| Layout.SlotOfFirst | generate_admit_cards.py:100-102 | the first card is at the left margin, at the top card position, on the first page |
| Layout.SlotOfInjective | generate_admit_cards.py:100-102 | two cards share a slot only if they are the same card |
| Layout.SourceGridFivePerPage | generate_admit_cards.py:55-56 | with the script's settings a page holds five cards; card 4 is the last on page 0 (y = 17) and card 5 starts page 1 at the top |
| Layout.SourceGridInsideMargins | generate_admit_cards.py:55-58 | with the script's settings every card lies inside the 10 mm margins |
| Layout.CardCursor.constructor | generate_admit_cards.py:100-102 | the cursor starts at the left margin, at the top card position, with count 0 |
| Layout.CardCursor.Current | generate_admit_cards.py:107 | the cursor's position is the slot of card number `count` |
| Layout.CardCursor.Advance | generate_admit_cards.py:166-176 | the count goes up by one, the position moves by the step rule, and it is again the slot of card number `count` |
| AdmitCards.MakeCard | generate_admit_cards.py:116-148 | the card's name, department, phone and roll lines show the same values as the QR payload; the phone is the card phone of the cell; the faculty and e-mail lines are as in the row |
| AdmitCards.RenderCards | generate_admit_cards.py:104-176 | card `i` is row `i`'s card, drawn at slot `i` |
| AdmitCards.ReorderedRowsClassified | generate_admit_cards.py:70-72 | every row of the sorted table is a spreadsheet row with the faculty of its department |
| AdmitCards.SortedRolls | generate_admit_cards.py:72-84 | in the sorted table the `Roll No` cell of row `i` is the roll number of its serial, never the missing value; the serials follow the step rule and strictly increase |
| AdmitCards.CardsShowRolls | generate_admit_cards.py:75-84 | cards drawn from the mapped `Roll No` cells are the cards of each row with the roll number of its serial, and no two carry the same roll |
| AdmitCards.CardsOfSortedRows | generate_admit_cards.py:70-176 | for any catalogue, card `i` is exactly the card of sorted row `i` with the roll number of its serial, drawn at slot `i`, so every text line and QR field is fixed; the serials follow the step rule, and no two cards carry the same roll |
| AdmitCards.GenerateAdmitCards | generate_admit_cards.py:61-178 | the whole run. The sorted table is the stable sort of the classified spreadsheet: a permutation of it, ordered by the three columns, with tied rows in spreadsheet order. There is one card per registrant. Card `i` is exactly the card of sorted row `i` with the roll number of its serial, at slot `i`: its name, department, faculty, e-mail and phone lines and its QR payload are all fixed. Serials follow the step rule, and roll numbers are distinct |

## Left out

- Reading `students.xlsx`: the table is a parameter. Cells are taken as text. The model does not cover pandas' conversion of numeric cells (a phone stored as a number, `str()` of a float such as `1712345678.0`) or of empty cells (`nan`).
- Drawing through ReportLab is not modelled: rectangles, logos, fonts, the text origin, the QR image, temporary files and `c.save()`. A card is the data it shows: its slot, its six lines and its QR payload.
- The check that `kalpurush.ttf` exists and the `FileNotFoundError` it raises are not modelled, because they are file-system effects.
- Whether the logo files exist is not modelled; it changes only the images on a card.
- `json.dumps` and QR encoding are not modelled: the payload is kept as a record of its four fields.
- Coordinates are whole millimetres, not ReportLab points as floats. The grid arithmetic is the same.
- The final `print` is not modelled.
- `df.index.map` for a label with no roll gives the missing value; `RollText` writes it as `"nan"`. That branch is never taken in a run, because every index label gets a roll.
