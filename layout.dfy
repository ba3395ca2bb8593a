/** Where each card goes on the A4 pages: a grid of `CARDS_PER_ROW` by
    `CARDS_PER_COL` cards, filled left to right and top to bottom, a new
    page once it is full. Lengths are whole millimetres, y grows upwards
    as in PDF coordinates. */
module Layout {

  /** The page grid: cards per row and per column, the left margin, the
      y of the top row's lower edge, and the distance between neighbouring
      cards' origins. */
  datatype Grid = Grid(perRow: nat, perCol: nat, xMargin: int, top: int, stepX: int, stepY: int)
  {
    predicate Valid() {
      perRow >= 1 && perCol >= 1
    }

    function PerPage(): (n: nat)
      requires Valid()
      ensures n >= 1
    {
      perRow * perCol
    }
  }

  /** A card position: the page (how many `showPage` calls came before)
      and the lower-left corner of the card's rectangle. */
  datatype Slot = Slot(page: nat, x: int, y: int)

  const PageWidth: int := 210
  const PageHeight: int := 297
  const Margin: int := 10
  const CardWidth: int := 100
  const CardHeight: int := 50
  /** Space between neighbouring cards. */
  const Spacing: int := 5

  /** The grid the cards are printed on: one card per row, five rows. */
  const SourceGrid: Grid := Grid(1, 5, Margin, PageHeight - Margin - CardHeight,
                                 CardWidth + Spacing, CardHeight + Spacing)

  /** The slot of the card numbered `i` (from 0): page `i / PerPage`, and in
      that page row `w / perRow` and column `w % perRow` of `w = i % PerPage`. */
  function SlotOf(g: Grid, i: nat): Slot
    requires g.Valid()
  {
    var w := i % g.PerPage();
    Slot(i / g.PerPage(), g.xMargin + (w % g.perRow) * g.stepX, g.top - (w / g.perRow) * g.stepY)
  }

  /** The update after drawing card number `count - 1` (lines 166-176 of
      the program): move one column right, or back to the margin and one
      row down when the row is full; start over at the top of a new page
      when the page is full. */
  function Step(g: Grid, s: Slot, count: nat): Slot
    requires g.Valid()
  {
    var s' := if count % g.perRow == 0 then Slot(s.page, g.xMargin, s.y - g.stepY)
              else Slot(s.page, s.x + g.stepX, s.y);
    if count % g.PerPage() == 0 then Slot(s'.page + 1, g.xMargin, g.top) else s'
  }

  /** What one step does: a new page starts exactly when `count` is a
      multiple of the cards per page, and then at the top left; otherwise
      the cursor moves one column right, or to the margin one row down
      when `count` fills a row. */
  lemma StepCases(g: Grid, s: Slot, count: nat)
    requires g.Valid()
    ensures var r := Step(g, s, count);
      && (r.page == s.page + 1 <==> count % g.PerPage() == 0)
      && (r.page == s.page || r.page == s.page + 1)
      && (r.page != s.page ==> r.x == g.xMargin && r.y == g.top)
      && (r.page == s.page && count % g.perRow != 0 ==> r.x == s.x + g.stepX && r.y == s.y)
      && (r.page == s.page && count % g.perRow == 0 ==> r.x == g.xMargin && r.y == s.y - g.stepY)
  {
  }

  // ---------------------------------------------------------------------
  // Arithmetic
  // ---------------------------------------------------------------------

  lemma MulZero(d: int, m: int)
    requires m > 0 && -m < d * m < m
    ensures d == 0
  {
  }

  lemma DivModUnique(a: int, m: int, q: int, r: int)
    requires m > 0 && 0 <= r < m && a == q * m + r
    ensures a / m == q && a % m == r
  {
    MulZero(a / m - q, m);
  }

  /** Going from `a` to `a + 1`: either the remainder wraps to 0 and the
      quotient goes up by one, or the remainder goes up by one. */
  lemma ModSucc(a: nat, m: nat)
    requires m > 0
    ensures (a + 1) % m == 0 ==> (a + 1) / m == a / m + 1 && a % m == m - 1
    ensures (a + 1) % m != 0 ==> (a + 1) / m == a / m && (a + 1) % m == a % m + 1
  {
    var q, r := a / m, a % m;
    if r + 1 == m {
      DivModUnique(a + 1, m, q + 1, 0);
    } else {
      DivModUnique(a + 1, m, q, r + 1);
    }
  }

  /** The column is the same whether counted on the page or from the
      first card. */
  lemma ColumnOnPage(g: Grid, i: nat)
    requires g.Valid()
    ensures (i % g.PerPage()) % g.perRow == i % g.perRow
  {
    var P, R := g.PerPage(), g.perRow;
    var w := i % P;
    var q := i / P;
    assert i == q * P + w;
    assert q * P == (q * g.perCol) * R by {
      assert P == R * g.perCol;
    }
    DivModUnique(i, R, q * g.perCol + w / R, w % R);
  }

  lemma MulCancel(a: int, b: int, k: int)
    requires k > 0 && a * k == b * k
    ensures a == b
  {
  }

  /** A card number is recovered from its page, row and column. */
  lemma Decompose(g: Grid, i: nat)
    requires g.Valid()
    ensures i == (i / g.PerPage()) * g.PerPage() + ((i % g.PerPage()) / g.perRow) * g.perRow + (i % g.PerPage()) % g.perRow
    ensures (i % g.PerPage()) / g.perRow < g.perCol
  {
    var P, R, C := g.PerPage(), g.perRow, g.perCol;
    var w := i % P;
    DivModUnique(w, R, w / R, w % R);
  }

  // ---------------------------------------------------------------------
  // Properties of the placement
  // ---------------------------------------------------------------------

  /** The first card is at the top left of the first page. */
  lemma SlotOfFirst(g: Grid)
    requires g.Valid()
    ensures SlotOf(g, 0) == Slot(0, g.xMargin, g.top)
  {
  }

  /** The step rule moves card `i`'s slot to card `i + 1`'s slot, so
      following it from the first slot places every card at `SlotOf`. */
  lemma StepSlotOf(g: Grid, i: nat)
    requires g.Valid()
    ensures Step(g, SlotOf(g, i), i + 1) == SlotOf(g, i + 1)
  {
    var P, R := g.PerPage(), g.perRow;
    var w, w' := i % P, (i + 1) % P;
    ModSucc(i, P);
    ColumnOnPage(g, i);
    ColumnOnPage(g, i + 1);
    if (i + 1) % P != 0 {
      assert w' == w + 1;
      ModSucc(w, R);
      if (i + 1) % R == 0 {
        assert w' / R == w / R + 1;
        assert g.top - (w' / R) * g.stepY == g.top - (w / R) * g.stepY - g.stepY;
      } else {
        assert (w' % R) * g.stepX == (w % R) * g.stepX + g.stepX;
      }
    }
  }

  /** Different cards never share a slot when the steps are positive. */
  lemma SlotOfInjective(g: Grid, i: nat, j: nat)
    requires g.Valid() && g.stepX > 0 && g.stepY > 0
    ensures SlotOf(g, i) == SlotOf(g, j) <==> i == j
  {
    if SlotOf(g, i) == SlotOf(g, j) {
      var P, R := g.PerPage(), g.perRow;
      var wi, wj := i % P, j % P;
      MulCancel(wi % R, wj % R, g.stepX);
      MulCancel(wi / R, wj / R, g.stepY);
      Decompose(g, i);
      Decompose(g, j);
    }
  }

  /** With the program's settings a page holds five cards, one below the
      other: card 4 is the last of the first page and card 5 starts the
      second one at the top. */
  lemma SourceGridFivePerPage()
    ensures SourceGrid.PerPage() == 5
    ensures SlotOf(SourceGrid, 0) == Slot(0, 10, 237)
    ensures SlotOf(SourceGrid, 4) == Slot(0, 10, 17)
    ensures SlotOf(SourceGrid, 5) == Slot(1, 10, 237)
  {
  }

  /** With the program's settings every card lies inside the page's
      10 mm margins. */
  lemma SourceGridInsideMargins(i: nat)
    ensures var s := SlotOf(SourceGrid, i);
            Margin <= s.x && s.x + CardWidth <= PageWidth - Margin &&
            Margin <= s.y && s.y + CardHeight <= PageHeight - Margin
  {
    Decompose(SourceGrid, i);
  }

  // ---------------------------------------------------------------------
  // The drawing cursor
  // ---------------------------------------------------------------------

  /** The variables `count`, `x` and `y` of the drawing loop, with the page
      number that `showPage` advances. */
  class CardCursor {
    const grid: Grid
    var count: nat
    var page: nat
    var x: int
    var y: int

    /** The cursor is at the slot of the next card to draw. */
    ghost predicate Valid()
      reads this
    {
      grid.Valid() && Slot(page, x, y) == SlotOf(grid, count)
    }

    /** `x, y = x_margin, page_height - y_margin - CARD_HEIGHT` and
        `count = 0`. */
    constructor(g: Grid)
      requires g.Valid()
      ensures grid == g && count == 0 && page == 0 && x == g.xMargin && y == g.top
      ensures Valid()
    {
      grid := g;
      count := 0;
      page := 0;
      x := g.xMargin;
      y := g.top;
    }

    function Current(): (s: Slot)
      reads this
      requires Valid()
      ensures s == SlotOf(grid, count)
    {
      Slot(page, x, y)
    }

    /** Count the card just drawn and move to the next slot, starting a new
        page when the current one is full. */
    method Advance()
      requires Valid()
      modifies this
      ensures count == old(count) + 1
      ensures Slot(page, x, y) == Step(grid, old(Slot(page, x, y)), count)
      ensures Valid()
    {
      StepSlotOf(grid, count);
      count := count + 1;
      if count % grid.perRow == 0 {
        x := grid.xMargin;
        y := y - grid.stepY;
      } else {
        x := x + grid.stepX;
      }
      if count % (grid.perRow * grid.perCol) == 0 {
        page := page + 1;
        x, y := grid.xMargin, grid.top;
      }
    }
  }
}
