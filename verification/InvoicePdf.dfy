/**
 Where an invoice PDF draws what (`generatePdf` of `src/invoices/invoices.service.ts`): heights in
 points from the bottom of the page, pages counted from 0.
 */
module InvoicePdf {
  import opened Wrappers

  const HEIGHT := 842

  /** Which parts of the client block are filled in; `address` tells which of its lines are not blank. */
  datatype BillTo = BillTo(company: bool, address: seq<bool>, email: bool, phone: bool)

  datatype Invoice = Invoice(issued: bool, due: bool, client: Option<BillTo>, items: nat, notes: Option<seq<bool>>)

  datatype Place = Place(page: int, y: int)

  function FirstOf(lines: seq<bool>, most: nat): (r: seq<bool>)
    ensures |r| <= most
  {
    if |lines| <= most then lines else lines[..most]
  }

  function Filled(lines: seq<bool>): (n: nat)
    ensures n <= |lines|
  {
    if lines == [] then 0 else Filled(lines[..|lines| - 1]) + if lines[|lines| - 1] then 1 else 0
  }

  // ---- the drawing ----

  /** "Bill To" and the client's details, each filled part on its own line. */
  method DrawClient(client: BillTo, top: int) returns (rightY: int)
    ensures rightY == top - 32 - 14 * ClientParts(client)
  {
    rightY := top - 16;
    rightY := rightY - 16;
    if client.company {
      rightY := rightY - 14;
    }
    var lines := FirstOf(client.address, 3);
    ghost var above := rightY;
    for i := 0 to |lines|
      invariant rightY == above - 14 * Filled(lines[..i])
    {
      assert lines[..i + 1][..i] == lines[..i];
      if lines[i] {
        rightY := rightY - 14;
      }
    }
    assert lines[..|lines|] == lines;
    if client.email {
      rightY := rightY - 14;
    }
    if client.phone {
      rightY := rightY - 14;
    }
  }

  /** Draws the header block and returns the height of the first item line. */
  method DrawHeader(invoice: Invoice) returns (headers: Place, y: int)
    ensures y == FirstLineY(invoice)
    ensures headers == Place(0, y + 16)
  {
    var leftY, rightY := HEIGHT - 60, HEIGHT - 60;
    leftY := leftY - 30;
    leftY := leftY - 18;
    leftY := leftY - 18;
    if invoice.issued {
      leftY := leftY - 18;
    }
    if invoice.due {
      leftY := leftY - 18;
    }
    if invoice.client.Some? {
      rightY := DrawClient(invoice.client.value, rightY);
    }
    y := (if leftY < rightY then leftY else rightY) - 10;
    y := y - 20;
    headers := Place(0, y);
    y := y - 16;
  }

  /** The places of the item lines and column headers, the number of pages, and the height below the last line. */
  method DrawItems(items: nat, first: int) returns (lines: seq<Place>, headers: seq<Place>, pages: int, y: int)
    requires 100 <= first <= 766
    ensures |lines| == items && forall i :: 0 <= i < items ==> lines[i] == LinePlace(first, i)
    ensures y == BelowLines(first, items)
    ensures pages == PagesFor(first, items)
    ensures headers == HeaderPlaces(first, pages)
  {
    lines, pages, y := [], 1, first;
    headers := [Place(0, first + 16)];
    for i := 0 to items
      invariant |lines| == i && forall k :: 0 <= k < i ==> lines[k] == LinePlace(first, k)
      invariant y == BelowLines(first, i)
      invariant pages == PagesFor(first, i)
      invariant headers == HeaderPlaces(first, pages)
    {
      NextLine(first, i);
      if y < 100 {
        pages := pages + 1;
        y := HEIGHT - 60;
        headers := headers + [Place(pages - 1, y)];
        y := y - 16;
      }
      lines := lines + [Place(pages - 1, y)];
      y := y - 16;
    }
  }

  /** The note lines under a total at `total.y`. */
  method DrawNotes(total: Place, texts: seq<bool>) returns (notesLabel: Place, notes: seq<Place>)
    ensures notesLabel == Place(total.page, total.y - 30)
    ensures notes == NotePlaces(total, Filled(FirstOf(texts, 5)))
  {
    var y := total.y - 30;
    notesLabel, notes := Place(total.page, y), [];
    y := y - 14;
    var lines := FirstOf(texts, 5);
    for i := 0 to |lines|
      invariant notes == NotePlaces(total, Filled(lines[..i]))
      invariant y == total.y - 44 - 14 * |notes|
    {
      assert lines[..i + 1][..i] == lines[..i];
      if lines[i] && y > 50 {
        notes := notes + [Place(total.page, y)];
        y := y - 14;
      }
    }
    assert lines[..|lines|] == lines;
  }

  /** The page loop, the total, and the notes under it. */
  method Generate(invoice: Invoice)
    returns (lines: seq<Place>, total: Place, notesLabel: Option<Place>, notes: seq<Place>, pages: int)
    ensures var first := FirstLineY(invoice);
      && |lines| == invoice.items && (forall i :: 0 <= i < invoice.items ==> lines[i] == LinePlace(first, i))
      && pages == PagesFor(first, invoice.items)
      && total == TotalPlace(invoice)
    ensures invoice.notes.None? ==> notesLabel == None && notes == []
    ensures invoice.notes.Some? ==>
      && notesLabel == Some(Place(total.page, total.y - 30))
      && notes == NotePlaces(total, Filled(FirstOf(invoice.notes.value, 5)))
  {
    hide LinePlace, PagesFor, FirstLineY, BelowLines, NotePlaces;
    var headers, y := DrawHeader(invoice);
    var first := y;
    var columnHeaders;
    lines, columnHeaders, pages, y := DrawItems(invoice.items, y);
    LinesStayOnThePage(first, invoice.items);
    if y < 80 {
      pages := pages + 1;
      y := HEIGHT - 60;
    }
    y := y - 10;
    y := y - 20;
    total := Place(pages - 1, y);
    notesLabel, notes := None, [];
    if invoice.notes.Some? {
      var at;
      at, notes := DrawNotes(total, invoice.notes.value);
      notesLabel := Some(at);
    }
  }

  // ---- closed forms ----

  function ClientParts(c: BillTo): (n: nat)
    ensures n <= 6
  {
    Filled(FirstOf(c.address, 3))
    + (if c.company then 1 else 0) + (if c.email then 1 else 0) + (if c.phone then 1 else 0)
  }

  function FirstLineY(invoice: Invoice): (y: int)
    ensures 100 <= y <= 766
  {
    var left := 716 - (if invoice.issued then 18 else 0) - (if invoice.due then 18 else 0);
    var right := if invoice.client.None? then 782 else 750 - 14 * ClientParts(invoice.client.value);
    (if left < right then left else right) - 46
  }

  /** How many lines the first page holds; every later page holds 42. */
  function FirstPageLines(first: int): nat
    requires first >= 100
  {
    (first - 100) / 16 + 1
  }

  function LinePlace(first: int, i: nat): Place
    requires first >= 100
  {
    var c := FirstPageLines(first);
    if i < c then Place(0, first - 16 * i) else Place(1 + (i - c) / 42, 766 - 16 * ((i - c) % 42))
  }

  function BelowLines(first: int, n: nat): int
    requires first >= 100
  {
    if n == 0 then first else LinePlace(first, n - 1).y - 16
  }

  /** 1 + ceil(max(0, n - c) / 42) for n lines, c of them on page one. */
  function PagesFor(first: int, n: nat): (pages: int)
    requires first >= 100
    ensures pages >= 1
  {
    var c := FirstPageLines(first);
    if n <= c then 1 else 1 + (n - c + 41) / 42
  }

  function HeaderPlaces(first: int, pages: int): seq<Place> {
    if pages <= 1 then [Place(0, first + 16)] else HeaderPlaces(first, pages - 1) + [Place(pages - 1, 782)]
  }

  function TotalPlace(invoice: Invoice): Place {
    var first := FirstLineY(invoice);
    Place(PagesFor(first, invoice.items) - 1, BelowLines(first, invoice.items) - 30)
  }

  /** The notes that fit: one every 14 points below the label while above 50. */
  function NotesThatFit(totalY: int): nat {
    if totalY <= 94 then 0 else (totalY - 95) / 14 + 1
  }

  function NotePlaces(total: Place, filled: nat): seq<Place> {
    var n := if filled <= NotesThatFit(total.y) then filled else NotesThatFit(total.y);
    seq(n, k requires 0 <= k < n => Place(total.page, total.y - 44 - 14 * k))
  }

  lemma NextLine(first: int, i: nat)
    requires 100 <= first <= 766
    ensures var y, at := BelowLines(first, i), LinePlace(first, i);
      if y < 100 then at == Place(PagesFor(first, i), 766) && PagesFor(first, i + 1) == PagesFor(first, i) + 1
      else at == Place(PagesFor(first, i) - 1, y) && PagesFor(first, i + 1) == PagesFor(first, i)
  {
  }

  // ---- what the layout guarantees ----

  /** Whatever the header, the first line is at one of six heights. */
  lemma FirstLineRange(invoice: Invoice)
    ensures FirstLineY(invoice) in {620, 634, 648, 652, 662, 670}
  {
  }

  ghost function FilledAt(lines: seq<bool>): set<nat> {
    set i: nat | i < |lines| && lines[i]
  }

  lemma {:induction false} FilledCounts(lines: seq<bool>)
    ensures Filled(lines) == |FilledAt(lines)|
  {
    if lines == [] {
      assert FilledAt(lines) == {};
    } else {
      var n := |lines| - 1;
      var front := FilledAt(lines[..n]);
      FilledCounts(lines[..n]);
      assert n !in front;
      assert FilledAt(lines) == if lines[n] then front + {n} else front;
    }
  }

  /** What counts of a text: the lines that are not blank among its first few. */
  lemma FirstFilled(lines: seq<bool>, most: nat)
    ensures Filled(FirstOf(lines, most)) == |set i | i in FilledAt(lines) && i < most|
  {
    FilledCounts(FirstOf(lines, most));
    assert FilledAt(FirstOf(lines, most)) == set i | i in FilledAt(lines) && i < most;
  }

  /** The parts of a client block: the filled ones, of the address its first three lines at most. */
  lemma PartsCounted(c: BillTo)
    ensures ClientParts(c) == |set i | i in FilledAt(c.address) && i < 3|
      + (if c.company then 1 else 0) + (if c.email then 1 else 0) + (if c.phone then 1 else 0)
  {
    FirstFilled(c.address, 3);
  }

  /** Which header gives which height: `dates` of the two dates are shown, and `parts` of the client. */
  lemma FirstLineExactly(invoice: Invoice)
    ensures var y := FirstLineY(invoice);
      var dates := (if invoice.issued then 1 else 0) + if invoice.due then 1 else 0;
      var parts := if invoice.client.Some? then ClientParts(invoice.client.value) else 0;
      && (y == 670 <==> dates == 0 && parts <= 2)
      && (y == 662 <==> dates == 0 && parts == 3)
      && (y == 652 <==> dates == 1 && parts <= 3)
      && (y == 648 <==> dates <= 1 && parts == 4)
      && (y == 634 <==> (dates == 2 && parts <= 4) || parts == 5)
      && (y == 620 <==> parts == 6)
  {
  }

  /**
   The layout from line to line: 16 points down, or to 766 on the next page when that would be below
   100; the column headers of each page 16 above its first line; the total 46 under the last line.
   */
  lemma LinesFollow(invoice: Invoice)
    ensures var first, n := FirstLineY(invoice), invoice.items;
      && LinePlace(first, 0) == Place(0, first)
      && (forall i :: 0 <= i < n - 1 ==>
        var at := LinePlace(first, i);
        LinePlace(first, i + 1) == if at.y - 16 >= 100 then Place(at.page, at.y - 16) else Place(at.page + 1, 766))
      && TotalPlace(invoice)
         == if n == 0 then Place(0, first - 30)
            else Place(LinePlace(first, n - 1).page, LinePlace(first, n - 1).y - 46)
  {
    var first, n := FirstLineY(invoice), invoice.items;
    forall i | 0 <= i < n
      ensures LinePlace(first, i).page == PagesFor(first, i + 1) - 1
      ensures var at := LinePlace(first, i);
        LinePlace(first, i + 1) == if at.y - 16 >= 100 then Place(at.page, at.y - 16) else Place(at.page + 1, 766)
    {
      NextLine(first, i);
      NextLine(first, i + 1);
    }
  }

  lemma {:induction false} HeadersOnEveryPage(first: int, pages: int)
    requires pages >= 1
    ensures |HeaderPlaces(first, pages)| == pages
    ensures forall p :: 0 <= p < pages ==>
      HeaderPlaces(first, pages)[p] == Place(p, if p == 0 then first + 16 else 766 + 16)
  {
    if pages > 1 {
      HeadersOnEveryPage(first, pages - 1);
    }
  }

  /**
   Lines stay between 100 and 766, on pages in order, at least 16 points apart; the space below
   never needs a page of its own.
   */
  lemma LinesStayOnThePage(first: int, n: nat)
    requires 100 <= first <= 766
    ensures forall i :: 0 <= i < n ==>
      100 <= LinePlace(first, i).y <= 766 && LinePlace(first, i).page < PagesFor(first, n)
    ensures forall i, j :: 0 <= i < j < n ==>
      var a, b := LinePlace(first, i), LinePlace(first, j);
      a.page < b.page || (a.page == b.page && a.y >= b.y + 16)
    ensures BelowLines(first, n) >= 84
  {
    forall i, j | 0 <= i < j < n
      ensures var a, b := LinePlace(first, i), LinePlace(first, j);
        a.page < b.page || (a.page == b.page && a.y >= b.y + 16)
    {
      var c := FirstPageLines(first);
      if i >= c {
        assert (i - c) / 42 <= (j - c) / 42;
      }
    }
  }

  /** No page is left without a line, except the only page of an invoice without items. */
  lemma EveryPageUsed(first: int, n: nat, page: int)
    requires 100 <= first <= 766 && n > 0 && 0 <= page < PagesFor(first, n)
    ensures exists i :: 0 <= i < n && LinePlace(first, i).page == page
  {
    var c := FirstPageLines(first);
    var i := if page == 0 then 0 else c + 42 * (page - 1);
    assert LinePlace(first, i).page == page;
  }

  /**
   For every invoice: the page break before the total is never taken, so the total shares the last
   line's page; it is at 56 or more and a notes label at 26 or more, above the page number at 25.
   */
  lemma TotalAndLabelFit(invoice: Invoice)
    ensures var below := BelowLines(FirstLineY(invoice), invoice.items);
      below >= 86 && below - 30 >= 56 && below - 60 >= 26
  {
    FirstLineRange(invoice);
    var first, n := FirstLineY(invoice), invoice.items;
    var c := FirstPageLines(first);
    if 0 < n <= c {
      assert LinePlace(first, n - 1).y >= first - 16 * (c - 1) >= 102;
    }
  }

  /**
   Of the first five note lines those that are not blank are all drawn exactly when they fit;
   there is no page break for the rest.
   */
  lemma NotesDrawnInFull(invoice: Invoice)
    requires invoice.notes.Some?
    ensures var total := TotalPlace(invoice);
      var filled := Filled(FirstOf(invoice.notes.value, 5));
      && (|NotePlaces(total, filled)| == filled <==> filled == 0 || total.y - 44 - 14 * (filled - 1) > 50)
      && (total.y >= 151 ==> |NotePlaces(total, filled)| == filled)
      && (forall k :: 0 <= k < |NotePlaces(total, filled)| ==>
        && NotePlaces(total, filled)[k].page == total.page && NotePlaces(total, filled)[k].y > 50
        && NotePlaces(total, filled)[k].y == (if k == 0 then total.y - 30 else NotePlaces(total, filled)[k - 1].y) - 14)
      && (|NotePlaces(total, filled)| < filled ==> total.y - 44 - 14 * |NotePlaces(total, filled)| <= 50)
  {
    hide TotalPlace, FirstOf, Filled;
  }

  /** Thirty-three lines under the tallest header: the notes label is drawn, and none of the five notes. */
  lemma NotesLostExample()
    ensures var notes := [true, true, true, true, true];
      var invoice := Invoice(true, true, Some(BillTo(true, [true, true, true], true, true)), 33, Some(notes));
      var first := FirstLineY(invoice);
      first == 620 && TotalPlace(invoice) == Place(0, 62) && NotePlaces(TotalPlace(invoice), 5) == []
  {
    var notes := [true, true, true, true, true];
    var invoice := Invoice(true, true, Some(BillTo(true, [true, true, true], true, true)), 33, Some(notes));
    assert Filled([true]) == 1 by {
      assert [true][..0] == [];
    }
    assert [true, true][..1] == [true];
    assert [true, true, true][..2] == [true, true];
    assert Filled([true, true, true]) == 3;
    assert FirstOf(invoice.client.value.address, 3) == [true, true, true];
  }
}
