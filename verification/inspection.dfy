/** The text rule that turns the inspection-report section of a detail page into
    the three counters. The page lookups are outside the model: a report arrives
    as the stripped texts of its list items, in one of the two layouts the page
    uses. */
module Inspection {
  import opened Text
  import opened Qualification

  /** What the inspection-report section of a detail page holds. */
  datatype Report =
    | NoSection                 // no inspection-report section on the page
    | PlainList(items: seq<string>)
    | CheckList(rows: seq<Row>)

  /** One row of the check-list layout: the texts of its paragraphs, and the text
      of the first span inside the second paragraph, when it has one. Every text
      arrives stripped of surrounding whitespace, as `.text.strip()` gives it. */
  datatype Row = Row(paragraphs: seq<string>, valueSpan: Option<string>)

  const ExchangeWord := "교환"
  const PanelWord := "판금"
  const CorrosionWord := "부식"

  /** The word an inspection item uses for "none found". */
  const NoneFound := "없음"

  /** Every counter starts unknown. */
  const Initial: Counters := map[Exchange := Unknown, Panel := Unknown, Corrosion := Unknown]

  /** The category a text speaks about: the first of exchange, sheet metal and
      corrosion whose word it contains. */
  function FirstCategory(text: string): (k: Option<Category>)
    ensures k == Some(Exchange) <==> Contains(text, ExchangeWord)
    ensures k == Some(Panel) <==> !Contains(text, ExchangeWord) && Contains(text, PanelWord)
    ensures k.None? <==>
      !Contains(text, ExchangeWord) && !Contains(text, PanelWord) && !Contains(text, CorrosionWord)
  {
    if Contains(text, ExchangeWord) then Some(Exchange)
    else if Contains(text, PanelWord) then Some(Panel)
    else if Contains(text, CorrosionWord) then Some(Corrosion)
    else None
  }

  /** A complete set of counters: all three keys present. */
  predicate Complete(m: Counters) {
    Exchange in m && Panel in m && Corrosion in m
  }

  // ---------------------------------------------------------------------------
  // The plain-list layout
  // ---------------------------------------------------------------------------

  /** What one list item writes into counter `k`, if anything: zero when it says
      "none", otherwise the number its digits spell, when it has digits. */
  function ItemWrite(text: string, k: Category): (v: Option<int>)
    ensures v.Some? ==> FirstCategory(text) == Some(k)
    ensures v.Some? ==> v.value >= 0
    ensures FirstCategory(text) == Some(k) && Contains(text, NoneFound) ==> v == Some(0)
    ensures FirstCategory(text) == Some(k) && !Contains(text, NoneFound) ==>
      (v.None? <==> forall i :: 0 <= i < |text| ==> !IsDigit(text[i]))
    ensures FirstCategory(text) == Some(k) && !Contains(text, NoneFound) && v.Some? ==>
      v.value == Value(Digits(text)) as int
  {
    if FirstCategory(text) != Some(k) then None
    else if Contains(text, NoneFound) then Some(0)
    else
      var digits := Digits(text);
      if digits != [] then Some(Value(digits) as int) else None
  }

  /** One iteration over a list item. */
  function PlainStep(m: Counters, text: string): (r: Counters)
    ensures Complete(m) ==> Complete(r)
    ensures forall k :: k in m ==> k in r
    ensures forall k :: ItemWrite(text, k).None? ==> Count(r, k) == Count(m, k)
    ensures forall k :: ItemWrite(text, k).Some? ==> Count(r, k) == ItemWrite(text, k).value
  {
    match FirstCategory(text)
    case None => m
    case Some(k) =>
      match ItemWrite(text, k)
      case None => m
      case Some(v) => m[k := v]
  }

  /** The loop over the list items, first to last. */
  function PlainFold(m: Counters, items: seq<string>): Counters
    decreases |items|
  {
    if items == [] then m else PlainFold(PlainStep(m, items[0]), items[1..])
  }

  /** The last write into counter `k` over the items, scanning from the end. */
  function LastWrite(items: seq<string>, k: Category): Option<int> {
    if items == [] then None
    else match ItemWrite(items[|items| - 1], k)
      case Some(v) => Some(v)
      case None => LastWrite(items[..|items| - 1], k)
  }

  lemma {:induction false} PlainFoldSnoc(m: Counters, items: seq<string>, t: string)
    ensures PlainFold(m, items + [t]) == PlainStep(PlainFold(m, items), t)
    decreases |items|
  {
    if items == [] {
      assert [] + [t] == [t];
    } else {
      assert (items + [t])[1..] == items[1..] + [t];
      PlainFoldSnoc(PlainStep(m, items[0]), items[1..], t);
    }
  }

  /** The loop leaves in each counter the value of the last item that wrote it,
      or the starting value when none did. */
  lemma {:induction false} PlainFoldIsLastWrite(m: Counters, items: seq<string>, k: Category)
    ensures Count(PlainFold(m, items), k)
         == match LastWrite(items, k) case Some(v) => v case None => Count(m, k)
    decreases |items|
  {
    if items != [] {
      var init, t := items[..|items| - 1], items[|items| - 1];
      assert items == init + [t];
      PlainFoldSnoc(m, init, t);
      PlainFoldIsLastWrite(m, init, k);
    }
  }

  lemma {:induction false} PlainFoldComplete(m: Counters, items: seq<string>)
    requires Complete(m)
    ensures Complete(PlainFold(m, items))
    decreases |items|
  {
    if items != [] {
      PlainFoldComplete(PlainStep(m, items[0]), items[1..]);
    }
  }

  // ---------------------------------------------------------------------------
  // The check-list layout
  // ---------------------------------------------------------------------------

  /** The number text of a row: the span's text when the value has a span,
      otherwise the digits of the value text. */
  function NumberText(row: Row): string
    requires |row.paragraphs| >= 2
  {
    match row.valueSpan
    case Some(s) => s
    case None => Digits(row.paragraphs[1])
  }

  /** What one row writes into counter `k`: `None` when it writes nothing,
      `Some(None)` when converting its number text raises, and `Some(Some(v))`
      when it writes `v`. */
  function RowWrite(row: Row, k: Category): (w: Option<Option<int>>)
    ensures w.Some? ==> |row.paragraphs| >= 2 && FirstCategory(row.paragraphs[0]) == Some(k)
    ensures |row.paragraphs| >= 2 && FirstCategory(row.paragraphs[0]) == Some(k) ==>
      if Contains(row.paragraphs[1], NoneFound) then w == Some(Some(0))
      else if NumberText(row) == [] then w.None?
      else w == Some(ParseInt(NumberText(row)))
    ensures row.valueSpan.None? && w.Some? ==> w.value.Some? && w.value.value >= 0
  {
    if |row.paragraphs| < 2 || FirstCategory(row.paragraphs[0]) != Some(k) then None
    else if Contains(row.paragraphs[1], NoneFound) then Some(Some(0))
    else
      var num := NumberText(row);
      if num == [] then None else Some(ParseInt(num))
  }

  /** A row whose number text is not an integer makes the whole parse fail. */
  predicate RowRaises(row: Row) {
    exists k :: RowWrite(row, k) == Some(None)
  }

  /** One iteration over a check-list row; `None` once a conversion raised. */
  function CheckStep(m: Counters, row: Row): (r: Option<Counters>)
    ensures r.None? <==> RowRaises(row)
    ensures r.Some? ==> forall k :: RowWrite(row, k).None? ==> Count(r.value, k) == Count(m, k)
    ensures r.Some? ==> forall k :: RowWrite(row, k).Some? ==> Some(Count(r.value, k)) == RowWrite(row, k).value
    ensures r.Some? && Complete(m) ==> Complete(r.value)
  {
    if |row.paragraphs| < 2 then Some(m)
    else match FirstCategory(row.paragraphs[0])
      case None => Some(m)
      case Some(k) =>
        assert forall j :: j != k ==> RowWrite(row, j).None?;
        match RowWrite(row, k)
        case None => Some(m)
        case Some(None) => None
        case Some(Some(v)) => Some(m[k := v])
  }

  /** The loop over the rows; an exception ends it. */
  function CheckFold(m: Counters, rows: seq<Row>): Option<Counters>
    decreases |rows|
  {
    if rows == [] then Some(m)
    else match CheckStep(m, rows[0])
      case None => None
      case Some(m') => CheckFold(m', rows[1..])
  }

  /** The loop fails exactly when some row raises, whatever came before it. */
  lemma {:induction false} CheckFoldFails(m: Counters, rows: seq<Row>)
    ensures CheckFold(m, rows).None? <==> exists i :: 0 <= i < |rows| && RowRaises(rows[i])
    decreases |rows|
  {
    if rows != [] {
      match CheckStep(m, rows[0])
      case None =>
      case Some(m') =>
        CheckFoldFails(m', rows[1..]);
        if exists i :: 0 <= i < |rows| && RowRaises(rows[i]) {
          var i :| 0 <= i < |rows| && RowRaises(rows[i]);
          assert rows[1..][i - 1] == rows[i];
        }
    }
  }

  /** The last value a row writes into counter `k`, scanning from the end; a row
      that raises writes no value. */
  function RowLastWrite(rows: seq<Row>, k: Category): Option<int> {
    if rows == [] then None
    else match RowWrite(rows[|rows| - 1], k)
      case Some(Some(v)) => Some(v)
      case _ => RowLastWrite(rows[..|rows| - 1], k)
  }

  lemma {:induction false} CheckFoldSnoc(m: Counters, rows: seq<Row>, t: Row)
    ensures CheckFold(m, rows + [t])
         == match CheckFold(m, rows) case None => None case Some(m') => CheckStep(m', t)
    decreases |rows|
  {
    if rows == [] {
      assert [] + [t] == [t];
    } else {
      assert (rows + [t])[0] == rows[0];
      assert (rows + [t])[1..] == rows[1..] + [t];
      match CheckStep(m, rows[0])
      case None =>
      case Some(m') => CheckFoldSnoc(m', rows[1..], t);
    }
  }

  /** When the loop completes, each counter holds the value of the last row that
      wrote it, or its starting value. */
  lemma {:induction false} CheckFoldIsLastWrite(m: Counters, rows: seq<Row>, k: Category)
    ensures CheckFold(m, rows).Some? ==>
      Count(CheckFold(m, rows).value, k)
        == match RowLastWrite(rows, k) case Some(v) => v case None => Count(m, k)
    decreases |rows|
  {
    if rows != [] {
      var init, t := rows[..|rows| - 1], rows[|rows| - 1];
      assert rows == init + [t];
      CheckFoldSnoc(m, init, t);
      CheckFoldIsLastWrite(m, init, k);
    }
  }

  lemma {:induction false} CheckFoldComplete(m: Counters, rows: seq<Row>)
    requires Complete(m)
    ensures CheckFold(m, rows).Some? ==> Complete(CheckFold(m, rows).value)
    decreases |rows|
  {
    if rows != [] {
      match CheckStep(m, rows[0])
      case None =>
      case Some(m') => CheckFoldComplete(m', rows[1..]);
    }
  }

  // ---------------------------------------------------------------------------
  // The whole section
  // ---------------------------------------------------------------------------

  /** All three counters still unknown means nothing was read. */
  predicate NothingRead(m: Counters) {
    Count(m, Exchange) == Unknown && Count(m, Panel) == Unknown && Count(m, Corrosion) == Unknown
  }

  function Finish(m: Counters): (r: Option<Counters>)
    ensures r.None? <==> NothingRead(m)
    ensures r.Some? ==> r.value == m
  {
    if NothingRead(m) then None else Some(m)
  }

  /** The inspection counters of a detail page, or `None`. */
  function ParsePerformance(report: Report): (r: Option<Counters>)
    ensures report.NoSection? ==> r.None?
    ensures report.PlainList? && report.items == [] ==> r.None?
    ensures report.CheckList? && report.rows == [] ==> r.None?
    ensures r.Some? ==> Complete(r.value) && !NothingRead(r.value)
  {
    match report
    case NoSection => None
    case PlainList(items) =>
      if items == [] then None
      else
        PlainFoldComplete(Initial, items);
        Finish(PlainFold(Initial, items))
    case CheckList(rows) =>
      if rows == [] then None
      else match CheckFold(Initial, rows)
        case None => None
        case Some(m) =>
          CheckFoldComplete(Initial, rows);
          Finish(m)
  }

  /** A counter the items leave at the sentinel: never written, or written 999. */
  predicate StaysUnknown(items: seq<string>, k: Category) {
    LastWrite(items, k).None? || LastWrite(items, k) == Some(Unknown)
  }

  /** In the plain layout each counter is the last value written to it, and the
      parse gives `None` exactly when every counter stays at the sentinel. */
  lemma PlainListResult(items: seq<string>, k: Category)
    requires items != []
    ensures var r := ParsePerformance(PlainList(items));
      && (r.None? <==>
            StaysUnknown(items, Exchange) && StaysUnknown(items, Panel) && StaysUnknown(items, Corrosion))
      && (r.Some? ==> Count(r.value, k) == match LastWrite(items, k) case Some(v) => v case None => Unknown)
  {
    PlainFoldIsLastWrite(Initial, items, Exchange);
    PlainFoldIsLastWrite(Initial, items, Panel);
    PlainFoldIsLastWrite(Initial, items, Corrosion);
  }

  /** A counter the rows leave at the sentinel: never written, or written 999. */
  predicate RowsStayUnknown(rows: seq<Row>, k: Category) {
    RowLastWrite(rows, k).None? || RowLastWrite(rows, k) == Some(Unknown)
  }

  /** In the check-list layout the loop fails exactly when some row raises; the
      parse gives `None` when it failed or every counter stayed at the sentinel,
      and otherwise each counter is the last value written to it. */
  lemma CheckListResult(rows: seq<Row>, k: Category)
    requires rows != []
    ensures CheckFold(Initial, rows).None? <==> exists i :: 0 <= i < |rows| && RowRaises(rows[i])
    ensures var r := ParsePerformance(CheckList(rows));
      && (r.None? <==>
            || CheckFold(Initial, rows).None?
            || (RowsStayUnknown(rows, Exchange) && RowsStayUnknown(rows, Panel) && RowsStayUnknown(rows, Corrosion)))
      && (r.Some? ==> Count(r.value, k) == match RowLastWrite(rows, k) case Some(v) => v case None => Unknown)
  {
    CheckFoldFails(Initial, rows);
    CheckFoldIsLastWrite(Initial, rows, Exchange);
    CheckFoldIsLastWrite(Initial, rows, Panel);
    CheckFoldIsLastWrite(Initial, rows, Corrosion);
  }
}
