/** The bounds of a line catalogue page: measured by encoding every row, and
    read from the sizes the page arrived with. */
module CataloguePage {
  import opened Options

  const MAX_PAGE_ROWS := 1000
  const MAX_PAGE_BYTES := 4 * 1024 * 1024 - 64 * 1024
  const MAX_ROW_BYTES := 64 * 1024
  const MAX_GROWTH := 256

  /** A line, by its uuid. */
  datatype Line = Line(uuid: string)

  /** What validation sees of a row: its line, the verdict on its fields and the
      length of its encoding, if it encodes. */
  datatype Row = Row(line: Line, fieldsOk: bool, encoded: Option<nat>)

  /** What validation sees of the rest of a page: the verdicts on its version,
      its cursor, the selector fields it advertises and the blocks it names
      unavailable, and the length of its encoding without rows, if it encodes. */
  datatype Page = Page(versionOk: bool, cursorOk: bool, selectorsOk: bool, unavailableOk: bool,
                       rows: seq<Row>, envelope: Option<nat>)

  datatype Verdict =
    | Accepted | BadVersion | BadCursor | TooManyRows | BadSelector | BadUnavailable
    | BadFields(line: Line) | NoEncoding | RowTooLong(line: Line, size: nat)
    | Twice(line: Line) | PageTooLong(size: nat)

  /** A length, or the reason there is none. */
  datatype Sized = Size(n: nat) | Failed(why: Verdict)

  function Max(a: nat, b: nat): nat { if a > b then a else b }

  function CheckSize(row: Row, returned: nat, held: nat): Sized {
    if held > MAX_ROW_BYTES then Failed(RowTooLong(row.line, held)) else Size(returned)
  }

  /** A row by its encoding. */
  function ExactRow(row: Row): Sized {
    if !row.fieldsOk then Failed(BadFields(row.line))
    else if row.encoded.None? then Failed(NoEncoding)
    else CheckSize(row, row.encoded.value, row.encoded.value)
  }

  /** A row by the length it arrived with and, if measured, its encoding. */
  function ReceivedRow(row: Row, bytes: nat, canonical: int): Sized {
    if !row.fieldsOk then Failed(BadFields(row.line))
    else if canonical >= 0 then CheckSize(row, canonical, Max(canonical, bytes))
    else CheckSize(row, bytes + MAX_GROWTH, bytes)
  }

  predicate Listed(rows: seq<Row>, n: nat, line: Line)
    requires n <= |rows|
  {
    exists j :: 0 <= j < n && rows[j].line == line
  }

  /** The total of the first n rows, or the first failure among them. */
  function Scan(rows: seq<Row>, sizes: seq<Sized>, n: nat): Sized
    requires n <= |rows| == |sizes|
  {
    if n == 0 then Size(0)
    else
      var before := Scan(rows, sizes, n - 1);
      if before.Failed? then before
      else if sizes[n - 1].Failed? then sizes[n - 1]
      else if Listed(rows, n - 1, rows[n - 1].line) then Failed(Twice(rows[n - 1].line))
      else Size(before.n + sizes[n - 1].n)
  }

  /** One more row: what each scan does with it. */
  function Add(before: Sized, size: Sized, row: Row, twice: bool): Sized {
    if before.Failed? then before
    else if size.Failed? then size
    else if twice then Failed(Twice(row.line))
    else Size(before.n + size.n)
  }

  lemma ScanAdds(rows: seq<Row>, sizes: seq<Sized>, i: nat)
    requires i < |rows| == |sizes|
    ensures Scan(rows, sizes, i + 1) == Add(Scan(rows, sizes, i), sizes[i], rows[i], Listed(rows, i, rows[i].line))
  {
    hide Listed;
  }

  function Commas(p: Page): nat { if |p.rows| == 0 then 0 else |p.rows| - 1 }

  function Bound(size: nat): Verdict { if size > MAX_PAGE_BYTES then PageTooLong(size) else Accepted }

  /** The checks before any row is looked at, in their order. */
  function HeadVerdict(p: Page): Verdict {
    if !p.versionOk then BadVersion
    else if !p.cursorOk then BadCursor
    else if |p.rows| > MAX_PAGE_ROWS then TooManyRows
    else if !p.selectorsOk then BadSelector
    else if !p.unavailableOk then BadUnavailable
    else Accepted
  }

  /** The total of a page's rows, or why the page fails before its own size is
      looked at. */
  function Front(p: Page, sizes: seq<Sized>): Sized
    requires |sizes| == |p.rows|
  {
    if HeadVerdict(p).Accepted? then Scan(p.rows, sizes, |p.rows|) else Failed(HeadVerdict(p))
  }

  function Judged(size: Sized): Verdict { if size.Failed? then size.why else Bound(size.n) }

  // Validate

  function ExactSizes(p: Page): (s: seq<Sized>)
    ensures |s| == |p.rows|
    ensures forall i :: 0 <= i < |s| ==> s[i] == ExactRow(p.rows[i])
  {
    seq(|p.rows|, i requires 0 <= i < |p.rows| => ExactRow(p.rows[i]))
  }

  function ExactPage(p: Page, total: nat): Sized {
    if p.envelope.None? then Failed(NoEncoding) else Size(p.envelope.value + total + Commas(p))
  }

  function ExactVerdict(p: Page): Verdict {
    var front := Front(p, ExactSizes(p));
    if front.Failed? then front.why else Judged(ExactPage(p, front.n))
  }

  /** The opening checks of validatePage. */
  method CheckHead(p: Page) returns (v: Verdict)
    ensures v == HeadVerdict(p)
  {
    if !p.versionOk {
      return BadVersion;
    }
    if !p.cursorOk {
      return BadCursor;
    }
    if |p.rows| > MAX_PAGE_ROWS {
      return TooManyRows;
    }
    if !p.selectorsOk {
      return BadSelector;
    }
    if !p.unavailableOk {
      return BadUnavailable;
    }
    v := Accepted;
  }

  /** LineCatalogueResponse.Validate. */
  method Validate(p: Page) returns (v: Verdict)
    ensures v == ExactVerdict(p)
  {
    hide Scan, ExactSizes, Commas;
    var head := CheckHead(p);
    if !head.Accepted? {
      return head;
    }
    var rows := ScanExact(p);
    if rows.Failed? {
      return rows.why;
    }
    v := Judged(ExactPage(p, rows.n));
  }

  /** The rows of validatePage, each by its encoding. */
  method ScanExact(p: Page) returns (s: Sized)
    ensures s == Scan(p.rows, ExactSizes(p), |p.rows|)
  {
    hide Scan, ExactSizes, ExactRow, Listed;
    ghost var sizes := ExactSizes(p);
    var seen: set<Line> := {};
    var rowBytes: nat := 0;
    ScanNone(p.rows, sizes);
    for i := 0 to |p.rows|
      invariant forall l :: l in seen <==> Listed(p.rows, i, l)
      invariant Scan(p.rows, sizes, i) == Size(rowBytes)
    {
      ScanAdds(p.rows, sizes, i);
      var size := ExactRow(p.rows[i]);
      if size.Failed? {
        ScanStops(p.rows, sizes, i + 1, |p.rows|);
        return size;
      }
      if p.rows[i].line in seen {
        ScanStops(p.rows, sizes, i + 1, |p.rows|);
        return Failed(Twice(p.rows[i].line));
      }
      ListedGrows(p.rows, i);
      seen := seen + {p.rows[i].line};
      rowBytes := rowBytes + size.n;
    }
    s := Size(rowBytes);
  }

  lemma ScanNone(rows: seq<Row>, sizes: seq<Sized>)
    requires |rows| == |sizes|
    ensures Scan(rows, sizes, 0) == Size(0) && forall l :: !Listed(rows, 0, l)
  {
  }

  lemma ListedGrows(rows: seq<Row>, n: nat)
    requires n < |rows|
    ensures forall l :: Listed(rows, n + 1, l) <==> Listed(rows, n, l) || l == rows[n].line
  {
    assert Listed(rows, n + 1, rows[n].line);
  }

  /** The first failure is the scan's verdict. */
  lemma {:induction false} ScanStops(rows: seq<Row>, sizes: seq<Sized>, i: nat, n: nat)
    requires i <= n <= |rows| == |sizes| && Scan(rows, sizes, i).Failed?
    ensures Scan(rows, sizes, n) == Scan(rows, sizes, i)
    decreases n
  {
    if i < n {
      ScanStops(rows, sizes, i, n - 1);
    }
  }

  // A received page

  /** canonical[i] is the length of row i's encoding, or -1 if not measured. */
  datatype Received = Received(page: Page, pageBytes: nat, bytes: seq<nat>, canonical: seq<int>)

  predicate Aligned(r: Received) { |r.bytes| == |r.canonical| == |r.page.rows| }

  function ReceivedSizes(r: Received): (s: seq<Sized>)
    requires Aligned(r)
    ensures |s| == |r.page.rows|
    ensures forall i :: 0 <= i < |s| ==> s[i] == ReceivedRow(r.page.rows[i], r.bytes[i], r.canonical[i])
  {
    seq(|r.page.rows|, i requires 0 <= i < |r.page.rows| => ReceivedRow(r.page.rows[i], r.bytes[i], r.canonical[i]))
  }

  /** The sizes of the first n rows, each measured one way or the other. */
  function Measured(r: Received, n: nat): Sized
    requires Aligned(r) && n <= |r.page.rows|
  {
    if n == 0 then Size(0)
    else
      var before := Measured(r, n - 1);
      if before.Failed? then before
      else if r.canonical[n - 1] >= 0 then Size(before.n + r.canonical[n - 1])
      else if r.page.rows[n - 1].encoded.None? then Failed(NoEncoding)
      else Size(before.n + r.page.rows[n - 1].encoded.value)
  }

  predicate AllMeasured(r: Received, n: nat)
    requires Aligned(r) && n <= |r.page.rows|
  {
    forall i :: 0 <= i < n ==> r.canonical[i] >= 0
  }

  function ReceivedPage(r: Received, total: nat): Sized
    requires Aligned(r)
  {
    var p, n := r.page, |r.page.rows|;
    if p.envelope.None? then Failed(NoEncoding)
    else
      var size := p.envelope.value + total + Commas(p);
      if size > MAX_PAGE_BYTES && !AllMeasured(r, n) then
        var exact := Measured(r, n);
        if exact.Failed? then exact else Size(Max(p.envelope.value + Commas(p) + exact.n, r.pageBytes))
      else Size(Max(size, r.pageBytes))
  }

  function ReceivedVerdict(r: Received): Verdict {
    if !Aligned(r) then ExactVerdict(r.page)
    else
      var front := Front(r.page, ReceivedSizes(r));
      if front.Failed? then front.why else Judged(ReceivedPage(r, front.n))
  }

  /** ReceivedLineCataloguePage.Validate. */
  method ValidateReceived(r: Received) returns (v: Verdict)
    ensures v == ReceivedVerdict(r)
  {
    hide Scan, ReceivedSizes, ExactVerdict, ReceivedPage;
    if |r.bytes| != |r.page.rows| || |r.canonical| != |r.page.rows| {
      v := Validate(r.page);
      return;
    }
    var head := CheckHead(r.page);
    if !head.Accepted? {
      return head;
    }
    var rows, exact := ScanReceived(r);
    if rows.Failed? {
      return rows.why;
    }
    var size := PageSize(r, rows.n, exact);
    v := Judged(size);
  }

  /** The rows of validatePage, each by its received length or its measured
      encoding, and whether all were measured. */
  method ScanReceived(r: Received) returns (s: Sized, exact: bool)
    requires Aligned(r)
    ensures s == Scan(r.page.rows, ReceivedSizes(r), |r.page.rows|)
    ensures s.Size? ==> (exact <==> AllMeasured(r, |r.page.rows|))
  {
    hide Scan, ReceivedSizes, ReceivedRow, Listed;
    var rows := r.page.rows;
    ghost var sizes := ReceivedSizes(r);
    var seen: set<Line> := {};
    var rowBytes: nat := 0;
    exact := true;
    ScanNone(rows, sizes);
    for i := 0 to |rows|
      invariant forall l :: l in seen <==> Listed(rows, i, l)
      invariant Scan(rows, sizes, i) == Size(rowBytes)
      invariant exact <==> AllMeasured(r, i)
    {
      ScanAdds(rows, sizes, i);
      var size := ReceivedRow(rows[i], r.bytes[i], r.canonical[i]);
      if r.canonical[i] < 0 {
        exact := false;
      }
      if size.Failed? {
        ScanStops(rows, sizes, i + 1, |rows|);
        return size, exact;
      }
      if rows[i].line in seen {
        ScanStops(rows, sizes, i + 1, |rows|);
        return Failed(Twice(rows[i].line)), exact;
      }
      ListedGrows(rows, i);
      seen := seen + {rows[i].line};
      rowBytes := rowBytes + size.n;
    }
    s := Size(rowBytes);
  }

  method PageSize(r: Received, rowBytes: nat, exact: bool) returns (s: Sized)
    requires Aligned(r) && (exact <==> AllMeasured(r, |r.page.rows|))
    ensures s == ReceivedPage(r, rowBytes)
  {
    var p := r.page;
    if p.envelope.None? {
      return Failed(NoEncoding);
    }
    var size := p.envelope.value + rowBytes + Commas(p);
    if size > MAX_PAGE_BYTES && !exact {
      size := p.envelope.value + Commas(p);
      for i := 0 to |p.rows|
        invariant Measured(r, i).Size? && size == p.envelope.value + Commas(p) + Measured(r, i).n
      {
        var n := r.canonical[i];
        if n < 0 {
          if p.rows[i].encoded.None? {
            MeasuredStops(r, i + 1, |p.rows|);
            return Failed(NoEncoding);
          }
          n := p.rows[i].encoded.value;
        }
        size := size + n;
      }
    }
    s := Size(Max(size, r.pageBytes));
  }

  lemma {:induction false} MeasuredStops(r: Received, i: nat, n: nat)
    requires Aligned(r) && i <= n <= |r.page.rows| && Measured(r, i).Failed?
    ensures Measured(r, n) == Measured(r, i)
    decreases n
  {
    if i < n {
      MeasuredStops(r, i, n - 1);
    }
  }

  // Reading

  /** A row as received: its length, whether its bytes can only grow by the
      members they leave out, and what they decode to. */
  datatype Element = Element(bytes: nat, plain: bool, decoded: Option<Row>)

  /** What rowReencodesWithinGrowth promises of encoding/json. */
  predicate Grows(e: Element) {
    e.plain && e.decoded.Some? ==>
      e.decoded.value.encoded.Some? && e.decoded.value.encoded.value <= e.bytes + MAX_GROWTH
  }

  /** The size bookkeeping of the one-pass read; None when it does not apply. */
  method ReadRows(elements: seq<Element>) returns (rows: seq<Row>, bytes: seq<nat>, canonical: seq<int>, ok: bool)
    requires forall i :: 0 <= i < |elements| ==> Grows(elements[i])
    ensures ok ==> |rows| == |bytes| == |canonical| == |elements|
    ensures ok ==> forall i :: 0 <= i < |elements| ==>
      elements[i].decoded == Some(rows[i]) && bytes[i] == elements[i].bytes && Known(rows[i], bytes[i], canonical[i])
    ensures ok ==> forall i :: 0 <= i < |elements| ==>
      (canonical[i] < 0 <==> elements[i].plain && elements[i].bytes + 256 <= 65536)
    ensures ok <== forall i :: 0 <= i < |elements| ==>
      elements[i].decoded.Some? && elements[i].decoded.value.encoded.Some?
  {
    rows, bytes, canonical, ok := [], [], [], true;
    for i := 0 to |elements|
      invariant |bytes| == |canonical| == i && (ok ==> |rows| == i)
      invariant ok ==> forall j :: 0 <= j < i ==>
        elements[j].decoded == Some(rows[j]) && bytes[j] == elements[j].bytes && Known(rows[j], bytes[j], canonical[j])
      invariant ok ==> forall j :: 0 <= j < i ==>
        (canonical[j] < 0 <==> elements[j].plain && elements[j].bytes + 256 <= 65536)
      invariant ok <== forall j :: 0 <= j < i ==> elements[j].decoded.Some? && elements[j].decoded.value.encoded.Some?
    {
      var e := elements[i];
      var n: int := -1;
      if e.decoded.None? {
        ok := false;
      } else if e.bytes + MAX_GROWTH > MAX_ROW_BYTES || !e.plain {
        if e.decoded.value.encoded.None? {
          ok := false;
        } else {
          n := e.decoded.value.encoded.value;
        }
      }
      bytes, canonical := bytes + [e.bytes], canonical + [n];
      if ok {
        rows := rows + [e.decoded.value];
      }
    }
  }

  /** A row is measured, or short enough to grow by all it may and known to
      grow by no more. */
  predicate Known(row: Row, bytes: nat, canonical: int) {
    if canonical >= 0 then row.encoded == Some(canonical)
    else row.encoded.Some? && row.encoded.value <= bytes + MAX_GROWTH && bytes + MAX_GROWTH <= MAX_ROW_BYTES
  }

  predicate AllKnown(r: Received) {
    Aligned(r) && forall i :: 0 <= i < |r.page.rows| ==> Known(r.page.rows[i], r.bytes[i], r.canonical[i])
  }

  // The received bound against the exact one

  predicate RowsFit(r: Received, n: nat)
    requires Aligned(r) && n <= |r.page.rows|
  {
    forall i :: 0 <= i < n ==> r.bytes[i] <= MAX_ROW_BYTES
  }

  lemma RowsAgree(row: Row, bytes: nat, canonical: int)
    requires Known(row, bytes, canonical)
    ensures var a, b := ReceivedRow(row, bytes, canonical), ExactRow(row);
      && (a.Size? <==> b.Size? && bytes <= MAX_ROW_BYTES)
      && (a.Size? ==> a.n >= b.n && (canonical >= 0 ==> a.n == b.n == canonical) && row.encoded == Some(b.n))
    ensures row.encoded == Some(bytes) ==>
      && (ReceivedRow(row, bytes, canonical).Size? <==> ExactRow(row).Size?)
      && (ExactRow(row).Failed? ==> ReceivedRow(row, bytes, canonical) == ExactRow(row))
  {
  }

  /** Two totals of the first n rows: the received scan passes exactly where
      the exact one does and no row is too long as received; its total is never
      the smaller one, and is the exact one when every row was measured. */
  ghost predicate Agree(a: Sized, b: Sized, fit: bool, measured: bool, exact: Sized) {
    && (a.Size? <==> b.Size? && fit)
    && (a.Size? ==> a.n >= b.n && (measured ==> a.n == b.n) && exact == b)
  }

  lemma MeasuredAdds(r: Received, i: nat)
    requires AllKnown(r) && i < |r.page.rows| && Measured(r, i).Size?
    ensures Measured(r, i + 1) == Size(Measured(r, i).n + r.page.rows[i].encoded.value)
  {
    assert Known(r.page.rows[i], r.bytes[i], r.canonical[i]);
  }

  lemma AgreeAdds(a: Sized, b: Sized, fit: bool, measured: bool, exact: Sized, x: Sized, y: Sized, row: Row,
                  fits: bool, known: bool, twice: bool)
    requires Agree(a, b, fit, measured, exact)
    requires (x.Size? <==> y.Size? && fits) && (x.Size? ==> x.n >= y.n && (known ==> x.n == y.n))
    ensures var exact' := if exact.Size? && y.Size? then Size(exact.n + y.n) else exact;
      Agree(Add(a, x, row, twice), Add(b, y, row, twice), fit && fits, measured && known, exact')
  {
  }

  lemma {:induction false} ScansAgree(r: Received, n: nat)
    requires AllKnown(r) && n <= |r.page.rows|
    ensures Agree(Scan(r.page.rows, ReceivedSizes(r), n), Scan(r.page.rows, ExactSizes(r.page), n),
                  RowsFit(r, n), AllMeasured(r, n), Measured(r, n))
  {
    hide Agree, Scan, Measured, AllMeasured, RowsFit, Known, ReceivedSizes, ExactSizes;
    if n == 0 {
      AgreeAtStart(r);
    } else {
      ScansAgree(r, n - 1);
      AgreeOneMore(r, n - 1);
    }
  }

  lemma AgreeAtStart(r: Received)
    requires Aligned(r)
    ensures Agree(Scan(r.page.rows, ReceivedSizes(r), 0), Scan(r.page.rows, ExactSizes(r.page), 0),
                  RowsFit(r, 0), AllMeasured(r, 0), Measured(r, 0))
  {
    hide ReceivedSizes, ExactSizes, Listed;
  }

  lemma AgreeOneMore(r: Received, i: nat)
    requires AllKnown(r) && i < |r.page.rows|
    requires Agree(Scan(r.page.rows, ReceivedSizes(r), i), Scan(r.page.rows, ExactSizes(r.page), i),
                   RowsFit(r, i), AllMeasured(r, i), Measured(r, i))
    ensures Agree(Scan(r.page.rows, ReceivedSizes(r), i + 1), Scan(r.page.rows, ExactSizes(r.page), i + 1),
                  RowsFit(r, i + 1), AllMeasured(r, i + 1), Measured(r, i + 1))
  {
    hide Scan, Listed, ReceivedRow, ExactRow, ReceivedSizes, ExactSizes, Measured, AllMeasured, RowsFit, Known;
    var rows, row := r.page.rows, r.page.rows[i];
    var x, y := ReceivedRow(row, r.bytes[i], r.canonical[i]), ExactRow(row);
    RowsAgree(row, r.bytes[i], r.canonical[i]);
    ScanAdds(rows, ReceivedSizes(r), i);
    ScanAdds(rows, ExactSizes(r.page), i);
    OneMoreFits(r, i);
    AgreeAdds(Scan(rows, ReceivedSizes(r), i), Scan(rows, ExactSizes(r.page), i), RowsFit(r, i), AllMeasured(r, i),
              Measured(r, i), x, y, row, r.bytes[i] <= MAX_ROW_BYTES, r.canonical[i] >= 0, Listed(rows, i, row.line));
    if Measured(r, i).Size? {
      MeasuredAdds(r, i);
    }
  }

  lemma OneMoreFits(r: Received, i: nat)
    requires Aligned(r) && i < |r.page.rows|
    ensures RowsFit(r, i + 1) <==> RowsFit(r, i) && r.bytes[i] <= MAX_ROW_BYTES
    ensures AllMeasured(r, i + 1) <==> AllMeasured(r, i) && r.canonical[i] >= 0
  {
  }

  /** A page read with its sizes is accepted exactly when the exact Validate
      accepts it and neither a row nor the page exceeds its own bound as
      received. So nothing over a bound passes, and the over-approximation
      never refuses a page by itself. */
  lemma ReceivedIffExact(r: Received)
    requires AllKnown(r)
    ensures ReceivedVerdict(r).Accepted? <==>
      ExactVerdict(r.page).Accepted? && RowsFit(r, |r.page.rows|) && r.pageBytes <= MAX_PAGE_BYTES
  {
    hide Scan, RowsFit, AllMeasured, Measured, ReceivedSizes, ExactSizes, Known, Commas;
    var n := |r.page.rows|;
    ScansAgree(r, n);
    SizesHonest(r);
    ScanErrors(r.page.rows, ReceivedSizes(r), n);
    ScanErrors(r.page.rows, ExactSizes(r.page), n);
  }

  lemma SizesHonest(r: Received)
    requires Aligned(r)
    ensures forall i :: 0 <= i < |r.page.rows| && ReceivedSizes(r)[i].Failed? ==> !ReceivedSizes(r)[i].why.Accepted?
    ensures forall i :: 0 <= i < |r.page.rows| && ExactSizes(r.page)[i].Failed? ==> !ExactSizes(r.page)[i].why.Accepted?
  {
    hide ReceivedSizes, ExactSizes;
  }

  /** A failure found row by row is not an acceptance. */
  lemma {:induction false} ScanErrors(rows: seq<Row>, sizes: seq<Sized>, n: nat)
    requires n <= |rows| == |sizes|
    requires forall i :: 0 <= i < |sizes| && sizes[i].Failed? ==> !sizes[i].why.Accepted?
    ensures Scan(rows, sizes, n).Failed? ==> !Scan(rows, sizes, n).why.Accepted?
  {
    if n > 0 {
      ScanErrors(rows, sizes, n - 1);
    }
  }

  // A page that arrives as it encodes

  /** Every row and the page arrived as long as they encode. */
  predicate SelfEncoded(r: Received) {
    && Aligned(r)
    && (forall i :: 0 <= i < |r.page.rows| ==> r.page.rows[i].encoded == Some(r.bytes[i]))
    && (var total := Scan(r.page.rows, ExactSizes(r.page), |r.page.rows|);
        total.Size? && r.page.envelope.Some? ==> r.pageBytes == r.page.envelope.value + total.n + Commas(r.page))
  }

  lemma {:induction false} SelfScans(r: Received, n: nat)
    requires AllKnown(r) && SelfEncoded(r) && n <= |r.page.rows|
    ensures var a, b := Scan(r.page.rows, ReceivedSizes(r), n), Scan(r.page.rows, ExactSizes(r.page), n);
      (a.Size? <==> b.Size?) && (a.Failed? ==> a == b)
  {
    hide Scan, ReceivedRow, ExactRow, ReceivedSizes, ExactSizes, Listed, Known;
    var rows := r.page.rows;
    if n == 0 {
      ScanNone(rows, ReceivedSizes(r));
      ScanNone(rows, ExactSizes(r.page));
    } else {
      SelfScans(r, n - 1);
      ScanAdds(rows, ReceivedSizes(r), n - 1);
      ScanAdds(rows, ExactSizes(r.page), n - 1);
      RowsAgree(rows[n - 1], r.bytes[n - 1], r.canonical[n - 1]);
    }
  }

  /** On a page the core encoded, the verdict is Validate's own, whatever it is
      and with the same figures. */
  lemma SelfEncodedSame(r: Received)
    requires AllKnown(r) && SelfEncoded(r)
    ensures ReceivedVerdict(r) == ExactVerdict(r.page)
  {
    hide Scan, AllMeasured, Measured, ReceivedSizes, ExactSizes, RowsFit, Known, Commas;
    var n := |r.page.rows|;
    SelfScans(r, n);
    ScansAgree(r, n);
  }

  // What the exact verdict means

  /** The checks of a page, in the order they are made. */
  datatype Check =
    | Version | Cursor | RowCount | Selectors | Unavailable
    | FieldsOf(i: nat) | EncodingOf(i: nat) | LengthOf(i: nat) | NewLine(i: nat)
    | Envelope | PageLength

  function Encoded(row: Row): nat { if row.encoded.Some? then row.encoded.value else 0 }

  /** The lengths of the first n rows' encodings. */
  function Sum(rows: seq<Row>, n: nat): nat
    requires n <= |rows|
  {
    if n == 0 then 0 else Sum(rows, n - 1) + Encoded(rows[n - 1])
  }

  /** What the page encodes to, rows and commas included. */
  function PageLengthOf(p: Page): nat {
    (if p.envelope.Some? then p.envelope.value else 0) + Sum(p.rows, |p.rows|) + if |p.rows| > 0 then |p.rows| - 1
      else 0
  }

  predicate Passes(p: Page, c: Check) {
    match c
    case Version => p.versionOk
    case Cursor => p.cursorOk
    case RowCount => |p.rows| <= 1000
    case Selectors => p.selectorsOk
    case Unavailable => p.unavailableOk
    case FieldsOf(i) => i < |p.rows| ==> p.rows[i].fieldsOk
    case EncodingOf(i) => i < |p.rows| ==> p.rows[i].encoded.Some?
    case LengthOf(i) => i < |p.rows| ==> Encoded(p.rows[i]) <= 65536
    case NewLine(i) => i < |p.rows| ==> forall j :: 0 <= j < i ==> p.rows[j].line != p.rows[i].line
    case Envelope => p.envelope.Some?
    case PageLength => PageLengthOf(p) <= 4128768
  }

  /** How a failed check is reported. */
  function Report(p: Page, c: Check): Verdict
    requires (c.FieldsOf? || c.EncodingOf? || c.LengthOf? || c.NewLine?) ==> c.i < |p.rows|
  {
    match c
    case Version => BadVersion
    case Cursor => BadCursor
    case RowCount => TooManyRows
    case Selectors => BadSelector
    case Unavailable => BadUnavailable
    case FieldsOf(i) => BadFields(p.rows[i].line)
    case EncodingOf(_) => NoEncoding
    case LengthOf(i) => RowTooLong(p.rows[i].line, Encoded(p.rows[i]))
    case NewLine(i) => Twice(p.rows[i].line)
    case Envelope => NoEncoding
    case PageLength => PageTooLong(PageLengthOf(p))
  }

  /** Where a check stands among those of a page of n rows. */
  function Rank(c: Check, n: nat): nat {
    match c
    case Version => 0
    case Cursor => 1
    case RowCount => 2
    case Selectors => 3
    case Unavailable => 4
    case FieldsOf(i) => 5 + 4 * i
    case EncodingOf(i) => 6 + 4 * i
    case LengthOf(i) => 7 + 4 * i
    case NewLine(i) => 8 + 4 * i
    case Envelope => 5 + 4 * n
    case PageLength => 6 + 4 * n
  }

  predicate IsCheck(c: Check, n: nat) { (c.FieldsOf? || c.EncodingOf? || c.LengthOf? || c.NewLine?) ==> c.i < n }

  /** c fails and every check before it passes. */
  ghost predicate FirstFails(p: Page, c: Check) {
    && IsCheck(c, |p.rows|) && !Passes(p, c)
    && forall d :: IsCheck(d, |p.rows|) && Rank(d, |p.rows|) < Rank(c, |p.rows|) ==> Passes(p, d)
  }

  ghost predicate AllPass(p: Page) { forall c :: IsCheck(c, |p.rows|) ==> Passes(p, c) }

  /** The row checks of the first n rows pass. */
  ghost predicate RowsPass(p: Page, n: nat)
    requires n <= |p.rows|
  {
    forall i :: 0 <= i < n ==>
      Passes(p, FieldsOf(i)) && Passes(p, EncodingOf(i)) && Passes(p, LengthOf(i)) && Passes(p, NewLine(i))
  }

  lemma ListedIff(rows: seq<Row>, i: nat)
    requires i < |rows|
    ensures Listed(rows, i, rows[i].line) <==> !(forall j :: 0 <= j < i ==> rows[j].line != rows[i].line)
  {
  }

  /** One row of the exact scan, by its checks. */
  lemma ExactAdd(p: Page, i: nat, before: nat)
    requires i < |p.rows|
    ensures var row := p.rows[i];
      var after := Add(Size(before), ExactRow(row), row, Listed(p.rows, i, row.line));
      if !Passes(p, FieldsOf(i)) then after == Failed(Report(p, FieldsOf(i)))
      else if !Passes(p, EncodingOf(i)) then after == Failed(Report(p, EncodingOf(i)))
      else if !Passes(p, LengthOf(i)) then after == Failed(Report(p, LengthOf(i)))
      else if !Passes(p, NewLine(i)) then after == Failed(Report(p, NewLine(i)))
      else after == Size(before + Encoded(row))
  {
    ListedIff(p.rows, i);
    hide Listed;
  }

  /** The scan passes with the sum, or fails at the first row check that does. */
  lemma {:induction false} ScanMeans(p: Page, n: nat) returns (c: Check)
    requires n <= |p.rows|
    ensures var s := Scan(p.rows, ExactSizes(p), n);
      if RowsPass(p, n) then s == Size(Sum(p.rows, n))
      else RowFails(p, c, n) && s == Failed(Report(p, c))
  {
    hide Scan, ExactSizes, Listed, ExactRow, Passes, Report, Add;
    c := Version;
    if n == 0 {
      ScanNone(p.rows, ExactSizes(p));
    } else {
      c := ScanMeans(p, n - 1);
      var i := n - 1;
      ScanAdds(p.rows, ExactSizes(p), i);
      assert ExactSizes(p)[i] == ExactRow(p.rows[i]);
      if RowsPass(p, i) {
        ExactAdd(p, i, Sum(p.rows, i));
        c := if !Passes(p, FieldsOf(i)) then FieldsOf(i) else if !Passes(p, EncodingOf(i)) then EncodingOf(i)
          else if !Passes(p, LengthOf(i)) then LengthOf(i) else NewLine(i);
      } else {
        FailedStays(Scan(p.rows, ExactSizes(p), i), ExactRow(p.rows[i]), p.rows[i], Listed(p.rows, i, p.rows[i].line));
      }
    }
  }

  lemma FailedStays(before: Sized, size: Sized, row: Row, twice: bool)
    requires before.Failed?
    ensures Add(before, size, row, twice) == before
  {
  }

  /** c is a check of one of the first n rows, fails, and the row checks before
      it pass. */
  ghost predicate RowFails(p: Page, c: Check, n: nat)
    requires n <= |p.rows|
  {
    && (c.FieldsOf? || c.EncodingOf? || c.LengthOf? || c.NewLine?) && c.i < n && !Passes(p, c) && RowsPass(p, c.i)
    && (c.EncodingOf? || c.LengthOf? || c.NewLine? ==> Passes(p, FieldsOf(c.i)))
    && (c.LengthOf? || c.NewLine? ==> Passes(p, EncodingOf(c.i)))
    && (c.NewLine? ==> Passes(p, LengthOf(c.i)))
  }

  lemma HeadMeans(p: Page) returns (c: Check)
    ensures HeadVerdict(p).Accepted? <==>
      Passes(p, Version) && Passes(p, Cursor) && Passes(p, RowCount) && Passes(p, Selectors) && Passes(p, Unavailable)
    ensures !HeadVerdict(p).Accepted? ==> FirstFails(p, c) && HeadVerdict(p) == Report(p, c)
  {
    c := if !p.versionOk then Version else if !p.cursorOk then Cursor else if |p.rows| > 1000 then RowCount
      else if !p.selectorsOk then Selectors else Unavailable;
  }

  lemma RowFailsFirst(p: Page, c: Check)
    requires Passes(p, Version) && Passes(p, Cursor) && Passes(p, RowCount) && Passes(p, Selectors)
    requires Passes(p, Unavailable) && RowFails(p, c, |p.rows|)
    ensures FirstFails(p, c)
  {
    hide Passes;
  }

  lemma TailFailsFirst(p: Page, c: Check)
    requires Passes(p, Version) && Passes(p, Cursor) && Passes(p, RowCount) && Passes(p, Selectors)
    requires Passes(p, Unavailable) && RowsPass(p, |p.rows|) && !Passes(p, c)
    requires c == Envelope || (c == PageLength && Passes(p, Envelope))
    ensures FirstFails(p, c)
  {
    hide Passes;
  }

  lemma AllPassIff(p: Page)
    ensures AllPass(p) <==>
      && Passes(p, Version) && Passes(p, Cursor) && Passes(p, RowCount) && Passes(p, Selectors)
          && Passes(p, Unavailable)
      && RowsPass(p, |p.rows|) && Passes(p, Envelope) && Passes(p, PageLength)
  {
    hide Passes;
  }

  /** The exact verdict is acceptance when every check passes, and otherwise
      the report of the first that fails. */
  lemma ExactVerdictMeans(p: Page) returns (c: Check)
    ensures ExactVerdict(p).Accepted? <==> AllPass(p)
    ensures !ExactVerdict(p).Accepted? ==> FirstFails(p, c) && ExactVerdict(p) == Report(p, c)
  {
    hide FirstFails, AllPass, HeadVerdict, Scan, ExactSizes, RowsPass, RowFails;
    AllPassIff(p);
    c := HeadMeans(p);
    ReportRefuses(p);
    if HeadVerdict(p).Accepted? {
      c := ScanMeans(p, |p.rows|);
      if RowsPass(p, |p.rows|) {
        c := if p.envelope.None? then Envelope else PageLength;
        if !Passes(p, c) {
          TailFailsFirst(p, c);
        }
      } else {
        RowFailsFirst(p, c);
        RowFailsIsCheck(p, c);
      }
    }
  }

  lemma RowFailsIsCheck(p: Page, c: Check)
    requires RowFails(p, c, |p.rows|)
    ensures IsCheck(c, |p.rows|)
  {
  }

  lemma ReportRefuses(p: Page)
    ensures forall c :: IsCheck(c, |p.rows|) ==> !Report(p, c).Accepted?
  {
  }

  /** Accepted exactly: the head is good, there are at most 1000 rows, each
      with good fields and an encoding of at most 64 KiB, no line twice, and
      the whole encodes within the page bound. */
  lemma ExactAcceptedIff(p: Page)
    ensures ExactVerdict(p).Accepted? <==>
      && p.versionOk && p.cursorOk && p.selectorsOk && p.unavailableOk && |p.rows| <= 1000
      && (forall i :: 0 <= i < |p.rows| ==>
            p.rows[i].fieldsOk && p.rows[i].encoded.Some? && p.rows[i].encoded.value <= 65536)
      && (forall i, j :: 0 <= i < j < |p.rows| ==> p.rows[i].line != p.rows[j].line)
      && p.envelope.Some? && PageLengthOf(p) <= 4128768
  {
    hide ExactVerdict, PageLengthOf;
    var c := ExactVerdictMeans(p);
    AllPassIff(p);
    hide AllPass;
    assert RowsPass(p, |p.rows|) <==>
      && (forall i :: 0 <= i < |p.rows| ==>
            p.rows[i].fieldsOk && p.rows[i].encoded.Some? && p.rows[i].encoded.value <= 65536)
      && (forall i, j :: 0 <= i < j < |p.rows| ==> p.rows[i].line != p.rows[j].line) by { RowsPassIff(p); }
  }

  lemma RowsPassIff(p: Page)
    ensures RowsPass(p, |p.rows|) <==>
      && (forall i :: 0 <= i < |p.rows| ==>
            p.rows[i].fieldsOk && p.rows[i].encoded.Some? && p.rows[i].encoded.value <= 65536)
      && (forall i, j :: 0 <= i < j < |p.rows| ==> p.rows[i].line != p.rows[j].line)
  {
    if RowsPass(p, |p.rows|) {
      forall i | 0 <= i < |p.rows|
        ensures p.rows[i].fieldsOk && p.rows[i].encoded.Some? && p.rows[i].encoded.value <= 65536
      {
        assert Passes(p, FieldsOf(i)) && Passes(p, EncodingOf(i)) && Passes(p, LengthOf(i));
      }
      forall i, j | 0 <= i < j < |p.rows| ensures p.rows[i].line != p.rows[j].line {
        assert Passes(p, NewLine(j));
      }
    }
  }
}
