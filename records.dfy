/**
 * The draw archive and the two ways draws get into it:
 * scripts/scheduled_script/main.py turns the cells of the first row of the
 * results page into a document and inserts it unless a draw with that date
 * is already stored; scripts/2_ingest_to_mongo.py converts every row of the
 * results CSV file and inserts them all at once.
 */
module Records {
  import opened Wrappers
  import opened Text
  import opened Calendar
  import opened Ranking
  import opened Analysis

  /**
   * A document of the collection. `drawNo` is `None` where the key is
   * absent (ingested documents), `additionalNumber` is `None` for a stored
   * null, and `updatedAt` is `None` where the key is absent.
   */
  datatype Doc = Doc(
    drawNo: Option<int>,
    date: Instant,
    winningNumbers: seq<int>,
    additionalNumber: Option<int>,
    updatedAt: Option<Instant>)

  // ---------------------------------------------------------------------
  // Field conversions
  // ---------------------------------------------------------------------

  /** `int(text) if text.strip() else None`: a blank cell is no number, not an error. */
  function ParseOptionalInt(text: string): (r: Option<Option<int>>)
    ensures Strip(text) == [] ==> r == Some(None)
    ensures r.Some? && r.value.Some? ==> ParseInt(text) == r.value
    ensures r.None? <==> Strip(text) != [] && ParseInt(text).None?
  {
    if Strip(text) == [] then Some(None)
    else
      match ParseInt(text)
      case None => None
      case Some(n) => Some(Some(n))
  }

  /** A parsed piece in front of the parsed rest: a blank piece adds nothing, a failure fails the list. */
  function Cons(head: Option<Option<int>>, rest: Option<seq<int>>): Option<seq<int>> {
    if head.None? || rest.None? then None
    else if head.value.None? then rest
    else Some([head.value.value] + rest.value)
  }

  /** Two parsed lists one after the other, failing when either fails. */
  function Concat(x: Option<seq<int>>, y: Option<seq<int>>): Option<seq<int>> {
    if x.Some? && y.Some? then Some(x.value + y.value) else None
  }

  /**
   * `int(n.strip())` for every piece `n` that is not blank after
   * `n.strip()`, in order; a piece `int` refuses makes the whole list fail.
   * (`int` ignores surrounding whitespace itself, so each piece is
   * `ParseOptionalInt` of it.)
   */
  function ParsePieces(pieces: seq<string>): (r: Option<seq<int>>)
    ensures r.Some? ==> |r.value| <= |pieces|
  {
    if pieces == [] then Some([]) else Cons(ParseOptionalInt(pieces[0]), ParsePieces(pieces[1..]))
  }

  /** `[int(n.strip()) for n in raw.split(',') if n.strip()]`. */
  function ParseNumbers(raw: string): Option<seq<int>> {
    ParsePieces(Split(raw, ','))
  }

  lemma ConsConcat(h: Option<Option<int>>, x: Option<seq<int>>, y: Option<seq<int>>)
    ensures Cons(h, Concat(x, y)) == Concat(Cons(h, x), y)
  {
    if h.Some? && h.value.Some? && x.Some? && y.Some? {
      assert [h.value.value] + (x.value + y.value) == ([h.value.value] + x.value) + y.value;
    }
  }

  /** Parsing pieces one after another is parsing their concatenation. */
  lemma {:induction false} ParsePiecesAppend(a: seq<string>, b: seq<string>)
    ensures ParsePieces(a + b) == Concat(ParsePieces(a), ParsePieces(b))
  {
    if a == [] {
      assert a + b == b;
      if ParsePieces(b).Some? {
        assert [] + ParsePieces(b).value == ParsePieces(b).value;
      }
    } else {
      var ab := a + b;
      assert ab[0] == a[0] && ab[1..] == a[1..] + b;
      ParsePiecesAppend(a[1..], b);
      ConsConcat(ParseOptionalInt(a[0]), ParsePieces(a[1..]), ParsePieces(b));
    }
  }

  /** A blank piece parses to nothing. */
  lemma BlankPiece(p: string)
    requires Strip(p) == []
    ensures ParsePieces([p]) == Some([])
  {
    assert [p][1..] == [];
  }

  /** Appending nothing parsed changes nothing. */
  lemma ConcatEmpty(x: Option<seq<int>>)
    ensures Concat(x, Some([])) == x
  {
    if x.Some? {
      assert x.value + [] == x.value;
    }
  }

  /** A blank last piece changes nothing. */
  lemma {:induction false} TrailingBlank(parts: seq<string>)
    ensures ParsePieces(parts + [""]) == ParsePieces(parts)
  {
    BlankPiece("");
    ParsePiecesAppend(parts, [""]);
    ConcatEmpty(ParsePieces(parts));
  }

  /** A trailing comma changes nothing: the empty piece after it is skipped. */
  lemma TrailingComma(raw: string)
    ensures ParseNumbers(raw + ",") == ParseNumbers(raw)
  {
    SplitTrailingSep(raw, ',');
    TrailingBlank(Split(raw, ','));
  }

  /** A piece whose stripped text is `str(n)` parses to `n`. */
  lemma PieceOfInt(p: string, n: int)
    requires Strip(p) == IntToString(n)
    ensures ParseOptionalInt(p) == Some(Some(n))
  {
    IntToStringShape(n);
    IntToStringRoundTrip(n);
    ParseIntStrip(p);
  }

  /** Pieces whose stripped text is `str(n)` for each `n` of `ns` parse to `ns`. */
  lemma {:induction false} ParsePiecesOfInts(pieces: seq<string>, ns: seq<int>)
    requires |pieces| == |ns|
    requires forall i :: 0 <= i < |ns| ==> Strip(pieces[i]) == IntToString(ns[i])
    ensures ParsePieces(pieces) == Some(ns)
  {
    if pieces != [] {
      var rest, tail := pieces[1..], ns[1..];
      PiecesTail(pieces, ns);
      ParsePiecesOfInts(rest, tail);
      PieceOfInt(pieces[0], ns[0]);
      FirstPieceOfInt(pieces, ns);
    }
  }

  /** A first piece that parses to the first number, before pieces that parse to the other numbers. */
  lemma {:induction false} FirstPieceOfInt(pieces: seq<string>, ns: seq<int>)
    requires |pieces| == |ns| > 0 && ParseOptionalInt(pieces[0]) == Some(Some(ns[0]))
    requires ParsePieces(pieces[1..]) == Some(ns[1..])
    ensures ParsePieces(pieces) == Some(ns)
  {
    var n, tail := ns[0], ns[1..];
    assert ns == [n] + tail;
    assert Cons(Some(Some(n)), Some(tail)) == Some(ns);
  }

  /** The pieces after the first still match the numbers after the first. */
  lemma PiecesTail(pieces: seq<string>, ns: seq<int>)
    requires |pieces| == |ns| > 0
    requires forall i :: 0 <= i < |ns| ==> Strip(pieces[i]) == IntToString(ns[i])
    ensures forall i :: 0 <= i < |ns| - 1 ==> Strip(pieces[1..][i]) == IntToString(ns[1..][i])
  {
    forall i | 0 <= i < |ns| - 1 ensures Strip(pieces[1..][i]) == IntToString(ns[1..][i]) {
      assert pieces[1..][i] == pieces[i + 1] && ns[1..][i] == ns[i + 1];
    }
  }

  /** A first piece that parses to a number puts it in front of the rest's numbers. */
  lemma {:induction false} NumberPiece(pieces: seq<string>, head: int, tail: seq<int>)
    requires pieces != [] && ParseOptionalInt(pieces[0]) == Some(Some(head))
    requires ParsePieces(pieces[1..]) == Some(tail)
    ensures ParsePieces(pieces) == Some([head] + tail)
  {
  }

  /** The texts `str(n)` of the numbers. */
  function IntTexts(ns: seq<int>): seq<string>
  {
    seq(|ns|, i requires 0 <= i < |ns| => IntToString(ns[i]))
  }

  /** The texts with a space in front, as they follow each ", " separator. */
  function LeadSpace(parts: seq<string>): seq<string>
  {
    seq(|parts|, i requires 0 <= i < |parts| => " " + parts[i])
  }

  /** A space in front of a comma-joined text goes in front of its first piece. */
  lemma {:induction false} SpaceBeforeJoin(xs: seq<string>)
    requires |xs| >= 1
    ensures " " + Join(xs, ",") == Join([" " + xs[0]] + xs[1..], ",")
  {
    var ys := [" " + xs[0]] + xs[1..];
    assert ys[1..] == xs[1..];
  }

  /** Joining with ", " is joining with "," after putting a space before every piece but the first. */
  lemma {:induction false} JoinCommaSpace(parts: seq<string>)
    requires |parts| >= 1
    ensures Join(parts, ", ") == Join([parts[0]] + LeadSpace(parts[1..]), ",")
  {
    if |parts| >= 2 {
      var tail := parts[1..];
      JoinCommaSpace(tail);
      var xs := [tail[0]] + LeadSpace(tail[1..]);
      SpaceBeforeJoin(xs);
      assert [" " + xs[0]] + xs[1..] == LeadSpace(tail);
      var q := [parts[0]] + LeadSpace(tail);
      assert q[1..] == LeadSpace(tail);
      assert Join(q, ",") == parts[0] + "," + Join(LeadSpace(tail), ",");
      assert Join(parts, ", ") == parts[0] + ", " + Join(tail, ", ");
    } else {
      assert [parts[0]] + LeadSpace(parts[1..]) == parts;
    }
  }

  /** Comma-joined pieces that each strip to `str(n)` read back as the numbers. */
  lemma {:induction false} JoinedPieces(pieces: seq<string>, ns: seq<int>)
    requires |pieces| == |ns| >= 1
    requires forall i :: 0 <= i < |ns| ==> ',' !in pieces[i] && Strip(pieces[i]) == IntToString(ns[i])
    ensures ParseNumbers(Join(pieces, ",")) == Some(ns)
  {
    SplitJoin(pieces, ',');
    ParsePiecesOfInts(pieces, ns);
  }

  /** An empty group prints as the empty text, which reads back as no numbers. */
  lemma EmptyGroupRoundTrip()
    ensures ParseNumbers(FormatGroup([])) == Some([])
  {
    assert FormatGroup([]) == "";
    assert Split("", ',') == [""];
    assert ParsePieces([""]) == Some([]) by {
      assert [""][1..] == [];
    }
  }

  /** The pieces of `", ".join(...)` once split at the commas: spaces before all but the first. */
  lemma SpacedPieces(ns: seq<int>, pieces: seq<string>)
    requires ns != [] && pieces == [IntToString(ns[0])] + LeadSpace(IntTexts(ns)[1..])
    ensures |pieces| == |ns|
    ensures forall i :: 0 <= i < |ns| ==> ',' !in pieces[i] && Strip(pieces[i]) == IntToString(ns[i])
  {
    forall i | 0 <= i < |ns| ensures ',' !in pieces[i] && Strip(pieces[i]) == IntToString(ns[i]) {
      IntToStringShape(ns[i]);
      if i == 0 {
        StripTrimmed(pieces[0]);
      } else {
        assert pieces[i] == " " + IntToString(ns[i]);
        StripLeadingSpace(IntToString(ns[i]));
      }
    }
  }

  /**
   * The numbers text the analysis commands print, `", ".join(str(n) for n in c)`,
   * reads back as the same numbers.
   */
  lemma FormatGroupRoundTrip(ns: seq<int>)
    ensures ParseNumbers(FormatGroup(ns)) == Some(ns)
  {
    if ns == [] {
      EmptyGroupRoundTrip();
    } else {
      var texts := IntTexts(ns);
      assert FormatGroup(ns) == Join(texts, ", ") by {
        assert seq(|ns|, i requires 0 <= i < |ns| => IntToString(ns[i])) == texts;
      }
      JoinCommaSpace(texts);
      var pieces := [texts[0]] + LeadSpace(texts[1..]);
      SpacedPieces(ns, pieces);
      JoinedPieces(pieces, ns);
    }
  }

  /**
   * Every line a group table prints reads back as its row: the numbers text
   * parses to the row's group, beside the row's count.
   */
  lemma FormatRowsRoundTrip(rows: seq<Row>)
    ensures |FormatRows(rows)| == |rows|
    ensures forall i :: 0 <= i < |rows| ==>
      ParseNumbers(FormatRows(rows)[i].numbers) == Some(rows[i].key) &&
      FormatRows(rows)[i].occurrences == rows[i].count
  {
    forall i | 0 <= i < |rows|
      ensures ParseNumbers(FormatRows(rows)[i].numbers) == Some(rows[i].key)
    {
      FormatGroupRoundTrip(rows[i].key);
    }
  }

  /** The numbers text the results pages and the CSV file hold, `4,19,40,41,46,47`, reads back as its numbers. */
  lemma PlainListRoundTrip(ns: seq<int>)
    requires ns != []
    ensures ParseNumbers(Join(IntTexts(ns), ",")) == Some(ns)
  {
    var texts := IntTexts(ns);
    forall i | 0 <= i < |ns| ensures ',' !in texts[i] && Strip(texts[i]) == IntToString(ns[i]) {
      IntToStringShape(ns[i]);
      StripTrimmed(texts[i]);
    }
    JoinedPieces(texts, ns);
  }

  // ---------------------------------------------------------------------
  // The scheduled sync (scripts/scheduled_script/main.py)
  // ---------------------------------------------------------------------

  /**
   * The fields of the first results row, from its cell texts: draw number,
   * date, winning numbers and additional number, each from a stripped cell;
   * any failure, including a row of fewer than four cells, gives `None`.
   */
  function RecordFromCells(cells: seq<string>): (r: Option<Doc>)
    ensures r.Some? ==> r.value.drawNo.Some? && r.value.updatedAt.None?
    ensures r.Some? ==> r.value.date.micros == 0 && ValidDate(r.value.date.date)
  {
    if |cells| < 4 then None
    else
      var drawNo := ParseInt(Strip(cells[0]));
      var date := ParseDate(Strip(cells[1]));
      var numbers := ParseNumbers(Strip(cells[2]));
      var additional := ParseOptionalInt(Strip(cells[3]));
      if drawNo.None? || date.None? || numbers.None? || additional.None? then None
      else Some(Doc(drawNo, Midnight(date.value), numbers.value, additional.value, None))
  }

  /** The record is built exactly when there are four cells and every one of them converts. */
  lemma RecordFromCellsSucceeds(cells: seq<string>)
    ensures RecordFromCells(cells).Some? <==>
      && |cells| >= 4
      && ParseInt(Strip(cells[0])).Some?
      && ParseDate(Strip(cells[1])).Some?
      && ParseNumbers(Strip(cells[2])).Some?
      && ParseOptionalInt(Strip(cells[3])).Some?
  {
  }

  /** Four cells that convert to the given fields make the record of those fields. */
  lemma RecordFromFields(cells: seq<string>, drawNo: int, date: Date, numbers: seq<int>, additional: Option<int>)
    requires |cells| >= 4
    requires ParseInt(Strip(cells[0])) == Some(drawNo)
    requires ParseDate(Strip(cells[1])) == Some(date)
    requires ParseNumbers(Strip(cells[2])) == Some(numbers)
    requires ParseOptionalInt(Strip(cells[3])) == Some(additional)
    ensures RecordFromCells(cells) == Some(Doc(Some(drawNo), Midnight(date), numbers, additional, None))
  {
  }

  lemma DrawNoCell(n: int)
    ensures ParseInt(Strip(IntToString(n))) == Some(n)
  {
    IntToStringShape(n);
    StripTrimmed(IntToString(n));
    IntToStringRoundTrip(n);
  }

  lemma DateCell(date: Date)
    requires ValidDate(date)
    ensures ParseDate(Strip(" " + FormatDate(date))) == Some(date)
  {
    var f := FormatDate(date);
    assert Trimmed(f) by {
      assert f[0] == (Pad2(date.year / 100))[0];
      assert f[9] == (Pad2(date.day))[1];
    }
    StripLeadingSpace(f);
    ParseFormatDate(date);
  }

  lemma NumbersCell(numbers: seq<int>)
    requires numbers != []
    ensures ParseNumbers(Strip(Join(IntTexts(numbers), ","))) == Some(numbers)
  {
    TextsTrimmed(numbers);
    StripTrimmed(Join(IntTexts(numbers), ","));
    PlainListRoundTrip(numbers);
  }

  lemma AdditionalCell(additional: Option<int>)
    ensures ParseOptionalInt(Strip(if additional.Some? then IntToString(additional.value) else "")) == Some(additional)
  {
    if additional.Some? {
      var t := IntToString(additional.value);
      IntToStringShape(additional.value);
      StripTrimmed(t);
      IntToStringRoundTrip(additional.value);
    } else {
      assert Strip("") == "";
    }
  }

  /**
   * A row holding the canonical texts of a draw (the date with a space in
   * front of it, and whatever cells follow the fourth) converts back to
   * that draw.
   */
  lemma RecordFromCanonicalCells(
    drawNo: int, date: Date, numbers: seq<int>, additional: Option<int>, extra: seq<string>)
    requires ValidDate(date) && numbers != []
    ensures RecordFromCells(
      [IntToString(drawNo), " " + FormatDate(date), Join(IntTexts(numbers), ","),
       if additional.Some? then IntToString(additional.value) else ""] + extra)
      == Some(Doc(Some(drawNo), Midnight(date), numbers, additional, None))
  {
    var c0, c1, c2 := IntToString(drawNo), " " + FormatDate(date), Join(IntTexts(numbers), ",");
    var c3 := if additional.Some? then IntToString(additional.value) else "";
    var cells := [c0, c1, c2, c3] + extra;
    assert |cells| >= 4 && cells[0] == c0 && cells[1] == c1 && cells[2] == c2 && cells[3] == c3;
    DrawNoCell(drawNo);
    DateCell(date);
    NumbersCell(numbers);
    AdditionalCell(additional);
    RecordFromFields(cells, drawNo, date, numbers, additional);
  }

  /** A comma-joined list of `str(n)` texts has no whitespace at its ends. */
  lemma TextsTrimmed(ns: seq<int>)
    requires ns != []
    ensures Trimmed(Join(IntTexts(ns), ","))
  {
    var ts := IntTexts(ns);
    JoinEnds(ts);
    IntToStringShape(ns[0]);
    IntToStringShape(ns[|ns| - 1]);
  }

  /** A joined text starts with its first piece and ends with its last. */
  lemma {:induction false} JoinEnds(ts: seq<string>)
    requires |ts| >= 1 && ts[0] != [] && ts[|ts| - 1] != []
    ensures Join(ts, ",") != [] && Join(ts, ",")[0] == ts[0][0]
    ensures |Join(ts, ",")| >= 1 && Join(ts, ",")[|Join(ts, ",")| - 1] == ts[|ts| - 1][|ts[|ts| - 1]| - 1]
  {
    if |ts| >= 2 {
      var rest := ts[1..];
      assert rest[|rest| - 1] == ts[|ts| - 1];
      assert rest[0] == ts[1];
      if ts[1] != [] {
        JoinEnds(rest);
      } else {
        JoinEndsTail(rest);
      }
    }
  }

  /** The last character of a join is that of its last piece, when that is not empty. */
  lemma {:induction false} JoinEndsTail(ts: seq<string>)
    requires |ts| >= 1 && ts[|ts| - 1] != []
    ensures Join(ts, ",") != [] && Join(ts, ",")[|Join(ts, ",")| - 1] == ts[|ts| - 1][|ts[|ts| - 1]| - 1]
  {
    if |ts| >= 2 {
      var rest := ts[1..];
      assert rest[|rest| - 1] == ts[|ts| - 1];
      JoinEndsTail(rest);
    }
  }

  /** A results page as fetched: `None` when the request fails or holds no results table. */
  function LatestDraw(firstRow: Option<seq<string>>): (r: Option<Doc>)
    ensures firstRow.None? ==> r.None?
    ensures firstRow.Some? ==> r == RecordFromCells(firstRow.value)
  {
    if firstRow.None? then None else RecordFromCells(firstRow.value)
  }

  /**
   * A results page whose first row shows a draw (its number, its date with
   * a space in front, its comma-separated numbers, its additional number or
   * an empty cell, and any further cells) gives exactly that draw; a page
   * that could not be read gives nothing.
   */
  lemma LatestDrawOfPage(
    drawNo: int, date: Date, numbers: seq<int>, additional: Option<int>, extra: seq<string>)
    requires ValidDate(date) && numbers != []
    ensures LatestDraw(None).None?
    ensures LatestDraw(Some(
      [IntToString(drawNo), " " + FormatDate(date), Join(IntTexts(numbers), ","),
       if additional.Some? then IntToString(additional.value) else ""] + extra))
      == Some(Doc(Some(drawNo), Midnight(date), numbers, additional, None))
  {
    RecordFromCanonicalCells(drawNo, date, numbers, additional, extra);
  }

  // ---------------------------------------------------------------------
  // The CSV ingestion (scripts/2_ingest_to_mongo.py)
  // ---------------------------------------------------------------------

  /**
   * One row of the results file as `csv.DictReader` gives it; a field is
   * `None` when the row is too short to hold it.
   */
  datatype CsvRow = CsvRow(date: Option<string>, winningNo: Option<string>, addlNo: Option<string>)

  /**
   * The document of one row: the date text is parsed as it stands, without
   * stripping; the document has no draw number and no update time.
   */
  function RowToDoc(row: CsvRow): (r: Option<Doc>)
    ensures r.Some? ==> r.value.drawNo.None? && r.value.updatedAt.None? && r.value.date.micros == 0
  {
    if row.date.None? || row.winningNo.None? || row.addlNo.None? then None
    else
      var numbers := ParseNumbers(row.winningNo.value);
      var date := ParseDate(row.date.value);
      var additional := ParseOptionalInt(row.addlNo.value);
      if numbers.None? || date.None? || additional.None? then None
      else Some(Doc(None, Midnight(date.value), numbers.value, additional.value, None))
  }

  /**
   * A row converts exactly when it has all three fields, its numbers and
   * additional number are numbers, and its date text, unstripped, is a date.
   */
  lemma RowToDocSucceeds(row: CsvRow)
    ensures RowToDoc(row).Some? <==>
      && row.date.Some? && row.winningNo.Some? && row.addlNo.Some?
      && ParseNumbers(row.winningNo.value).Some?
      && ParseDate(row.date.value).Some?
      && ParseOptionalInt(row.addlNo.value).Some?
    ensures RowToDoc(row).Some? ==> ValidDate(RowToDoc(row).value.date.date)
  {
  }

  /**
   * The row the results file holds for a draw converts back to that draw:
   * the date at midnight of its day, the numbers in order, and the
   * additional number, or `None` for an empty field.
   */
  lemma RowOfDraw(date: Date, numbers: seq<int>, additional: Option<int>)
    requires ValidDate(date) && numbers != []
    ensures RowToDoc(CsvRow(Some(FormatDate(date)), Some(Join(IntTexts(numbers), ",")),
      Some(if additional.Some? then IntToString(additional.value) else "")))
      == Some(Doc(None, Midnight(date), numbers, additional, None))
  {
    var addl := if additional.Some? then IntToString(additional.value) else "";
    ParseFormatDate(date);
    PlainListRoundTrip(numbers);
    AdditionalCell(additional);
    if additional.Some? {
      IntToStringShape(additional.value);
      StripTrimmed(addl);
    }
    assert ParseOptionalInt(addl) == Some(additional);
  }

  /** A date with whitespace around it is refused: the date cell is not stripped before parsing. */
  lemma PaddedDateRefused(date: Date, numbers: string, addl: string)
    requires ValidDate(date)
    ensures RowToDoc(CsvRow(Some(" " + FormatDate(date)), Some(numbers), Some(addl))).None?
  {
    var t := " " + FormatDate(date);
    assert t[4] == FormatDate(date)[3];
  }

  /** The conversions of the rows, one by one. */
  function Conversions(rows: seq<CsvRow>): seq<Option<Doc>>
  {
    seq(|rows|, i requires 0 <= i < |rows| => RowToDoc(rows[i]))
  }

  /** The documents of all conversions, in order, or `None` if any of them failed. */
  function Collect(cs: seq<Option<Doc>>): (r: Option<seq<Doc>>)
    ensures r.Some? ==> |r.value| == |cs|
  {
    if cs == [] then Some([])
    else
      var init := Collect(cs[..|cs| - 1]);
      var last := cs[|cs| - 1];
      if init.None? || last.None? then None else Some(init.value + [last.value])
  }

  /** The documents of all rows, in order, or `None` when a row fails to convert. */
  function ConvertRows(rows: seq<CsvRow>): Option<seq<Doc>> {
    Collect(Conversions(rows))
  }

  /** Collecting fails exactly when some conversion failed, and otherwise keeps every document in place. */
  lemma {:induction false} CollectPerItem(cs: seq<Option<Doc>>)
    ensures Collect(cs).Some? <==> forall i :: 0 <= i < |cs| ==> cs[i].Some?
    ensures Collect(cs).Some? ==> forall i :: 0 <= i < |cs| ==> Collect(cs).value[i] == cs[i].value
  {
    if cs != [] {
      var init := cs[..|cs| - 1];
      CollectPerItem(init);
      assert forall i :: 0 <= i < |init| ==> init[i] == cs[i];
    }
  }

  /** Conversion fails exactly when some row fails, and otherwise yields one document per row, in order. */
  lemma ConvertRowsPerRow(rows: seq<CsvRow>)
    ensures ConvertRows(rows).Some? <==> forall i :: 0 <= i < |rows| ==> RowToDoc(rows[i]).Some?
    ensures ConvertRows(rows).Some? ==>
      |ConvertRows(rows).value| == |rows| &&
      forall i :: 0 <= i < |rows| ==> ConvertRows(rows).value[i] == RowToDoc(rows[i]).value
  {
    var cs := Conversions(rows);
    assert ConvertRows(rows) == Collect(cs);
    assert |cs| == |rows|;
    forall i | 0 <= i < |rows| ensures cs[i] == RowToDoc(rows[i]) {
    }
    CollectPerItem(cs);
  }

  /** The conversions of one more row are those of the rows before it, and its own. */
  lemma ConversionsSnoc(rows: seq<CsvRow>, i: nat)
    requires i < |rows|
    ensures Conversions(rows[..i + 1]) == Conversions(rows[..i]) + [RowToDoc(rows[i])]
  {
    var longer, shorter := rows[..i + 1], rows[..i];
    assert |Conversions(longer)| == |Conversions(shorter) + [RowToDoc(rows[i])]|;
    forall j | 0 <= j < i + 1
      ensures Conversions(longer)[j] == (Conversions(shorter) + [RowToDoc(rows[i])])[j]
    {
      if j < i {
        assert longer[j] == shorter[j];
      }
    }
  }

  /** What the ingestion script ends with. */
  datatype IngestOutcome =
    | Crashed              // a row failed to convert; the exception ends the script
    | Ingested(count: nat) // `count` documents inserted; none when the file had no rows

  /** Pairwise distinct dates: the property the scheduled sync keeps. */
  predicate UniqueDates(docs: seq<Doc>) {
    forall i, j :: 0 <= i < j < |docs| ==> docs[i].date != docs[j].date
  }

  /** Some document has this date. */
  predicate HasDate(docs: seq<Doc>, date: Instant) {
    exists i :: 0 <= i < |docs| && docs[i].date == date
  }

  /** The archive collection: its documents in insertion order. */
  class DrawStore {
    var docs: seq<Doc>

    constructor ()
      ensures docs == []
    {
      docs := [];
    }

    /** `find_one({"date": date})`: the first document with that date. */
    method FindOneByDate(date: Instant) returns (found: Option<Doc>)
      ensures found.None? <==> !HasDate(docs, date)
      ensures found.Some? ==> exists i :: (0 <= i < |docs| && docs[i] == found.value &&
        found.value.date == date && forall j :: 0 <= j < i ==> docs[j].date != date)
    {
      found := None;
      var i := 0;
      while i < |docs|
        invariant 0 <= i <= |docs|
        invariant forall j :: 0 <= j < i ==> docs[j].date != date
      {
        if docs[i].date == date {
          found := Some(docs[i]);
          return;
        }
        i := i + 1;
      }
    }

    /** `insert_one(doc)`. */
    method InsertOne(doc: Doc)
      modifies this
      ensures docs == old(docs) + [doc]
    {
      docs := docs + [doc];
    }

    /** `insert_many(batch)`; the driver refuses an empty batch. */
    method InsertMany(batch: seq<Doc>)
      requires batch != []
      modifies this
      ensures docs == old(docs) + batch
    {
      docs := docs + batch;
    }

    /**
     * `sync_to_mongodb(latest)`: nothing for a missing record; nothing when
     * a document with the record's date is stored; otherwise the record,
     * stamped with `now`, is appended. Afterwards the date is always stored,
     * so a second sync of the same record inserts nothing.
     */
    method Sync(latest: Option<Doc>, now: Instant) returns (inserted: bool)
      modifies this
      ensures latest.None? ==> !inserted
      ensures latest.Some? ==> (inserted <==> !HasDate(old(docs), latest.value.date))
      ensures inserted ==> docs == old(docs) + [latest.value.(updatedAt := Some(now))]
      ensures !inserted ==> docs == old(docs)
      ensures latest.Some? ==> HasDate(docs, latest.value.date)
      ensures UniqueDates(old(docs)) ==> UniqueDates(docs)
    {
      inserted := false;
      if latest.None? {
        return;
      }
      var existing := FindOneByDate(latest.value.date);
      if existing.None? {
        var doc := latest.value.(updatedAt := Some(now));
        InsertOne(doc);
        inserted := true;
        assert docs[|docs| - 1] == doc;
      }
    }

    /** `read_root()`: fetch the latest draw and sync it; "Failed" when there is none. */
    method Serve(firstRow: Option<seq<string>>, now: Instant) returns (reply: string)
      modifies this
      ensures reply == "Success" <==> LatestDraw(firstRow).Some?
      ensures reply == "Success" || reply == "Failed"
      ensures LatestDraw(firstRow).None? ==> docs == old(docs)
      ensures LatestDraw(firstRow).Some? ==> HasDate(docs, LatestDraw(firstRow).value.date)
      ensures LatestDraw(firstRow).Some? ==>
        docs == (if HasDate(old(docs), LatestDraw(firstRow).value.date) then old(docs)
                 else old(docs) + [LatestDraw(firstRow).value.(updatedAt := Some(now))])
      ensures UniqueDates(old(docs)) ==> UniqueDates(docs)
    {
      var data := LatestDraw(firstRow);
      if data.Some? {
        var _ := Sync(data, now);
        reply := "Success";
      } else {
        reply := "Failed";
      }
    }

    /**
     * `ingest_data(file)`: convert every row in order, then insert all the
     * documents in one batch when there are any. A row that fails to
     * convert ends the run before anything is inserted.
     */
    method Ingest(rows: seq<CsvRow>) returns (outcome: IngestOutcome)
      modifies this
      ensures ConvertRows(rows).None? ==> outcome == Crashed && docs == old(docs)
      ensures ConvertRows(rows).Some? ==>
        outcome == Ingested(|rows|) && docs == old(docs) + ConvertRows(rows).value
    {
      var draws: seq<Doc> := [];
      for i := 0 to |rows|
        invariant ConvertRows(rows[..i]) == Some(draws)
        invariant docs == old(docs)
      {
        var doc := RowToDoc(rows[i]);
        if doc.None? {
          ConvertRowsFailure(rows, i);
          return Crashed;
        }
        draws := draws + [doc.value];
        ConversionsSnoc(rows, i);
        assert Conversions(rows[..i + 1])[..i] == Conversions(rows[..i]);
      }
      assert rows[..|rows|] == rows;
      if draws != [] {
        InsertMany(draws);
      }
      outcome := Ingested(|draws|);
    }
  }

  /** Once a row fails to convert, the conversion of the whole file fails. */
  lemma ConvertRowsFailure(rows: seq<CsvRow>, i: nat)
    requires i < |rows| && RowToDoc(rows[i]).None?
    ensures ConvertRows(rows).None?
  {
    ConvertRowsPerRow(rows);
  }
}
