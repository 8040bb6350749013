/**
 * The `--range` option callback of the `topnum` command
 * (`parse_date_range` in toto_cli/src/toto_cli/util.py).
 *
 * The preferred form is `START:END`; `START:` and a bare `START` leave the
 * end open. A legacy form without a colon and longer than ten characters is
 * cut at fixed offsets: the first ten characters are the start, everything
 * from index 11 on is the end, and the character at index 10 is never looked
 * at. Every failure raises the same `click.BadParameter`.
 */
module DateRange {
  import opened Wrappers
  import opened Text
  import opened Calendar

  /** The pair `(start_dt, end_dt)` the callback returns; `None` is an open side. */
  datatype Range = Range(start: Option<Date>, end: Option<Date>)

  /** `click.BadParameter(message)`. */
  datatype BadParameter = BadParameter(message: string)

  const FormatMessage: string := "Format must be YYYY-MM-DD:YYYY-MM-DD"

  /** The unbounded range returned for an absent or empty option. */
  const Unbounded: Range := Range(None, None)

  /**
   * The start and end texts the callback hands to `strptime`; an end of
   * `None` is Python's `None`, distinct from an empty end text.
   */
  function Fields(value: string): (f: (string, Option<string>))
  {
    var parts := if ':' in value then Split(value, ':') else [value];
    if |parts| == 1 && |value| > 10 then (value[..10], Some(value[11..]))
    else (parts[0], if |parts| > 1 then Some(parts[1]) else None)
  }

  /** `parse_date_range(ctx, param, value)`. */
  function ParseDateRange(value: Option<string>): (r: Result<Range, BadParameter>)
    ensures r.Err? ==> r.error == BadParameter(FormatMessage)
    ensures r.Ok? && r.value != Unbounded ==> r.value.start.Some?
    ensures r.Ok? && r.value.start.Some? ==> ValidDate(r.value.start.value)
    ensures r.Ok? && r.value.end.Some? ==> ValidDate(r.value.end.value)
    ensures r == Ok(Unbounded) <==> value.None? || value.value == ""
  {
    if value.None? || value.value == "" then Ok(Unbounded)
    else
      var (startText, endText) := Fields(value.value);
      var start := ParseDate(startText);
      if start.None? then Err(BadParameter(FormatMessage))
      else if endText.None? || endText.value == "" then Ok(Range(start, None))
      else
        var end := ParseDate(endText.value);
        if end.None? then Err(BadParameter(FormatMessage))
        else Ok(Range(start, end))
  }

  /** An absent or empty option means no filtering, and never fails. */
  lemma EmptyIsUnbounded()
    ensures ParseDateRange(None) == Ok(Unbounded)
    ensures ParseDateRange(Some("")) == Ok(Unbounded)
  {
  }

  /** `A:B`: the first two colon fields are the start and the end; later fields are ignored. */
  lemma {:induction false} ColonFields(a: string, b: string, tail: string)
    requires ':' !in a && ':' !in b
    requires tail == [] || tail[0] == ':'
    ensures Fields(a + ":" + b + tail) == (a, if b == [] then Some("") else Some(b))
  {
    var v := a + ":" + b + tail;
    assert v == a + [':'] + (b + tail);
    assert v[|a|] == ':';
    SplitCons(a, ':', b + tail);
    if tail == [] {
      assert b + tail == b;
    } else {
      assert b + tail == b + [':'] + tail[1..];
      SplitCons(b, ':', tail[1..]);
    }
  }

  /** `A:B` with two valid dates parses to `(A, B)`, whatever follows a further colon. */
  lemma ColonFormBothDates(a: string, b: string, tail: string)
    requires ':' !in a && ':' !in b
    requires tail == [] || tail[0] == ':'
    requires ParseDate(a).Some? && ParseDate(b).Some?
    ensures ParseDateRange(Some(a + ":" + b + tail)) == Ok(Range(ParseDate(a), ParseDate(b)))
  {
    ColonFields(a, b, tail);
  }

  /** `A:` (and `A::...`): an empty end field means no end. */
  lemma ColonFormOpenEnd(a: string, tail: string)
    requires ':' !in a
    requires tail == [] || tail[0] == ':'
    requires ParseDate(a).Some?
    ensures ParseDateRange(Some(a + ":" + tail)) == Ok(Range(ParseDate(a), None))
  {
    ColonFields(a, "", tail);
    assert a + ":" + "" + tail == a + ":" + tail;
  }

  /**
   * The start is always required: a colon form whose first field is not a
   * date, including an empty one as in `:2024-12-31`, fails.
   */
  lemma ColonFormBadStart(a: string, b: string, tail: string)
    requires ':' !in a && ':' !in b
    requires tail == [] || tail[0] == ':'
    requires ParseDate(a).None?
    ensures ParseDateRange(Some(a + ":" + b + tail)) == Err(BadParameter(FormatMessage))
  {
    ColonFields(a, b, tail);
  }

  /** A non-empty end field that is not a date fails, with no partial result. */
  lemma ColonFormBadEnd(a: string, b: string, tail: string)
    requires ':' !in a && ':' !in b && b != ""
    requires tail == [] || tail[0] == ':'
    requires ParseDate(b).None?
    ensures ParseDateRange(Some(a + ":" + b + tail)) == Err(BadParameter(FormatMessage))
  {
    ColonFields(a, b, tail);
  }

  /**
   * The legacy form: without a colon and longer than ten characters, the
   * start is characters 0-9, the end is characters 11 onward (no end when
   * that is empty), and the character at index 10 does not matter.
   */
  lemma LegacyForm(v: string, c: char)
    requires ':' !in v && |v| > 10 && c != ':'
    ensures Fields(v) == (v[..10], Some(v[11..]))
    ensures ParseDateRange(Some(v)) == ParseDateRange(Some(v[10 := c]))
    ensures ParseDateRange(Some(v)) ==
      if ParseDate(v[..10]).None? then Err(BadParameter(FormatMessage))
      else if v[11..] == "" then Ok(Range(ParseDate(v[..10]), None))
      else if ParseDate(v[11..]).None? then Err(BadParameter(FormatMessage))
      else Ok(Range(ParseDate(v[..10]), ParseDate(v[11..])))
  {
    var w := v[10 := c];
    assert ':' !in w by {
      forall i | 0 <= i < |w| ensures w[i] != ':' {
        if i != 10 { assert w[i] == v[i]; }
      }
    }
    assert w[..10] == v[..10] && w[11..] == v[11..];
  }

  /** Without a colon and at most ten characters long, the whole value is the start. */
  lemma BareDate(v: string)
    requires ':' !in v && 0 < |v| <= 10
    ensures ParseDateRange(Some(v)) ==
      if ParseDate(v).None? then Err(BadParameter(FormatMessage)) else Ok(Range(ParseDate(v), None))
  {
  }

  /** The canonical text of two dates parses back to them, in either order: no start <= end check. */
  lemma ColonRoundTrip(a: Date, b: Date)
    requires ValidDate(a) && ValidDate(b)
    ensures ParseDateRange(Some(FormatDate(a) + ":" + FormatDate(b))) == Ok(Range(Some(a), Some(b)))
  {
    ParseFormatDate(a);
    ParseFormatDate(b);
    ColonFormBothDates(FormatDate(a), FormatDate(b), "");
    assert FormatDate(a) + ":" + FormatDate(b) + "" == FormatDate(a) + ":" + FormatDate(b);
  }

  /** A start later than the end is accepted as it stands. */
  lemma ReversedRangeAccepted(a: Date, b: Date)
    requires ValidDate(a) && ValidDate(b) && DateBefore(b, a)
    ensures ParseDateRange(Some(FormatDate(a) + ":" + FormatDate(b))).Ok?
  {
    ColonRoundTrip(a, b);
  }

  /** The legacy text `START-END` of two canonical dates parses back to them. */
  lemma LegacyRoundTrip(a: Date, b: Date)
    requires ValidDate(a) && ValidDate(b)
    ensures ParseDateRange(Some(FormatDate(a) + "-" + FormatDate(b))) == Ok(Range(Some(a), Some(b)))
  {
    var v := FormatDate(a) + "-" + FormatDate(b);
    assert v[..10] == FormatDate(a) && v[11..] == FormatDate(b);
    assert ':' !in v by {
      forall i | 0 <= i < |v| ensures v[i] != ':' {
        if i < 10 { assert v[i] == FormatDate(a)[i]; }
        else if i > 10 { assert v[i] == FormatDate(b)[i - 11]; }
      }
    }
    ParseFormatDate(a);
    ParseFormatDate(b);
    LegacyForm(v, '-');
  }

  /** A two-character month field `strptime` refuses makes the whole date fail. */
  lemma BadTwoDigitMonth(text: string)
    requires |text| >= 8 && text[4] == '-' && text[6] != '-' && text[7] == '-'
    requires MonthField(text[5..][..2]).None?
    ensures ParseDate(text).None?
  {
  }

  /** A month of 13 fails, whatever end follows: `2024-13-01:2024-01-01`. */
  lemma InvalidMonthFails(b: string)
    requires ':' !in b
    ensures ParseDateRange(Some("2024-13-01:" + b)) == Err(BadParameter(FormatMessage))
  {
    var a := "2024-13-01";
    assert ':' !in a;
    assert a[5..][..2] == "13";
    BadTwoDigitMonth(a);
    ColonFormBadStart(a, b, "");
    assert a + ":" + b + "" == "2024-13-01:" + b;
  }

  /** February 29 of a common year fails: `2023-02-29`. */
  lemma NonLeapFebruary29Fails()
    ensures ParseDateRange(Some("2023-02-29")) == Err(BadParameter(FormatMessage))
  {
    BareDate("2023-02-29");
  }
}
