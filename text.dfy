/**
 * The parts of Python's `str` and `int` that the ingestion and formatting
 * code relies on: `str.isspace`, `str.strip`, `str.split(sep)`,
 * `sep.join(parts)`, `int(text)` and `str(n)`, on ASCII digits.
 */
module Text {
  import opened Wrappers

  /** The characters for which Python's `str.isspace()` holds. */
  predicate IsSpace(c: char) {
    || c == ' '
    || ('\t' <= c <= '\r')
    || ('\U{1c}' <= c <= '\U{1f}')
    || c == '\U{85}' || c == '\U{a0}' || c == '\U{1680}'
    || ('\U{2000}' <= c <= '\U{200a}')
    || c == '\U{2028}' || c == '\U{2029}' || c == '\U{202f}'
    || c == '\U{205f}' || c == '\U{3000}'
  }

  /** No whitespace at either end: what `str.strip()` leaves behind. */
  predicate Trimmed(s: string) {
    s == [] || (!IsSpace(s[0]) && !IsSpace(s[|s| - 1]))
  }

  /** `s.lstrip()`: the suffix of `s` after its leading whitespace. */
  function LStrip(s: string): (r: string)
    ensures |r| <= |s| && r == s[|s| - |r|..]
    ensures forall i :: 0 <= i < |s| - |r| ==> IsSpace(s[i])
    ensures r == [] || !IsSpace(r[0])
  {
    if s != [] && IsSpace(s[0]) then LStrip(s[1..]) else s
  }

  /** `s.rstrip()`: the prefix of `s` before its trailing whitespace. */
  function RStrip(s: string): (r: string)
    ensures |r| <= |s| && r == s[..|r|]
    ensures forall i :: |r| <= i < |s| ==> IsSpace(s[i])
    ensures r == [] || !IsSpace(r[|r| - 1])
  {
    if s != [] && IsSpace(s[|s| - 1]) then RStrip(s[..|s| - 1]) else s
  }

  /** `s.strip()`: `s` without leading and trailing whitespace. */
  function Strip(s: string): (r: string)
    ensures Trimmed(r)
    ensures |r| <= |s|
  {
    var l := LStrip(s);
    var r := RStrip(l);
    assert r != [] ==> r[0] == l[0];
    r
  }

  /** Stripping text that has no whitespace at its ends changes nothing. */
  lemma StripTrimmed(s: string)
    requires Trimmed(s)
    ensures Strip(s) == s
  {
  }

  /** Stripping twice is stripping once. */
  lemma StripIdempotent(s: string)
    ensures Strip(Strip(s)) == Strip(s)
  {
    StripTrimmed(Strip(s));
  }

  /** One leading space, as `", ".join` puts before every later field, is stripped away. */
  lemma StripLeadingSpace(s: string)
    requires Trimmed(s)
    ensures Strip(" " + s) == s
  {
    assert (" " + s)[1..] == s;
  }

  /** Index of the first occurrence of `c` in `s`. */
  function IndexOf(s: string, c: char): (i: nat)
    requires c in s
    ensures i < |s| && s[i] == c && c !in s[..i]
  {
    if s[0] == c then 0 else 1 + IndexOf(s[1..], c)
  }

  /** `sep.join(parts)`. */
  function Join(parts: seq<string>, sep: string): string {
    if |parts| == 0 then ""
    else if |parts| == 1 then parts[0]
    else parts[0] + sep + Join(parts[1..], sep)
  }

  /**
   * `s.split(sep)` for a one-character separator: never empty, no piece
   * holds the separator, and joining the pieces again gives back `s`.
   */
  function Split(s: string, sep: char): (parts: seq<string>)
    ensures |parts| >= 1
    ensures forall i :: 0 <= i < |parts| ==> sep !in parts[i]
    decreases |s|
  {
    if sep !in s then [s]
    else
      var i := IndexOf(s, sep);
      [s[..i]] + Split(s[i + 1..], sep)
  }

  /** Joining the pieces of a split with the separator gives back the text. */
  lemma {:induction false} JoinSplit(s: string, sep: char)
    ensures Join(Split(s, sep), [sep]) == s
    decreases |s|
  {
    if sep in s {
      var i := IndexOf(s, sep);
      JoinSplit(s[i + 1..], sep);
      var rest := Split(s[i + 1..], sep);
      assert Split(s, sep) == [s[..i]] + rest;
      assert ([s[..i]] + rest)[1..] == rest;
      assert s == s[..i] + [sep] + s[i + 1..];
    }
  }

  /** Splitting text that starts with a separator-free field splits off exactly that field. */
  lemma {:induction false} SplitCons(a: string, sep: char, t: string)
    requires sep !in a
    ensures Split(a + [sep] + t, sep) == [a] + Split(t, sep)
  {
    var s := a + [sep] + t;
    assert s[|a|] == sep;
    assert sep in s;
    IndexOfPrefix(a, sep, t);
    assert s[..|a|] == a;
    assert s[|a| + 1..] == t;
  }

  lemma {:induction false} IndexOfPrefix(a: string, sep: char, t: string)
    requires sep !in a
    ensures sep in a + [sep] + t && IndexOf(a + [sep] + t, sep) == |a|
  {
    var s := a + [sep] + t;
    assert s[|a|] == sep;
    if a != [] {
      assert s[0] == a[0];
      assert s[1..] == a[1..] + [sep] + t;
      IndexOfPrefix(a[1..], sep, t);
    }
  }

  /** Splitting what was joined gives back the separator-free pieces. */
  lemma {:induction false} SplitJoin(parts: seq<string>, sep: char)
    requires |parts| >= 1
    requires forall i :: 0 <= i < |parts| ==> sep !in parts[i]
    ensures Split(Join(parts, [sep]), sep) == parts
  {
    if |parts| > 1 {
      SplitJoin(parts[1..], sep);
      SplitCons(parts[0], sep, Join(parts[1..], [sep]));
      assert [parts[0]] + parts[1..] == parts;
    }
  }

  /** A trailing separator adds one empty piece at the end. */
  lemma {:induction false} SplitTrailingSep(s: string, sep: char)
    ensures Split(s + [sep], sep) == Split(s, sep) + [""]
    decreases |s|
  {
    if sep !in s {
      SplitLast(s, sep);
    } else {
      var i := IndexOf(s, sep);
      var a, t := s[..i], s[i + 1..];
      SplitAt(s, sep, i);
      assert s + [sep] == a + [sep] + (t + [sep]);
      SplitCons(a, sep, t + [sep]);
      SplitTrailingSep(t, sep);
      assert [a] + (Split(t, sep) + [""]) == ([a] + Split(t, sep)) + [""];
    }
  }

  /** Text without the separator, followed by it, splits into the text and an empty piece. */
  lemma {:induction false} SplitLast(s: string, sep: char)
    requires sep !in s
    ensures Split(s + [sep], sep) == Split(s, sep) + [""]
  {
    assert s + [sep] + "" == s + [sep];
    SplitCons(s, sep, "");
    assert sep !in "";
  }

  /** Splitting at the first separator, at index `i`. */
  lemma {:induction false} SplitAt(s: string, sep: char, i: nat)
    requires sep in s && i == IndexOf(s, sep)
    ensures s == s[..i] + [sep] + s[i + 1..]
    ensures sep !in s[..i]
    ensures Split(s, sep) == [s[..i]] + Split(s[i + 1..], sep)
  {
  }

  predicate IsDigit(c: char) {
    '0' <= c <= '9'
  }

  function DigitValue(c: char): (d: nat)
    requires IsDigit(c)
    ensures d < 10
  {
    (c as int) - ('0' as int)
  }

  function DigitChar(d: nat): (c: char)
    requires d < 10
    ensures IsDigit(c) && DigitValue(c) == d
  {
    ('0' as int + d) as char
  }

  predicate AllDigits(s: string) {
    forall i :: 0 <= i < |s| ==> IsDigit(s[i])
  }

  /**
   * The digits Python's `int()` accepts after the sign: ASCII digits, with
   * single underscores allowed between two digits (`1_000`).
   */
  predicate IsDigitBody(b: string) {
    && |b| > 0
    && IsDigit(b[0])
    && IsDigit(b[|b| - 1])
    && (forall i :: 0 <= i < |b| ==> IsDigit(b[i]) || b[i] == '_')
    && (forall i :: 0 <= i < |b| - 1 ==> b[i] == '_' ==> b[i + 1] != '_')
  }

  /** The decimal value of a digit body, underscores ignored. */
  function BodyValue(b: string): nat {
    if b == [] then 0
    else if IsDigit(b[|b| - 1]) then BodyValue(b[..|b| - 1]) * 10 + DigitValue(b[|b| - 1])
    else BodyValue(b[..|b| - 1])
  }

  /**
   * Python's `int(text)`: surrounding whitespace is ignored, an optional
   * `+` or `-` sign, then a digit body; anything else raises `ValueError`,
   * modelled as `None`.
   */
  function ParseInt(text: string): (r: Option<int>)
    ensures r.Some? ==> Strip(text) != []
  {
    var t := Strip(text);
    if |t| > 0 && (t[0] == '-' || t[0] == '+') then
      if IsDigitBody(t[1..]) then
        var v: int := BodyValue(t[1..]);
        Some(if t[0] == '-' then -v else v)
      else None
    else if IsDigitBody(t) then Some(BodyValue(t))
    else None
  }

  /**
   * The only texts `int()` can accept once stripped: digits and underscores,
   * a sign only in front, a digit first after the sign and a digit last.
   */
  predicate IntText(t: string) {
    && t != []
    && (forall i :: 0 <= i < |t| ==> IsDigit(t[i]) || t[i] == '_' || (i == 0 && (t[i] == '+' || t[i] == '-')))
    && (IsDigit(t[0]) || (|t| > 1 && (t[0] == '+' || t[0] == '-') && IsDigit(t[1])))
    && IsDigit(t[|t| - 1])
  }

  lemma SignedIntText(t: string)
    requires |t| > 0 && (t[0] == '+' || t[0] == '-') && IsDigitBody(t[1..])
    ensures IntText(t)
  {
    assert forall i :: 1 <= i < |t| ==> t[i] == t[1..][i - 1];
  }

  /**
   * What `int()` refuses: text that is blank once stripped, any character
   * other than a digit, an underscore or a leading sign, an underscore
   * before the first digit or after the last one.
   */
  lemma ParseIntRefusals(text: string)
    ensures ParseInt(text).Some? ==> IntText(Strip(text))
  {
    var t := Strip(text);
    if |t| > 0 && (t[0] == '-' || t[0] == '+') {
      if IsDigitBody(t[1..]) {
        SignedIntText(t);
      }
    }
  }

  /** `int` strips its argument itself, so stripping first changes nothing. */
  lemma ParseIntStrip(text: string)
    ensures ParseInt(Strip(text)) == ParseInt(text)
  {
    StripIdempotent(text);
  }

  /** Python's `str(n)` for a natural number: decimal, no leading zeros. */
  function NatToString(n: nat): (s: string)
    ensures |s| > 0 && AllDigits(s)
    ensures |s| > 1 ==> s[0] != '0'
  {
    if n < 10 then [DigitChar(n)]
    else
      var h := NatToString(n / 10);
      assert (h + [DigitChar(n % 10)])[0] == h[0];
      h + [DigitChar(n % 10)]
  }

  /** Python's `str(n)` for an integer. */
  function IntToString(n: int): string {
    if n < 0 then "-" + NatToString(-n) else NatToString(n)
  }

  lemma {:induction false} NatToStringValue(n: nat)
    ensures BodyValue(NatToString(n)) == n
    decreases n
  {
    var s := NatToString(n);
    if n < 10 {
      assert s[..0] == [];
    } else {
      NatToStringValue(n / 10);
      assert s[..|s| - 1] == NatToString(n / 10);
    }
  }

  /** `int(str(n)) == n`; the model has no limit on the number of digits. */
  lemma IntToStringRoundTrip(n: int)
    ensures ParseInt(IntToString(n)) == Some(n)
  {
    var m: nat := if n < 0 then -n else n;
    var d := NatToString(m);
    NatToStringValue(m);
    DigitsAreBody(d);
    var s := IntToString(n);
    IntToStringShape(n);
    StripTrimmed(s);
    if n < 0 {
      assert s[1..] == d;
      assert s[0] == '-';
    } else {
      assert s == d;
      assert IsDigit(s[0]);
    }
  }

  lemma DigitsAreBody(d: string)
    requires |d| > 0 && AllDigits(d)
    ensures IsDigitBody(d)
  {
  }

  /** The text of `str(n)` is whitespace-free at its ends and has no comma. */
  lemma IntToStringShape(n: int)
    ensures Trimmed(IntToString(n)) && IntToString(n) != []
    ensures ',' !in IntToString(n)
  {
    var d := NatToString(if n < 0 then -n else n);
    assert forall i :: 0 <= i < |d| ==> IsDigit(d[i]);
    var s := IntToString(n);
    assert forall i :: 0 <= i < |s| ==> s[i] != ',';
  }
}
