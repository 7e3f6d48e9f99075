/**
 * The form-field parsers of app/utils/zod.ts: `numericString`, a digits-only
 * string read as a natural number, and the split step of `dateRangeString`.
 */
module FormFields {
  import opened Wrappers
  import opened Records

  /** A submitted form value: a string, or anything else (a file, a missing field). */
  datatype FormValue = Text(s: string) | NonText

  // ---------------------------------------------------------------- numericString

  /** The regular-expression class `\d`: the ASCII digits only. */
  predicate IsDigit(c: char) {
    '0' <= c <= '9'
  }

  /** `^\d+$`: the whole string is one or more digits. */
  predicate MatchesDigits(s: string)
    ensures MatchesDigits(s) <==> |s| > 0 && forall i :: 0 <= i < |s| ==> IsDigit(s[i])
  {
    |s| > 0 && IsDigit(s[0]) && (|s| == 1 || MatchesDigits(s[1..]))
  }

  /** The value of one decimal digit. */
  function DigitValue(c: char): (d: nat)
    requires IsDigit(c)
    ensures d < 10
  {
    c as int - '0' as int
  }

  /** The character of one decimal digit. */
  function DigitChar(d: nat): (c: char)
    requires d < 10
    ensures IsDigit(c) && DigitValue(c) == d
  {
    ('0' as int + d) as char
  }

  /** `Number(s)` on a string of digits: the decimal value, most significant digit first. */
  function DecimalValue(s: string): nat
    requires forall i :: 0 <= i < |s| ==> IsDigit(s[i])
  {
    if |s| == 0 then 0 else 10 * DecimalValue(s[..|s| - 1]) + DigitValue(s[|s| - 1])
  }

  /** `numericString`: accepted exactly when the value is a non-empty string of digits. */
  function NumericString(v: FormValue): (r: Option<nat>)
    ensures r.Some? <==> v.Text? && |v.s| > 0 && forall i :: 0 <= i < |v.s| ==> IsDigit(v.s[i])
    ensures r.Some? ==> r.value == DecimalValue(v.s)
  {
    match v
    case NonText => None
    case Text(s) => if MatchesDigits(s) then Some(DecimalValue(s)) else None
  }

  /** The shortest decimal rendering of `n`, as `String(n)` gives it: no leading zero. */
  function ToDecimal(n: nat): (s: string)
    ensures |s| > 0 && forall i :: 0 <= i < |s| ==> IsDigit(s[i])
    ensures |s| == 1 || s[0] != '0'
    ensures s[0] == '0' <==> n == 0
  {
    if n < 10 then [DigitChar(n)] else ToDecimal(n / 10) + [DigitChar(n % 10)]
  }

  /** Reading back a rendering gives the number. */
  lemma {:induction false} DecimalValueOfToDecimal(n: nat)
    ensures DecimalValue(ToDecimal(n)) == n
  {
    if n >= 10 {
      DecimalValueOfToDecimal(n / 10);
      var s := ToDecimal(n);
      assert s[..|s| - 1] == ToDecimal(n / 10);
    }
  }

  /** Round trip: the rendering of every natural number is accepted and parses back to it. */
  lemma NumericStringRoundTrip(n: nat)
    ensures NumericString(Text(ToDecimal(n))) == Some(n)
  {
    DecimalValueOfToDecimal(n);
  }

  /** A leading zero does not change the value. */
  lemma {:induction false} LeadingZero(s: string)
    requires forall i :: 0 <= i < |s| ==> IsDigit(s[i])
    ensures DecimalValue("0" + s) == DecimalValue(s)
  {
    if |s| > 0 {
      var t := "0" + s;
      assert t[..|t| - 1] == "0" + s[..|s| - 1];
      LeadingZero(s[..|s| - 1]);
    }
  }

  /** Leading zeros are accepted: "007" reads as 7. */
  lemma LeadingZerosAccepted()
    ensures NumericString(Text("007")) == Some(7)
  {
    assert "007"[..2] == "00" && "00"[..1] == "0" && "0"[..0] == "";
    assert DecimalValue("0") == 0;
    assert DecimalValue("00") == 0;
    assert DecimalValue("007") == 7;
  }

  /** A sign, a space or a decimal point anywhere rejects the string, and so does the empty string. */
  lemma NonDigitsRejected(s: string, i: nat)
    requires i < |s| && s[i] in {'-', '+', ' ', '.'}
    ensures NumericString(Text(s)) == None
    ensures NumericString(Text("")) == None
  {
    assert !IsDigit(s[i]);
  }

  // ---------------------------------------------------------------- dateRangeString

  /**
   * The separator literal of `dateRangeString`. It reads as an en dash stored
   * in UTF-8 and decoded as Windows-1252, and is kept character for character.
   */
  const RangeSeparator: string := " \U{e2}\U{20ac}\U{201c} "

  /** `sep` occurs in `s` starting at position `i`. */
  predicate OccursAt(s: string, sep: string, i: int) {
    0 <= i && i + |sep| <= |s| && s[i..i + |sep|] == sep
  }

  /** `sep` occurs somewhere in `s`. */
  predicate Contains(s: string, sep: string) {
    exists i :: 0 <= i <= |s| && OccursAt(s, sep, i)
  }

  /** The first position at or after `from` where `sep` occurs, or -1. */
  function IndexOfFrom(s: string, sep: string, from: nat): (r: int)
    requires |sep| > 0
    ensures r == -1 || from <= r
    ensures r >= 0 ==> OccursAt(s, sep, r)
    ensures r >= 0 ==> forall j :: from <= j < r ==> !OccursAt(s, sep, j)
    ensures r == -1 ==> forall j :: from <= j <= |s| ==> !OccursAt(s, sep, j)
    decreases |s| - from
  {
    if from + |sep| > |s| then -1
    else if s[from..from + |sep|] == sep then from
    else IndexOfFrom(s, sep, from + 1)
  }

  /** `s.indexOf(sep)`: the first occurrence of `sep` in `s`, or -1. */
  function IndexOf(s: string, sep: string): (r: int)
    requires |sep| > 0
    ensures r == -1 <==> !Contains(s, sep)
    ensures r >= 0 ==> OccursAt(s, sep, r) && forall j :: 0 <= j < r ==> !OccursAt(s, sep, j)
  {
    IndexOfFrom(s, sep, 0)
  }

  /** The pieces joined back together with `sep` between them. */
  function Join(parts: seq<string>, sep: string): string {
    if |parts| == 0 then "" else if |parts| == 1 then parts[0] else parts[0] + sep + Join(parts[1..], sep)
  }

  /**
   * JavaScript's `s.split(sep)` for a non-empty separator: the text between
   * successive non-overlapping occurrences, scanning left to right. It always
   * has at least one piece, no piece contains the separator, and joining the
   * pieces gives `s` back. Each cut is at the leftmost occurrence: no
   * occurrence starts inside a piece and runs into the separator after it.
   */
  function Split(s: string, sep: string): (parts: seq<string>)
    requires |sep| > 0
    ensures |parts| >= 1
    ensures Join(parts, sep) == s
    ensures forall k :: 0 <= k < |parts| ==> !Contains(parts[k], sep)
    ensures forall k :: 0 <= k < |parts| - 1 ==> !Contains(parts[k] + sep[..|sep| - 1], sep)
    decreases |s|
  {
    var i := IndexOf(s, sep);
    if i < 0 then [s]
    else
      var head := s[..i];
      assert !Contains(head, sep) by {
        forall j | 0 <= j <= |head| ensures !OccursAt(head, sep, j) {
          if OccursAt(head, sep, j) {
            assert s[j..j + |sep|] == head[j..j + |sep|];
            assert OccursAt(s, sep, j);
          }
        }
      }
      assert !Contains(head + sep[..|sep| - 1], sep) by {
        var h := head + sep[..|sep| - 1];
        assert h == s[..i + |sep| - 1];
        forall j | 0 <= j <= |h| ensures !OccursAt(h, sep, j) {
          if OccursAt(h, sep, j) {
            assert s[j..j + |sep|] == h[j..j + |sep|];
            assert OccursAt(s, sep, j);
          }
        }
      }
      var rest := Split(s[i + |sep|..], sep);
      assert s == head + sep + s[i + |sep|..];
      [head] + rest
  }

  /** The object `{ start, end }` built from the first two pieces; `end` is `undefined` without a separator. */
  datatype RangeParts = RangeParts(start: string, end: Option<string>)

  /** The preprocessing step of `dateRangeString`; a value that is not a string yields `undefined`. */
  function SplitRange(v: FormValue): (r: Option<RangeParts>)
    ensures r.Some? <==> v.Text?
    ensures r.Some? ==> r.value.start == Split(v.s, RangeSeparator)[0]
    ensures r.Some? ==> (r.value.end.Some? <==> Contains(v.s, RangeSeparator))
    ensures r.Some? && r.value.end.Some? ==> r.value.end.value == Split(v.s, RangeSeparator)[1]
  {
    match v
    case NonText => None
    case Text(s) =>
      var parts := Split(s, RangeSeparator);
      Some(RangeParts(parts[0], if |parts| >= 2 then Some(parts[1]) else None))
  }

  /** A validated date range. */
  datatype DateRange = DateRange(start: Timestamp, end: Timestamp)

  /**
   * `dateRangeString`: both pieces must be present and each must parse as a
   * date. `parseDate` stands for `dateString` on a string, that is, the date
   * library's parse followed by the validity check; it is not part of this model.
   */
  function DateRangeString(v: FormValue, parseDate: string -> Option<Timestamp>): (r: Option<DateRange>)
    ensures r.Some? ==> v.Text? && Contains(v.s, RangeSeparator)
    ensures r.Some? ==> var parts := Split(v.s, RangeSeparator);
      parseDate(parts[0]) == Some(r.value.start) && parseDate(parts[1]) == Some(r.value.end)
    ensures v.Text? && Contains(v.s, RangeSeparator) ==>
      var parts := Split(v.s, RangeSeparator);
      (r.None? <==> parseDate(parts[0]).None? || parseDate(parts[1]).None?)
  {
    match SplitRange(v)
    case None => None
    case Some(RangeParts(start, end)) =>
      match end
      case None => None
      case Some(e) =>
        match (parseDate(start), parseDate(e))
        case (Some(a), Some(b)) => Some(DateRange(a, b))
        case _ => None
  }

  /** A string without the separator in the first place is kept whole. */
  lemma SplitWithoutSeparator(s: string, sep: string)
    requires |sep| > 0 && !Contains(s, sep)
    ensures Split(s, sep) == [s]
  {
  }

  /**
   * The first piece of `a + sep + rest` is `a` when the first occurrence of
   * `sep` is the one placed after `a`, that is, when none starts inside `a`.
   * That can fail even when `a` itself has no separator, if `a` ends with a
   * prefix of `sep` that is also a suffix of it.
   */
  lemma SplitAfterFirst(a: string, sep: string, rest: string)
    requires |sep| > 0
    requires !Contains(a + sep[..|sep| - 1], sep)
    ensures Split(a + sep + rest, sep) == [a] + Split(rest, sep)
  {
    var s := a + sep + rest;
    var t := a + sep[..|sep| - 1];
    assert OccursAt(s, sep, |a|) by { assert s[|a|..|a| + |sep|] == sep; }
    forall j | 0 <= j < |a| ensures !OccursAt(s, sep, j) {
      assert s[..|t|] == t;
      if OccursAt(s, sep, j) {
        assert s[j..j + |sep|] == t[j..j + |sep|];
        assert OccursAt(t, sep, j);
      }
    }
    assert IndexOf(s, sep) == |a|;
    assert s[..|a|] == a;
    assert s[|a| + |sep|..] == rest;
  }

  /** Splitting `a + sep + b` gives back `a` and `b` under the condition above, when `b` has no separator. */
  lemma SplitJoined(a: string, sep: string, b: string)
    requires |sep| > 0
    requires !Contains(a + sep[..|sep| - 1], sep)
    requires !Contains(b, sep)
    ensures Split(a + sep + b, sep) == [a, b]
  {
    SplitAfterFirst(a, sep, b);
    SplitWithoutSeparator(b, sep);
  }

  /**
   * The condition on `a` in `SplitJoined` is needed: "x" followed by the
   * separator without its trailing space has no separator of its own, yet a
   * separator after it is found one position early.
   */
  lemma SeparatorOverlap()
    ensures var a := "x \U{e2}\U{20ac}\U{201c}";
      && !Contains(a, RangeSeparator) && !Contains("b", RangeSeparator)
      && SplitRange(Text(a + RangeSeparator + "b")) == Some(RangeParts("x", Some("\U{e2}\U{20ac}\U{201c} b")))
  {
    var a := "x \U{e2}\U{20ac}\U{201c}";
    var s := a + RangeSeparator + "b";
    assert !OccursAt(a, RangeSeparator, 0) by { assert a[0] != RangeSeparator[0]; }
    assert !OccursAt(s, RangeSeparator, 0) by { assert s[0] != RangeSeparator[0]; }
    assert OccursAt(s, RangeSeparator, 1) by { assert s[1..6] == RangeSeparator; }
    var rest := s[6..];
    assert rest == "\U{e2}\U{20ac}\U{201c} b";
    assert !OccursAt(rest, RangeSeparator, 0) by { assert rest[0] != RangeSeparator[0]; }
    assert IndexOf(s, RangeSeparator) == 1;
    assert s[..1] == "x";
    SplitWithoutSeparator(rest, RangeSeparator);
    assert Split(s, RangeSeparator) == ["x", rest];
  }

  /** A range written `a – b` has `a` as its start and `b` as its end. */
  lemma SplitRangeJoined(a: string, b: string)
    requires !Contains(a + RangeSeparator[..|RangeSeparator| - 1], RangeSeparator)
    requires !Contains(b, RangeSeparator)
    ensures SplitRange(Text(a + RangeSeparator + b)) == Some(RangeParts(a, Some(b)))
  {
    SplitJoined(a, RangeSeparator, b);
  }

  /** Only the first two pieces are used: whatever follows a second separator is ignored. */
  lemma SplitRangeIgnoresRest(a: string, b: string, c: string)
    requires !Contains(a + RangeSeparator[..|RangeSeparator| - 1], RangeSeparator)
    requires !Contains(b + RangeSeparator[..|RangeSeparator| - 1], RangeSeparator)
    ensures SplitRange(Text(a + RangeSeparator + b + RangeSeparator + c)) == Some(RangeParts(a, Some(b)))
  {
    var sep := RangeSeparator;
    assert a + sep + b + sep + c == a + sep + (b + sep + c);
    SplitAfterFirst(a, sep, b + sep + c);
    SplitAfterFirst(b, sep, c);
  }

  /** Without a separator there is no end piece, so the range is rejected. */
  lemma NoSeparatorRejected(s: string, parseDate: string -> Option<Timestamp>)
    requires !Contains(s, RangeSeparator)
    ensures SplitRange(Text(s)) == Some(RangeParts(s, None))
    ensures DateRangeString(Text(s), parseDate) == None
  {
    SplitWithoutSeparator(s, RangeSeparator);
  }

  /** A value that is not a string is rejected by both parsers. */
  lemma NonTextRejected(parseDate: string -> Option<Timestamp>)
    ensures SplitRange(NonText) == None
    ensures DateRangeString(NonText, parseDate) == None
    ensures NumericString(NonText) == None
  {
  }
}
