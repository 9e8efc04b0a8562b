/** The checks the two entry forms run before saving a session: no blank
    field, a date of the form `^\d{4}-\d{2}-\d{2}$`, and (for the database
    form) a duration that Kotlin's `toIntOrNull` reads as a positive Int. */
module FormValidation {
  import opened Wrappers
  import opened Text

  const FillAllFieldsMessage := "Please fill all fields"
  const DateFormatMessage := "Invalid date format. Please use YYYY-MM-DD"
  const DurationMessage := "Duration must be a valid positive number (minutes)"

  const IntMin: int := -0x8000_0000
  const IntMax: int := 0x7FFF_FFFF

  /** The whole input matches `^\d{4}-\d{2}-\d{2}$` (`\d` is an ASCII digit):
      four digits, a dash, two digits, a dash, two digits, and nothing
      around them. */
  predicate MatchesDatePattern(s: string) {
    && |s| == 10 && s[4] == '-' && s[7] == '-'
    && forall i :: 0 <= i < 10 && i != 4 && i != 7 ==> IsDigit(s[i])
  }

  /** The pattern read field by field: a year of four digits, a month of two
      and a day of two, separated by dashes. */
  lemma {:induction false} DatePatternFields(s: string)
    ensures MatchesDatePattern(s) <==>
      |s| == 10 && AllDigits(s[..4]) && s[4] == '-' && AllDigits(s[5..7]) && s[7] == '-' && AllDigits(s[8..])
  {
    if |s| == 10 {
      var year, month, day := s[..4], s[5..7], s[8..];
      if MatchesDatePattern(s) {
        forall i | 0 <= i < 4 ensures IsDigit(year[i]) {
          assert year[i] == s[i];
        }
        forall i | 0 <= i < 2 ensures IsDigit(month[i]) && IsDigit(day[i]) {
          assert month[i] == s[i + 5] && day[i] == s[i + 8];
        }
      }
      if AllDigits(year) && AllDigits(month) && AllDigits(day) {
        forall i | 0 <= i < 10 && i != 4 && i != 7 ensures IsDigit(s[i]) {
          if i < 4 {
            assert s[i] == year[i];
          } else if i < 7 {
            assert s[i] == month[i - 5];
          } else {
            assert s[i] == day[i - 8];
          }
        }
      }
    }
  }

  /** A date that passes the pattern is not blank, carries no padding, and
      holds no comma and no line break, so it survives a CSV row intact. */
  lemma {:induction false} DatePatternIsSafeField(s: string)
    requires MatchesDatePattern(s)
    ensures !IsBlank(s) && IsTrimmed(s)
    ensures ',' !in s && '\n' !in s && '\r' !in s
  {
    assert IsDigit(s[0]) && IsDigit(s[9]);
    forall k | 0 <= k < |s| ensures s[k] != ',' && s[k] != '\n' && s[k] != '\r' {
      assert k == 4 || k == 7 || IsDigit(s[k]);
    }
  }

  /** The first failing check among "no blank field" and "date format", as
      the message to show; None when both pass. */
  function CheckFields(date: string, topic: string, duration: string): (r: Option<string>)
    ensures r == Some(FillAllFieldsMessage) <==> (IsBlank(date) || IsBlank(topic) || IsBlank(duration))
    ensures r == Some(DateFormatMessage) <==>
      (!IsBlank(date) && !IsBlank(topic) && !IsBlank(duration) && !MatchesDatePattern(date))
    ensures r == None <==>
      (!IsBlank(date) && !IsBlank(topic) && !IsBlank(duration) && MatchesDatePattern(date))
  {
    if IsBlank(date) || IsBlank(topic) || IsBlank(duration) then Some(FillAllFieldsMessage)
    else if !MatchesDatePattern(date) then Some(DateFormatMessage)
    else None
  }

  /** Kotlin's `String.toIntOrNull()` restricted to ASCII digits: an optional
      '+' or '-', then at least one digit, with a value inside the Int range.
      Nothing else (no padding, no other character) is accepted. */
  function ToIntOrNull(s: string): (r: Option<int>)
    ensures r.Some? ==> IntMin <= r.value <= IntMax
    ensures r.Some? ==> s != [] && AllDigits(s[1..]) && (IsDigit(s[0]) || s[0] == '+' || s[0] == '-')
    ensures r.Some? && r.value > 0 ==> s[0] != '-'
  {
    if |s| == 0 then None
    else if s[0] == '-' || s[0] == '+' then
      var digits := s[1..];
      if |digits| == 0 || !AllDigits(digits) then None
      else
        var v: int := if s[0] == '-' then -(DigitsValue(digits) as int) else DigitsValue(digits);
        if IntMin <= v <= IntMax then Some(v) else None
    else if AllDigits(s) then
      var v := DigitsValue(s);
      if v <= IntMax then Some(v) else None
    else None
  }

  /** A sign and a run of digits read as their value, or as nothing when
      the value lies outside Int. */
  lemma {:induction false} ToIntOrNullReadsNumeral(sign: string, d: string)
    requires sign == "" || sign == "+" || sign == "-"
    requires |d| >= 1 && AllDigits(d)
    ensures var v: int := if sign == "-" then -(DigitsValue(d) as int) else DigitsValue(d);
      ToIntOrNull(sign + d) == if IntMin <= v <= IntMax then Some(v) else None
  {
    var s := sign + d;
    if sign == "" {
      assert s == d && !(s[0] == '-' || s[0] == '+') by { assert IsDigit(d[0]); }
    } else {
      assert s[0] == sign[0] && s[1..] == d;
    }
  }

  /** An optional sign followed by at least one digit, and nothing else. */
  predicate IsNumeral(s: string) {
    || (|s| >= 1 && AllDigits(s))
    || (|s| >= 2 && (s[0] == '+' || s[0] == '-') && AllDigits(s[1..]))
  }

  /** Anything that is not a sign and digits reads as nothing: the empty
      string, a lone sign, padding, a decimal point, a letter. */
  lemma {:induction false} ToIntOrNullRejects(s: string)
    requires !IsNumeral(s)
    ensures ToIntOrNull(s) == None
  {
    if |s| >= 1 && !(s[0] == '-' || s[0] == '+') {
      assert !AllDigits(s);
    }
  }

  /** Kotlin's rendering of an Int in range reads back as that Int. */
  lemma {:induction false} ToIntOrNullReadsDecimal(n: nat)
    requires n <= IntMax
    ensures ToIntOrNull(DecimalString(n)) == Some(n)
  {
    var s := DecimalString(n);
    assert s[0] != '-' && s[0] != '+' by { assert IsDigit(s[0]); }
  }

  /** A sign before the digits is honoured, down to Int's minimum. */
  lemma {:induction false} ToIntOrNullReadsSigned(n: nat)
    requires n <= -IntMin
    ensures ToIntOrNull("-" + DecimalString(n)) == Some(-(n as int))
    ensures n <= IntMax ==> ToIntOrNull("+" + DecimalString(n)) == Some(n)
  {
    assert ("-" + DecimalString(n))[1..] == DecimalString(n);
    assert ("+" + DecimalString(n))[1..] == DecimalString(n);
  }

  /** The database form's checks in order: blank fields, date format, then a
      duration that must read as an Int greater than zero. On success, the
      duration in minutes. */
  function ValidateEntryForm(date: string, topic: string, duration: string): (r: Result<int, string>)
    ensures r.Success? <==>
      && CheckFields(date, topic, duration) == None
      && ToIntOrNull(duration).Some? && ToIntOrNull(duration).value > 0
    ensures r.Success? ==> r.value == ToIntOrNull(duration).value && 0 < r.value <= IntMax
    ensures r.Success? ==> MatchesDatePattern(date) && !IsBlank(topic)
    ensures CheckFields(date, topic, duration).Some? ==> r == Failure(CheckFields(date, topic, duration).value)
    ensures CheckFields(date, topic, duration) == None && r.Failure? ==> r.error == DurationMessage
  {
    match CheckFields(date, topic, duration)
    case Some(message) => Failure(message)
    case None =>
      var n := ToIntOrNull(duration);
      if n.None? || n.value <= 0 then Failure(DurationMessage) else Success(n.value)
  }

  /** A well-formed date, a non-blank topic and a positive Int rendered in
      decimal pass the database form's checks with that Int. */
  lemma {:induction false} ValidFormAccepted(date: string, topic: string, minutes: nat)
    requires MatchesDatePattern(date) && !IsBlank(topic)
    requires 0 < minutes <= IntMax
    ensures ValidateEntryForm(date, topic, DecimalString(minutes)) == Success(minutes)
  {
    DatePatternIsSafeField(date);
    var d := DecimalString(minutes);
    assert !IsBlank(d) by { assert IsDigit(d[0]); }
    ToIntOrNullReadsDecimal(minutes);
  }
}
