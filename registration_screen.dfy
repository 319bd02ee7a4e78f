/**
 * The registration screen: three text fields, a `loading` flag, and the submit handler that
 * validates the fields in a fixed order, writes a new user document and clears the form once
 * the store accepts it. The store's answer and the clock reading are parameters.
 */
module RegistrationScreen {
  import opened Wrappers
  import opened JsText
  import opened Gateway
  import opened Roster

  /** The outcome of the three checks, the first failing one winning. */
  datatype Verdict = Accepted | NameTooShort | InvalidEmail | BadPhone

  /**
   * The validation chain of `handleSubmit`: a name of at least three characters, then an `@`
   * somewhere in the email, then a phone of exactly ten characters that `isNaN` does not
   * reject.
   */
  function Validate(name: string, email: string, phone: string): (v: Verdict)
    ensures v == NameTooShort <==> |name| < 3
    ensures v == InvalidEmail <==> |name| >= 3 && '@' !in email
    ensures v == BadPhone <==> |name| >= 3 && '@' in email && (|phone| != 10 || !ParsesAsNumber(phone))
    ensures v == Accepted <==> |name| >= 3 && '@' in email && |phone| == 10 && ParsesAsNumber(phone)
  {
    IncludesChar(email, '@');
    if |name| < 3 then NameTooShort
    else if !Includes(email, "@") then InvalidEmail
    else if |phone| != 10 || !ParsesAsNumber(phone) then BadPhone
    else Accepted
  }

  /** A name, an email with an `@` and ten decimal digits always pass. */
  lemma DigitPhoneIsAccepted(name: string, email: string, phone: string)
    requires |name| >= 3 && '@' in email && |phone| == 10 && DecimalDigits(phone)
    ensures Validate(name, email, phone) == Accepted
  {
    DigitsParseAsNumber(phone);
  }

  /**
   * `isNaN` is not a digits-only test: nine digits after a sign pass the phone check,
   * although the phone is not ten digits.
   */
  lemma SignedPhoneIsAccepted(name: string, email: string, sign: char, digits: string)
    requires |name| >= 3 && '@' in email
    requires (sign == '+' || sign == '-') && |digits| == 9 && DecimalDigits(digits)
    ensures Validate(name, email, [sign] + digits) == Accepted
    ensures !DecimalDigits([sign] + digits)
  {
    SignedDigits(sign, digits);
    assert ([sign] + digits)[0] == sign;
  }

  /** Digits with a decimal point in between pass too. */
  lemma PointedPhoneIsAccepted(name: string, email: string, whole: string, fraction: string)
    requires |name| >= 3 && '@' in email
    requires DecimalDigits(whole) && DecimalDigits(fraction) && |whole| + |fraction| == 9
    ensures Validate(name, email, whole + "." + fraction) == Accepted
    ensures !DecimalDigits(whole + "." + fraction)
  {
    PointedDigits(whole, fraction);
    assert (whole + "." + fraction)[|whole|] == '.';
  }

  /** And so do digits after white space, which `Number` strips. */
  lemma PaddedPhoneIsAccepted(name: string, email: string, pad: char, digits: string)
    requires |name| >= 3 && '@' in email
    requires IsJsSpace(pad) && |digits| == 9 && DecimalDigits(digits)
    ensures Validate(name, email, [pad] + digits) == Accepted
    ensures !DecimalDigits([pad] + digits)
  {
    PaddedDigits(pad, digits);
    assert ([pad] + digits)[0] == pad;
  }

  /** A hexadecimal literal passes: `0x` and eight hexadecimal digits. */
  lemma HexPhoneIsAccepted(name: string, email: string, hex: string)
    requires |name| >= 3 && '@' in email
    requires |hex| == 8 && forall i :: 0 <= i < |hex| ==> IsHexDigit(hex[i])
    ensures Validate(name, email, "0x" + hex) == Accepted
    ensures !DecimalDigits("0x" + hex)
  {
    HexDigits(hex);
    assert ("0x" + hex)[1] == 'x';
  }

  lemma HexDigits(hex: string)
    requires |hex| > 0 && forall i :: 0 <= i < |hex| ==> IsHexDigit(hex[i])
    ensures ParsesAsNumber("0x" + hex)
  {
    HexLiteral(hex);
    HexEnds(hex);
    TrimmedParse("0x" + hex);
  }

  lemma HexLiteral(hex: string)
    requires |hex| > 0 && forall i :: 0 <= i < |hex| ==> IsHexDigit(hex[i])
    ensures NonDecimalIntegerLiteral("0x" + hex)
  {
    var s := "0x" + hex;
    assert s[0] == '0' && s[1] == 'x';
    assert forall i :: 2 <= i < |s| ==> s[i] == hex[i - 2];
  }

  lemma HexEnds(hex: string)
    requires |hex| > 0 && IsHexDigit(hex[|hex| - 1])
    ensures Trim("0x" + hex) == "0x" + hex
  {
    var s := "0x" + hex;
    assert s[0] == '0' && s[|s| - 1] == hex[|hex| - 1];
    TrimEnds(s);
  }

  /** Ten spaces pass as well: once trimmed they are empty, which converts to 0. */
  lemma BlankPhoneIsAccepted(name: string, email: string, phone: string)
    requires |name| >= 3 && '@' in email
    requires |phone| == 10 && AllSpace(phone)
    ensures Validate(name, email, phone) == Accepted
  {
    BlankIffAllSpace(phone);
  }

  /** Ten characters that are digits around a dash are refused. */
  lemma DashedPhoneIsRefused(before: string, after: string)
    requires DecimalDigits(before) && DecimalDigits(after)
    ensures !ParsesAsNumber(before + "-" + after)
  {
    var s := before + "-" + after;
    DashedHasNo(before, after, '.');
    DashedHasNo(before, after, 'e');
    DashedHasNo(before, after, 'E');
    assert !DecimalDigits(s) by { assert s[|before|] == '-'; }
    assert IsDecimalDigit(s[0]) && (s[1] == '-' || IsDecimalDigit(s[1]));
    NotANumber(s);
    DashedEnds(before, after);
    TrimmedParse(s);
  }

  lemma DashedEnds(before: string, after: string)
    requires DecimalDigits(before) && DecimalDigits(after)
    ensures Trim(before + "-" + after) == before + "-" + after
  {
    var s := before + "-" + after;
    assert s[0] == before[0] && s[|s| - 1] == after[|after| - 1];
    assert IsDecimalDigit(s[0]) && IsDecimalDigit(s[|s| - 1]);
    TrimEnds(s);
  }

  /**
   * A string with no point and no exponent marker, that starts with a digit not followed by
   * a radix letter, is a numeric literal only if it is all digits.
   */
  lemma NotANumber(s: string)
    requires '.' !in s && 'e' !in s && 'E' !in s
    requires |s| >= 2 && IsDecimalDigit(s[0]) && (s[1] == '-' || IsDecimalDigit(s[1]))
    requires !DecimalDigits(s)
    ensures !StrDecimalLiteral(s) && !NonDecimalIntegerLiteral(s)
  {
    NotUnsignedLiteral(s);
  }

  lemma NotUnsignedLiteral(s: string)
    requires '.' !in s && 'e' !in s && 'E' !in s && |s| > 0 && IsDecimalDigit(s[0])
    requires !DecimalDigits(s)
    ensures !StrUnsignedDecimalLiteral(s)
  {
    NoSeparators(s);
    assert s[..|s|] == s;
    assert s != "Infinity" by { assert "Infinity"[0] == 'I'; }
  }

  lemma DashedHasNo(before: string, after: string, c: char)
    requires DecimalDigits(before) && DecimalDigits(after)
    requires c != '-' && !IsDecimalDigit(c)
    ensures c !in before + "-" + after
  {
    assert c !in before;
    assert c !in after;
  }

  /** Without a point or an exponent marker, the whole string is the mantissa. */
  lemma NoSeparators(s: string)
    requires '.' !in s && 'e' !in s && 'E' !in s
    ensures IndexOf(s, '.') == |s| && IndexOf(s, 'e') == |s| && IndexOf(s, 'E') == |s|
  {
    IndexOfAbsent(s, '.');
    IndexOfAbsent(s, 'e');
    IndexOfAbsent(s, 'E');
  }

  lemma SignedDigits(sign: char, d: string)
    requires sign == '+' || sign == '-'
    requires DecimalDigits(d)
    ensures ParsesAsNumber([sign] + d)
  {
    var s := [sign] + d;
    assert s[0] == sign && IsDecimalDigit(s[|s| - 1]);
    TrimEnds(s);
    TrimmedParse(s);
    assert s[1..] == d;
    DigitsAreDecimalLiteral(d);
  }

  lemma PointedDigits(whole: string, fraction: string)
    requires DecimalDigits(whole) && DecimalDigits(fraction)
    ensures ParsesAsNumber(whole + "." + fraction)
  {
    var s := whole + "." + fraction;
    PointedHasNo(whole, fraction, 'e');
    PointedHasNo(whole, fraction, 'E');
    PointMantissa(whole, fraction);
    MantissaLiteral(s);
    PointedEnds(whole, fraction);
    LiteralParses(s);
  }

  lemma PointedEnds(whole: string, fraction: string)
    requires DecimalDigits(whole) && DecimalDigits(fraction)
    ensures Trim(whole + "." + fraction) == whole + "." + fraction
  {
    var s := whole + "." + fraction;
    assert s[0] == whole[0] && s[|s| - 1] == fraction[|fraction| - 1];
    assert IsDecimalDigit(s[0]) && IsDecimalDigit(s[|s| - 1]);
    TrimEnds(s);
  }

  lemma PointedHasNo(whole: string, fraction: string, c: char)
    requires DecimalDigits(whole) && DecimalDigits(fraction)
    requires c != '.' && !IsDecimalDigit(c)
    ensures c !in whole + "." + fraction
  {
    assert c !in whole;
    assert c !in fraction;
  }

  lemma PointMantissa(whole: string, fraction: string)
    requires DecimalDigits(whole) && DecimalDigits(fraction)
    ensures Mantissa(whole + "." + fraction)
  {
    var s := whole + "." + fraction;
    IndexOfAbsent(whole, '.');
    IndexOfAfter(whole, "." + fraction, '.');
    assert s == whole + ("." + fraction);
    assert s[..|whole|] == whole && s[|whole| + 1..] == fraction;
  }

  /** A mantissa with no exponent marker is a StrUnsignedDecimalLiteral. */
  lemma MantissaLiteral(s: string)
    requires Mantissa(s) && 'e' !in s && 'E' !in s
    ensures StrUnsignedDecimalLiteral(s)
  {
    IndexOfAbsent(s, 'e');
    IndexOfAbsent(s, 'E');
    assert s[..|s|] == s;
  }

  /** An untrimmed StrUnsignedDecimalLiteral converts to a number. */
  lemma LiteralParses(s: string)
    requires Trim(s) == s && StrUnsignedDecimalLiteral(s)
    ensures ParsesAsNumber(s)
  {
    assert StrDecimalLiteral(s);
  }

  lemma PaddedDigits(pad: char, d: string)
    requires IsJsSpace(pad)
    requires DecimalDigits(d)
    ensures ParsesAsNumber([pad] + d)
  {
    PaddedTrim(pad, d);
    DigitsParseAsNumber(d);
  }

  lemma PaddedTrim(pad: char, d: string)
    requires IsJsSpace(pad)
    requires DecimalDigits(d)
    ensures Trim([pad] + d) == Trim(d) == d
  {
    var s := [pad] + d;
    assert LeadingSpace(s) == 1 by {
      assert s[1..] == d;
      assert LeadingSpace(d) == 0;
    }
    assert TrimStart(s) == d;
    DigitsTrim(d);
  }

  lemma IndexOfAfter(a: string, b: string, c: char)
    requires c !in a
    ensures IndexOf(a + b, c) == |a| + IndexOf(b, c)
    decreases |a|
  {
    if |a| > 0 {
      assert (a + b)[1..] == a[1..] + b;
      IndexOfAfter(a[1..], b, c);
    } else {
      assert a + b == b;
    }
  }

  /** The form's three fields. */
  datatype Form = Form(name: string, email: string, phone: string)

  /** The document `addDoc` writes: the three fields as entered and the clock reading. */
  datatype NewUser = NewUser(name: string, email: string, phone: string, timestamp: Timestamp)

  /** The alerts `handleSubmit` raises. */
  datatype Alert = ValidationError(reason: Verdict) | Registered | SomethingWentWrong

  /** What `handleSubmit` leaves behind: the form, the alert shown and the document written. */
  datatype Submitted = Submitted(form: Form, alert: Alert, record: Option<NewUser>)

  /**
   * `handleSubmit`: stop at the first failed check; otherwise write the entered fields with
   * the clock reading and clear the form only if the store accepts the write.
   */
  function Submit(f: Form, outcome: Outcome, now: Timestamp): (r: Submitted)
    ensures r.record.Some? <==> Validate(f.name, f.email, f.phone) == Accepted
  {
    var v := Validate(f.name, f.email, f.phone);
    if v != Accepted then Submitted(f, ValidationError(v), None)
    else
      var record := Some(NewUser(f.name, f.email, f.phone, now));
      if outcome.Success? then Submitted(Form("", "", ""), Registered, record)
      else Submitted(f, SomethingWentWrong, record)
  }

  /** A failed check writes nothing, keeps every field and names the first failure. */
  lemma RejectedChangesNothing(f: Form, outcome: Outcome, now: Timestamp)
    requires Validate(f.name, f.email, f.phone) != Accepted
    ensures Submit(f, outcome, now) == Submitted(f, ValidationError(Validate(f.name, f.email, f.phone)), None)
  {
  }

  /** The checks run in order: a short name is reported whatever the email and phone are. */
  lemma NameCheckComesFirst(f: Form, outcome: Outcome, now: Timestamp)
    requires |f.name| < 3
    ensures Submit(f, outcome, now).alert == ValidationError(NameTooShort)
  {
  }

  /** A phone whose length is not ten is refused, whatever its characters. */
  lemma WrongLengthPhoneIsRefused(f: Form, outcome: Outcome, now: Timestamp)
    requires |f.name| >= 3 && '@' in f.email && |f.phone| != 10
    ensures Submit(f, outcome, now).alert == ValidationError(BadPhone)
    ensures Submit(f, outcome, now).record == None
  {
  }

  /**
   * An accepted form writes exactly the entered fields; the fields are cleared when the store
   * accepts the write and kept for another try when it does not.
   */
  lemma AcceptedWritesEnteredFields(f: Form, outcome: Outcome, now: Timestamp)
    requires Validate(f.name, f.email, f.phone) == Accepted
    ensures var r := Submit(f, outcome, now);
      && r.record == Some(NewUser(f.name, f.email, f.phone, now))
      && (outcome.Success? ==> r.form == Form("", "", "") && r.alert == Registered)
      && (outcome.Failure? ==> r.form == f && r.alert == SomethingWentWrong)
  {
  }

  class Registration {
    var name: string
    var email: string
    var phone: string
    var loading: bool

    /** The initial state of the four `useState` hooks. */
    constructor ()
      ensures name == "" && email == "" && phone == "" && !loading
    {
      name, email, phone := "", "", "";
      loading := false;
    }

    function Fields(): Form
      reads this
    {
      Form(name, email, phone)
    }

    /**
     * The synchronous part of `handleSubmit`, up to the `addDoc` call: run the checks, and if
     * they pass raise `loading` and produce the document to write.
     */
    method BeginSubmit(now: Timestamp) returns (verdict: Verdict, record: Option<NewUser>)
      requires !loading
      modifies this`loading
      ensures verdict == Validate(name, email, phone)
      ensures record.Some? <==> verdict == Accepted
      ensures record.Some? ==> record.value == NewUser(name, email, phone, now)
      ensures loading <==> record.Some?
    {
      if |name| < 3 {
        return NameTooShort, None;
      }
      if !Includes(email, "@") {
        IncludesChar(email, '@');
        return InvalidEmail, None;
      }
      if |phone| != 10 || !ParsesAsNumber(phone) {
        IncludesChar(email, '@');
        return BadPhone, None;
      }
      IncludesChar(email, '@');
      loading := true;
      verdict, record := Accepted, Some(NewUser(name, email, phone, now));
    }

    /**
     * The part of `handleSubmit` after the store answers: clear the fields on success, keep
     * them on failure, and lower `loading` either way.
     */
    method CompleteSubmit(outcome: Outcome) returns (alert: Alert)
      requires loading
      modifies this`name, this`email, this`phone, this`loading
      ensures !loading
      ensures outcome.Success? ==> Fields() == Form("", "", "") && alert == Registered
      ensures outcome.Failure? ==> Fields() == old(Fields()) && alert == SomethingWentWrong
    {
      if outcome.Success? {
        alert := Registered;
        name, email, phone := "", "", "";
      } else {
        alert := SomethingWentWrong;
      }
      loading := false;
    }

    /**
     * A press of the Submit button, which is disabled while `loading`; the handler ends with
     * `loading` lowered and the form and alert `Submit` describes.
     */
    method HandleSubmit(outcome: Outcome, now: Timestamp) returns (alert: Alert, record: Option<NewUser>)
      requires !loading
      modifies this`name, this`email, this`phone, this`loading
      ensures !loading
      ensures Submitted(Fields(), alert, record) == Submit(old(Fields()), outcome, now)
    {
      var verdict;
      verdict, record := BeginSubmit(now);
      if record.None? {
        alert := ValidationError(verdict);
      } else {
        alert := CompleteSubmit(outcome);
      }
    }
  }
}
