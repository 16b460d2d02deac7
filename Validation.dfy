/**
 * The application form's field validators. Each returns `None` ("no error",
 * `null` in the app) or the error for its field, checking in a fixed order:
 * presence, then the character class, then the length.
 */
module Validation {
  import opened Types
  import opened Strings
  import opened Lists

  /** `s` has a character that is not whitespace, so `s.trim()` is not empty. */
  predicate HasVisibleChar(s: string)
  {
    exists k :: 0 <= k < |s| && !IsWhitespace(s[k])
  }

  /** A validator that found no error. */
  const NoError: Option<ValidationError> := None

  /** `validateRequired`: a field must not be empty or whitespace-only. */
  function ValidateRequired(value: string, fieldName: string): (r: Option<ValidationError>)
    ensures r == NoError <==> HasVisibleChar(value)
    ensures r != NoError ==> r == Some(ValidationError(fieldName, fieldName + " is required"))
  {
    if Blank(value) then Some(ValidationError(fieldName, fieldName + " is required")) else NoError
  }

  // ----- email -----

  /** The regular expression class `[^\s@]`. */
  predicate EmailChar(c: char)
  {
    !IsWhitespace(c) && c != '@'
  }

  /** `s` matches `[^\s@]+`. */
  predicate EmailRun(s: string)
  {
    |s| >= 1 && forall k :: 0 <= k < |s| ==> EmailChar(s[k])
  }

  /**
   * `s` matches `^[^\s@]+@[^\s@]+\.[^\s@]+$`: it splits at an '@' (index `i`)
   * and a later '.' (index `j`) into three non-empty runs of `[^\s@]`.
   */
  predicate MatchesEmailPattern(s: string)
  {
    exists i, j | 0 <= i < j < |s| ::
      s[i] == '@' && s[j] == '.' && EmailRun(s[..i]) && EmailRun(s[i + 1..j]) && EmailRun(s[j + 1..])
  }

  const EmailField := "email"
  const EmailRequired := ValidationError(EmailField, "Email is required")
  const EmailInvalid := ValidationError(EmailField, "Please enter a valid email address")

  /** `validateEmail`: a blank address is missing; otherwise the whole, untrimmed string must match the pattern. */
  function ValidateEmail(email: string): (r: Option<ValidationError>)
    ensures !HasVisibleChar(email) ==> r == Some(EmailRequired)
    ensures HasVisibleChar(email) && !MatchesEmailPattern(email) ==> r == Some(EmailInvalid)
    ensures r == NoError <==> MatchesEmailPattern(email)
    ensures r != NoError ==> r.value.field == EmailField
  {
    if Blank(email) then Some(EmailRequired)
    else if !MatchesEmailPattern(email) then Some(EmailInvalid)
    else NoError
  }

  /** `s` contains no whitespace at all. */
  predicate NoWhitespace(s: string)
  {
    forall k :: 0 <= k < |s| ==> !IsWhitespace(s[k])
  }

  /** `d` has a '.' that is neither its first nor its last character. */
  predicate HasInnerDot(d: string)
  {
    exists j :: 0 < j < |d| - 1 && d[j] == '.'
  }

  /**
   * An address in plain terms: no whitespace, exactly one '@' (at `i`), with
   * something before it, and a '.' inside the part after it.
   */
  predicate WellFormedAddress(s: string)
  {
    NoWhitespace(s)
    && exists i :: 0 < i < |s| && s[i] == '@'
                   && (forall k :: 0 <= k < |s| && k != i ==> s[k] != '@')
                   && HasInnerDot(s[i + 1..])
  }

  /** The email validator accepts exactly the well-formed addresses. */
  lemma EmailAcceptedIffWellFormed(s: string)
    ensures ValidateEmail(s) == NoError <==> WellFormedAddress(s)
  {
    if MatchesEmailPattern(s) {
      var i, j :| 0 <= i < j < |s| && s[i] == '@' && s[j] == '.'
        && EmailRun(s[..i]) && EmailRun(s[i + 1..j]) && EmailRun(s[j + 1..]);
      PatternParts(s, i, j);
    }
    if WellFormedAddress(s) {
      var i :| 0 < i < |s| && s[i] == '@'
        && (forall k :: 0 <= k < |s| && k != i ==> s[k] != '@')
        && HasInnerDot(s[i + 1..]);
      var d := s[i + 1..];
      var j :| 0 < j < |d| - 1 && d[j] == '.';
      AddressParts(s, i, i + 1 + j);
    }
  }

  /** A match of the pattern at `i` and `j` is a well-formed address. */
  lemma PatternParts(s: string, i: int, j: int)
    requires 0 <= i < j < |s| && s[i] == '@' && s[j] == '.'
    requires EmailRun(s[..i]) && EmailRun(s[i + 1..j]) && EmailRun(s[j + 1..])
    ensures WellFormedAddress(s)
  {
    forall k | 0 <= k < |s| && k != i ensures EmailChar(s[k]) || k == j {
      if k < i { assert s[k] == s[..i][k]; }
      else if i < k < j { assert s[k] == s[i + 1..j][k - i - 1]; }
      else if j < k { assert s[k] == s[j + 1..][k - j - 1]; }
    }
    var d := s[i + 1..];
    assert d[j - i - 1] == '.';
    assert HasInnerDot(d);
  }

  /** A well-formed address, split at its '@' (`i`) and an inner '.' (`j`), matches the pattern. */
  lemma AddressParts(s: string, i: int, j: int)
    requires 0 < i && i + 1 < j < |s| - 1 && s[i] == '@' && s[j] == '.'
    requires NoWhitespace(s) && forall k :: 0 <= k < |s| && k != i ==> s[k] != '@'
    ensures MatchesEmailPattern(s)
  {
    assert EmailRun(s[..i]) by {
      forall k | 0 <= k < i ensures EmailChar(s[..i][k]) { assert s[..i][k] == s[k]; }
    }
    var domain, tld := s[i + 1..j], s[j + 1..];
    assert EmailRun(domain) by {
      forall k | 0 <= k < |domain| ensures EmailChar(domain[k]) { assert domain[k] == s[i + 1 + k]; }
    }
    assert EmailRun(tld) by {
      forall k | 0 <= k < |tld| ensures EmailChar(tld[k]) { assert tld[k] == s[j + 1 + k]; }
    }
  }

  /** An address needs a dot in its domain: "a@b" is rejected. */
  lemma EmailWithoutDomainExample()
    ensures ValidateEmail("a@b") == Some(EmailInvalid)
  {
    var bad := "a@b";
    assert forall j :: 0 <= j < |bad| ==> bad[j] != '.';
    assert !MatchesEmailPattern(bad);
    assert !IsWhitespace(bad[0]);
  }

  lemma EmailWithDomainExample()
    ensures ValidateEmail("a@b.com") == NoError
  {
    AddressParts("a@b.com", 1, 3);
  }

  lemma BlankEmailExample()
    ensures ValidateEmail(" \t") == Some(EmailRequired)
  {
    assert !HasVisibleChar(" \t");
  }

  // ----- contact number -----

  /** `s` matches `^\d+$`. */
  predicate AllDigits(s: string)
  {
    |s| >= 1 && forall k :: 0 <= k < |s| ==> IsDigit(s[k])
  }

  const ContactField := "contactNumber"
  const ContactRequired := ValidationError(ContactField, "Contact number is required")
  const ContactNotDigits := ValidationError(ContactField, "Contact number must contain only digits")
  const ContactBadLength := ValidationError(ContactField, "Contact number must be between 10 and 15 digits")

  /** `validateContactNumber`: present, then digits only, then 10 to 15 of them. */
  function ValidateContactNumber(contactNumber: string): (r: Option<ValidationError>)
    ensures !HasVisibleChar(contactNumber) ==> r == Some(ContactRequired)
    ensures (HasVisibleChar(contactNumber) && exists k :: 0 <= k < |contactNumber| && !IsDigit(contactNumber[k]))
      ==> r == Some(ContactNotDigits)
    ensures AllDigits(contactNumber) && (|contactNumber| < 10 || |contactNumber| > 15) ==> r == Some(ContactBadLength)
    ensures r == NoError <==> 10 <= |contactNumber| <= 15 && forall k :: 0 <= k < |contactNumber| ==> IsDigit(contactNumber[k])
    ensures r != NoError ==> r.value.field == ContactField
  {
    if Blank(contactNumber) then Some(ContactRequired)
    else if !AllDigits(contactNumber) then Some(ContactNotDigits)
    else if |contactNumber| < 10 || |contactNumber| > 15 then Some(ContactBadLength)
    else NoError
  }

  /** The contact-number examples: five digits are too few, eleven are accepted, a space is not a digit. */
  lemma ShortContactExample()
    ensures ValidateContactNumber("12345") == Some(ContactBadLength)
  {
    var s := "12345";
    assert AllDigits(s) by { forall k | 0 <= k < |s| ensures IsDigit(s[k]) { } }
  }

  lemma ElevenDigitContactExample()
    ensures ValidateContactNumber("09171234567") == NoError
  {
    var s := "09171234567";
    assert |s| == 11;
    forall k | 0 <= k < |s| ensures IsDigit(s[k]) { }
  }

  lemma SpacedContactExample()
    ensures ValidateContactNumber("0917 123 4567") == Some(ContactNotDigits)
  {
    var s := "0917 123 4567";
    assert !IsDigit(s[4]);
    assert !IsWhitespace(s[0]);
  }

  // ----- minimum length -----

  /** `validateMinLength`: present, then at least `minLength` characters once trimmed. */
  function ValidateMinLength(value: string, fieldName: string, minLength: int): (r: Option<ValidationError>)
    ensures !HasVisibleChar(value) ==> r == Some(ValidationError(fieldName, fieldName + " is required"))
    ensures HasVisibleChar(value) && |Trim(value)| < minLength ==>
              r == Some(ValidationError(fieldName, fieldName + " must be at least " + DecimalText(minLength as nat) + " characters"))
    ensures r == NoError <==> HasVisibleChar(value) && |Trim(value)| >= minLength
    ensures r != NoError ==> r.value.field == fieldName
  {
    if Blank(value) then Some(ValidationError(fieldName, fieldName + " is required"))
    else if |Trim(value)| < minLength then
      Some(ValidationError(fieldName, fieldName + " must be at least " + DecimalText(minLength as nat) + " characters"))
    else NoError
  }

  // ----- the whole form -----

  const NameField := "Name"
  const WhyField := "Why should we hire you"
  const WhyMinLength := 20

  /** The form's fields in the order they are checked, under the names their errors carry. */
  const FormFields: seq<string> := [NameField, EmailField, ContactField, WhyField]

  /** The four field checks of the form, in order. */
  function FormChecks(name: string, email: string, contactNumber: string, whyHireYou: string): seq<Option<ValidationError>>
  {
    [ValidateRequired(name, NameField)] + [ValidateEmail(email)] + [ValidateContactNumber(contactNumber)]
    + [ValidateMinLength(whyHireYou, WhyField, WhyMinLength)]
  }

  /** The errors present in a list of check results, in order. */
  function Present(checks: seq<Option<ValidationError>>): (errors: seq<ValidationError>)
    ensures |errors| <= |checks|
  {
    if checks == [] then []
    else
      var rest := Present(checks[1..]);
      match checks[0]
      case Some(e) => [e] + rest
      case None => rest
  }

  /** The error a check result carries, as a list of zero or one. */
  function AsList(check: Option<ValidationError>): seq<ValidationError>
  {
    if check.Some? then [check.value] else []
  }

  /** Collecting four check results is pushing each present error in turn. */
  lemma PresentOfFour(a: Option<ValidationError>, b: Option<ValidationError>, c: Option<ValidationError>, d: Option<ValidationError>)
    ensures Present([a] + [b] + [c] + [d]) == AsList(a) + AsList(b) + AsList(c) + AsList(d)
  {
    PresentSingle(a);
    PresentSnoc([a], b);
    PresentSnoc([a] + [b], c);
    PresentSnoc([a] + [b] + [c], d);
  }

  /** A single check result contributes its error, if any. */
  lemma PresentSingle(check: Option<ValidationError>)
    ensures Present([check]) == AsList(check)
  {
    assert [check][1..] == [];
  }

  /** Collecting one more check result appends its error, if any. */
  lemma {:induction false} PresentSnoc(checks: seq<Option<ValidationError>>, check: Option<ValidationError>)
    ensures Present(checks + [check]) == Present(checks) + AsList(check)
  {
    if checks == [] {
      assert [] + [check] == [check];
      PresentSingle(check);
    } else {
      assert (checks + [check])[1..] == checks[1..] + [check];
      PresentSnoc(checks[1..], check);
    }
  }

  /** No error is collected exactly when every check passed. */
  lemma {:induction false} PresentEmpty(checks: seq<Option<ValidationError>>)
    ensures Present(checks) == [] <==> forall k :: 0 <= k < |checks| ==> checks[k] == NoError
  {
    if checks != [] {
      PresentEmpty(checks[1..]);
      assert forall k :: 1 <= k < |checks| ==> checks[k] == checks[1..][k - 1];
    }
  }

  /** An error is collected exactly when some check produced it. */
  lemma {:induction false} PresentMembers(checks: seq<Option<ValidationError>>, e: ValidationError)
    ensures e in Present(checks) <==> Some(e) in checks
  {
    if checks != [] {
      PresentMembers(checks[1..], e);
      assert checks == [checks[0]] + checks[1..];
    }
  }

  /** The field names of a list of errors. */
  function Fields(errors: seq<ValidationError>): seq<string>
  {
    seq(|errors|, k requires 0 <= k < |errors| => errors[k].field)
  }

  /** Each check result either is absent or carries the field name at the same position. */
  predicate ChecksName(checks: seq<Option<ValidationError>>, fields: seq<string>)
  {
    |checks| == |fields| && forall k :: 0 <= k < |checks| && checks[k].Some? ==> checks[k].value.field == fields[k]
  }

  /** The errors of checks that name their fields come in field order, at most one per field. */
  lemma {:induction false} PresentFieldsInOrder(checks: seq<Option<ValidationError>>, fields: seq<string>)
    requires ChecksName(checks, fields)
    ensures IsSubsequence(Fields(Present(checks)), fields)
  {
    if checks != [] {
      var rest := Present(checks[1..]);
      assert ChecksName(checks[1..], fields[1..]);
      PresentFieldsInOrder(checks[1..], fields[1..]);
      if checks[0].Some? {
        assert Fields(Present(checks)) == [fields[0]] + Fields(rest);
        assert ([fields[0]] + Fields(rest))[1..] == Fields(rest);
      } else {
        SubsequenceOfCons(Fields(rest), fields[0], fields[1..]);
        assert [fields[0]] + fields[1..] == fields;
      }
    }
  }

  /** Errors collected from four checks that name the form's fields: at most four, in field order, none exactly when all pass. */
  lemma FormErrors(a: Option<ValidationError>, b: Option<ValidationError>, c: Option<ValidationError>, d: Option<ValidationError>)
    requires a.Some? ==> a.value.field == NameField
    requires b.Some? ==> b.value.field == EmailField
    requires c.Some? ==> c.value.field == ContactField
    requires d.Some? ==> d.value.field == WhyField
    ensures |Present([a] + [b] + [c] + [d])| <= 4
    ensures IsSubsequence(Fields(Present([a] + [b] + [c] + [d])), FormFields)
    ensures Present([a] + [b] + [c] + [d]) == [] <==> a == NoError && b == NoError && c == NoError && d == NoError
  {
    var checks := [a] + [b] + [c] + [d];
    forall k | 0 <= k < |checks| && checks[k].Some? ensures checks[k].value.field == FormFields[k] {
      if k == 0 { assert checks[k] == a; }
      else if k == 1 { assert checks[k] == b; }
      else if k == 2 { assert checks[k] == c; }
      else { assert checks[k] == d; }
    }
    PresentFieldsInOrder(checks, FormFields);
    PresentEmpty(checks);
    assert checks[0] == a && checks[1] == b && checks[2] == c && checks[3] == d;
  }

  /** `if (error) errors.push(error)`: appends the error a check found, if any. */
  method PushIfError(errors: seq<ValidationError>, check: Option<ValidationError>) returns (pushed: seq<ValidationError>)
    ensures pushed == errors + AsList(check)
    ensures |pushed| == |errors| + (if check.Some? then 1 else 0)
  {
    pushed := errors;
    if check.Some? {
      pushed := pushed + [check.value];
    }
  }

  /**
   * `validateApplicationForm`: runs the four field checks in order and pushes
   * each error found. At most four errors, at most one per field, in the
   * order Name, email, contactNumber, "Why should we hire you"; none exactly
   * when every field is valid.
   */
  method ValidateApplicationForm(name: string, email: string, contactNumber: string, whyHireYou: string)
    returns (errors: seq<ValidationError>)
    ensures errors == Present(FormChecks(name, email, contactNumber, whyHireYou))
    ensures |errors| <= 4
    ensures IsSubsequence(Fields(errors), FormFields)
    ensures errors == [] <==> ValidateRequired(name, NameField) == NoError && ValidateEmail(email) == NoError
                              && ValidateContactNumber(contactNumber) == NoError
                              && ValidateMinLength(whyHireYou, WhyField, WhyMinLength) == NoError
  {
    var nameError := ValidateRequired(name, NameField);
    var emailError := ValidateEmail(email);
    var contactError := ValidateContactNumber(contactNumber);
    var whyError := ValidateMinLength(whyHireYou, WhyField, WhyMinLength);
    errors := [];
    errors := PushIfError(errors, nameError);
    errors := PushIfError(errors, emailError);
    errors := PushIfError(errors, contactError);
    errors := PushIfError(errors, whyError);
    assert [] + AsList(nameError) == AsList(nameError);
    PresentOfFour(nameError, emailError, contactError, whyError);
    FormErrors(nameError, emailError, contactError, whyError);
  }
}
