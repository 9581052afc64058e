/**
 * The add-student form: its draft, the shape an email address must have, and
 * the per-field validation `handleAddStudent` performs before appending.
 */
module AddForm {
  import opened Text
  import opened Students

  /** The fields that can carry a validation message. */
  datatype Field = Name | Email | Grade

  /** The form's `newStudent` state: a record without an id. */
  datatype Draft = Draft(name: string, email: string, course: string, grade: string)

  /** The draft the form starts from and is reset to after a successful add. */
  const EmptyDraft: Draft := Draft("", "", "Computer Science", "")

  const NameRequired: string := "Name is required"
  const EmailRequired: string := "Email is required"
  const InvalidEmail: string := "Invalid email format"
  const GradeRequired: string := "Grade is required"

  /** The record a valid draft becomes: the draft's fields plus the given id. */
  function WithId(d: Draft, id: int): Student {
    Student(id, d.name, d.email, d.course, d.grade)
  }

  /** The default draft and every seed record carry a course the add form's
      selector offers, that is, one of the options after 'All Courses'. */
  lemma CoursesOffered()
    ensures EmptyDraft.course in Courses[1..]
    ensures forall i | 0 <= i < |MockStudentData| :: MockStudentData[i].course in Courses[1..]
  {
  }

  // ---------------------------------------------------------------------------
  // Email shape

  /** A character of the class `[^\s@]`. */
  predicate IsAddressChar(c: char) {
    !IsSpace(c) && c != '@'
  }

  /** Every character of `s` is in `[^\s@]`. */
  predicate AllAddressChars(s: string) {
    forall k | 0 <= k < |s| :: IsAddressChar(s[k])
  }

  /** `s` matches `[^\s@]+`. */
  predicate IsRun(s: string) {
    s != [] && AllAddressChars(s)
  }

  /** The string `local@host.tld`. */
  function Address(local: string, host: string, tld: string): (s: string)
    ensures |s| == |local| + |host| + |tld| + 2
  {
    local + "@" + host + "." + tld
  }

  /** The language of the regular expression `^[^\s@]+@[^\s@]+\.[^\s@]+$`. */
  ghost predicate InEmailPattern(s: string) {
    exists local, host, tld :: IsRun(local) && IsRun(host) && IsRun(tld) && s == Address(local, host, tld)
  }

  /** The email check stated on positions: the text before the first `@` is a
      non-empty run without white space, an `@` follows it, and the rest is
      free of white space and `@` and has a `.` that is neither its first nor
      its last character. */
  predicate IsEmailShaped(s: string) {
    var local := TextBefore(s, '@');
    && |local| < |s|
    && IsRun(local)
    && var domain := s[|local| + 1..];
    && AllAddressChars(domain)
    && exists j | 0 < j < |domain| - 1 :: domain[j] == '.'
  }

  /** A run of address characters stays one when cut down to a slice. */
  lemma SliceAllAddressChars(s: string, i: int, j: int)
    requires 0 <= i <= j <= |s| && AllAddressChars(s)
    ensures AllAddressChars(s[i..j])
  {
    forall k | 0 <= k < j - i ensures IsAddressChar(s[i..j][k]) {
      assert s[i..j][k] == s[i + k];
    }
  }

  /** A string with `@` at `i` and `.` at `i + 1 + j` is the address built from its three pieces. */
  lemma SplitAddress(s: string, i: int, j: int)
    requires 0 <= i && 0 <= j && i + 1 + j < |s|
    requires s[i] == '@' && s[i + 1 + j] == '.'
    ensures s == Address(s[..i], s[i + 1..i + 1 + j], s[i + 2 + j..])
  {
    var a := Address(s[..i], s[i + 1..i + 1 + j], s[i + 2 + j..]);
    forall k | 0 <= k < |s| ensures s[k] == a[k] {
      if k < i {
      } else if k == i {
      } else if k < i + 1 + j {
      } else if k == i + 1 + j {
      } else {
      }
    }
  }

  /** Every string the positional check accepts matches the regular expression. */
  lemma EmailShapedMatches(s: string)
    requires IsEmailShaped(s)
    ensures InEmailPattern(s)
  {
    TextBeforeSpec(s, '@');
    var local := TextBefore(s, '@');
    var i := |local|;
    var domain := s[i + 1..];
    var j :| 0 < j < |domain| - 1 && domain[j] == '.';
    assert s[i + 1 + j] == domain[j];
    SliceAllAddressChars(domain, 0, j);
    SliceAllAddressChars(domain, j + 1, |domain|);
    assert domain[..j] == s[i + 1..i + 1 + j];
    assert domain[j + 1..] == s[i + 2 + j..];
    assert local == s[..i];
    SplitAddress(s, i, j);
    assert IsRun(s[..i]) && IsRun(s[i + 1..i + 1 + j]) && IsRun(s[i + 2 + j..]);
  }

  /** Every string the regular expression matches passes the positional check. */
  lemma MatchesEmailShaped(local: string, host: string, tld: string)
    requires IsRun(local) && IsRun(host) && IsRun(tld)
    ensures IsEmailShaped(Address(local, host, tld))
  {
    var s := Address(local, host, tld);
    assert '@' !in local by {
      forall k | 0 <= k < |local| ensures local[k] != '@' {
        assert IsAddressChar(local[k]);
      }
    }
    assert local <= s && s[|local|] == '@';
    TextBeforeUnique(s, '@', local);
    var domain := s[|local| + 1..];
    assert domain == host + "." + tld;
    assert domain[|host|] == '.';
    assert AllAddressChars(domain) by {
      forall k | 0 <= k < |domain| ensures IsAddressChar(domain[k]) {
        if k < |host| {
          assert domain[k] == host[k];
        } else if |host| < k {
          assert domain[k] == tld[k - |host| - 1];
        }
      }
    }
  }

  /** The positional check accepts exactly the strings the regular expression matches. */
  lemma EmailShapedIff(s: string)
    ensures IsEmailShaped(s) <==> InEmailPattern(s)
  {
    if IsEmailShaped(s) {
      EmailShapedMatches(s);
    }
    if InEmailPattern(s) {
      var local, host, tld :| IsRun(local) && IsRun(host) && IsRun(tld) && s == Address(local, host, tld);
      MatchesEmailShaped(local, host, tld);
    }
  }

  // ---------------------------------------------------------------------------
  // Validation

  /** `!s.trim()`: the field counts as empty. */
  predicate IsBlank(s: string) {
    Trim(s) == []
  }

  /** The error map built from the outcome of each field's check, one field at
      a time and independently of the others, so that every failing field is
      reported at once. A blank email is "required"; a present one that is
      badly formed is "invalid". */
  function FieldErrors(nameBlank: bool, emailBlank: bool, emailShaped: bool, gradeBlank: bool): (errors: map<Field, string>)
    ensures Name in errors <==> nameBlank
    ensures Name in errors ==> errors[Name] == NameRequired
    ensures Email in errors <==> emailBlank || !emailShaped
    ensures Email in errors ==> errors[Email] == if emailBlank then EmailRequired else InvalidEmail
    ensures Grade in errors <==> gradeBlank
    ensures Grade in errors ==> errors[Grade] == GradeRequired
    ensures errors == map[] <==> !nameBlank && !emailBlank && emailShaped && !gradeBlank
  {
    var errors: map<Field, string> := map[];
    var errors := if nameBlank then errors[Name := NameRequired] else errors;
    var errors :=
      if emailBlank then errors[Email := EmailRequired]
      else if !emailShaped then errors[Email := InvalidEmail]
      else errors;
    if gradeBlank then errors[Grade := GradeRequired] else errors
  }

  /** The validation of `handleAddStudent`: name and grade are required after
      trimming; the email is required after trimming and, when present, must
      have the address shape as typed (untrimmed). */
  function Validate(d: Draft): map<Field, string> {
    FieldErrors(IsBlank(d.name), IsBlank(d.email), IsEmailShaped(d.email), IsBlank(d.grade))
  }

  /** The checks of `handleAddStudent` as written: an empty error object that
      each failing field adds its message to, one field after the other. */
  method CollectErrors(d: Draft) returns (errors: map<Field, string>)
    ensures errors == Validate(d)
  {
    var nameBlank, emailBlank := IsBlank(d.name), IsBlank(d.email);
    var emailShaped, gradeBlank := IsEmailShaped(d.email), IsBlank(d.grade);
    errors := map[];
    if nameBlank {
      errors := errors[Name := NameRequired];
    }
    if emailBlank {
      errors := errors[Email := EmailRequired];
    } else if !emailShaped {
      errors := errors[Email := InvalidEmail];
    }
    if gradeBlank {
      errors := errors[Grade := GradeRequired];
    }
  }

  /** A draft the form accepts, stated without trimming or scanning. */
  ghost predicate IsValidDraft(d: Draft) {
    && !AllSpace(d.name)
    && !AllSpace(d.email)
    && InEmailPattern(d.email)
    && !AllSpace(d.grade)
  }

  /** The name has an error exactly when it is blank. */
  lemma NameErrorIff(d: Draft)
    ensures Name in Validate(d) <==> AllSpace(d.name)
    ensures Name in Validate(d) ==> Validate(d)[Name] == NameRequired
  {
    TrimEmptyIff(d.name);
  }

  /** The email has an error exactly when it is blank or does not match the
      pattern, and "required" takes precedence over "invalid format". */
  lemma EmailErrorIff(d: Draft)
    ensures Email in Validate(d) <==> AllSpace(d.email) || !InEmailPattern(d.email)
    ensures Email in Validate(d) ==> Validate(d)[Email] == if AllSpace(d.email) then EmailRequired else InvalidEmail
  {
    TrimEmptyIff(d.email);
    EmailShapedIff(d.email);
  }

  /** The grade has an error exactly when it is blank. */
  lemma GradeErrorIff(d: Draft)
    ensures Grade in Validate(d) <==> AllSpace(d.grade)
    ensures Grade in Validate(d) ==> Validate(d)[Grade] == GradeRequired
  {
    TrimEmptyIff(d.grade);
  }

  /** Each field has an error exactly when its own rule fails, with the message
      that rule gives; the map is empty exactly for a valid draft. */
  lemma ValidateReportsEveryField(d: Draft)
    ensures Name in Validate(d) <==> AllSpace(d.name)
    ensures Email in Validate(d) <==> AllSpace(d.email) || !InEmailPattern(d.email)
    ensures Grade in Validate(d) <==> AllSpace(d.grade)
    ensures Validate(d) == map[] <==> IsValidDraft(d)
  {
    NameErrorIff(d);
    EmailErrorIff(d);
    GradeErrorIff(d);
  }

  /** An address without `@` never has the email shape. */
  lemma NoAtNotEmailShaped(s: string)
    requires '@' !in s
    ensures !IsEmailShaped(s)
  {
    TextBeforeUnique(s, '@', s);
  }

  /** A blank name next to a non-blank address without `@` and a filled-in grade
      (for instance name "", email "bad", grade "A") is refused on exactly the
      name and the email, the email as badly formed. */
  lemma ValidateReportsNameAndEmail(d: Draft)
    requires AllSpace(d.name)
    requires !AllSpace(d.email) && '@' !in d.email
    requires !AllSpace(d.grade)
    ensures Validate(d) == map[Name := NameRequired, Email := InvalidEmail]
  {
    assert IsBlank(d.name) && !IsBlank(d.email) && !IsBlank(d.grade) by {
      TrimEmptyIff(d.name);
      TrimEmptyIff(d.email);
      TrimEmptyIff(d.grade);
    }
    NoAtNotEmailShaped(d.email);
    assert FieldErrors(true, false, false, false) == map[Name := NameRequired, Email := InvalidEmail];
  }
}
