/** The form validators of `validators.jsx`. A form field is `None` when
    the property is `undefined` or `null`; an error map holds one message
    per failing field. */
module Validators {
  import opened Wrappers
  import opened Text
  import opened Constants

  // ---------------------------------------------------------------------
  // Field predicates

  /** `^[^\s@]+@[^\s@]+\.[^\s@]+$` read as a scan: no whitespace, exactly
      one `@` with something before it, and a `.` strictly inside the part
      after it. */
  function IsValidEmail(email: Option<string>): bool {
    match email
    case None => false
    case Some(s) =>
      && s != []
      && (forall i :: 0 <= i < |s| ==> !IsWhitespace(s[i]))
      && match IndexOfChar(s, '@')
         case None => false
         case Some(at) =>
           var domain := s[at + 1..];
           && at > 0
           && '@' !in domain
           && exists k :: 0 < k < |domain| - 1 && domain[k] == '.'
  }

  /** A run the pattern `[^\s@]+` accepts. */
  predicate EmailPart(p: string) {
    p != [] && forall i :: 0 <= i < |p| ==> p[i] != '@' && !IsWhitespace(p[i])
  }

  /** The regular expression itself: the string splits as
      `local@domain.suffix` with three non-empty parts free of `@` and
      whitespace (the domain part may hold further dots). */
  predicate EmailPattern(s: string) {
    exists i, j :: 0 <= i < j < |s| && s[i] == '@' && s[j] == '.'
      && EmailPart(s[..i]) && EmailPart(s[i + 1..j]) && EmailPart(s[j + 1..])
  }

  lemma IsValidEmailMatchesPattern(s: string)
    ensures IsValidEmail(Some(s)) <==> EmailPattern(s)
  {
    if IsValidEmail(Some(s)) {
      ValidEmailHasPattern(s);
    }
    if EmailPattern(s) {
      var i, j :| 0 <= i < j < |s| && s[i] == '@' && s[j] == '.'
        && EmailPart(s[..i]) && EmailPart(s[i + 1..j]) && EmailPart(s[j + 1..]);
      PatternIsValidEmail(s, i, j);
    }
  }

  lemma ValidEmailHasPattern(s: string)
    requires IsValidEmail(Some(s))
    ensures EmailPattern(s)
  {
    var at := IndexOfChar(s, '@').value;
    var domain := s[at + 1..];
    var k :| 0 < k < |domain| - 1 && domain[k] == '.';
    var j := at + 1 + k;
    assert s[j] == '.';
    assert s[at + 1..j] == domain[..k];
    assert s[j + 1..] == domain[k + 1..];
    assert EmailPart(s[..at]);
    assert EmailPart(s[at + 1..j]);
    assert EmailPart(s[j + 1..]);
  }

  lemma PatternIsValidEmail(s: string, i: nat, j: nat)
    requires i < j < |s| && s[i] == '@' && s[j] == '.'
    requires EmailPart(s[..i]) && EmailPart(s[i + 1..j]) && EmailPart(s[j + 1..])
    ensures IsValidEmail(Some(s))
  {
    assert '@' !in s[..i] by {
      forall m | 0 <= m < i ensures s[..i][m] != '@' { }
    }
    assert IndexOfChar(s, '@') == Some(i);
    var domain := s[i + 1..];
    NoAtInDomain(s, i, j);
    assert domain[j - i - 1] == '.';
    forall m | 0 <= m < |s| ensures !IsWhitespace(s[m]) {
      if m < i {
        assert s[m] == s[..i][m];
      } else if i < m < j {
        assert s[m] == s[i + 1..j][m - i - 1];
      } else if m > j {
        assert s[m] == s[j + 1..][m - j - 1];
      }
    }
  }

  lemma NoAtInDomain(s: string, i: nat, j: nat)
    requires i < j < |s| && s[j] == '.'
    requires EmailPart(s[i + 1..j]) && EmailPart(s[j + 1..])
    ensures '@' !in s[i + 1..]
  {
    var domain := s[i + 1..];
    forall m | 0 <= m < |domain| ensures domain[m] != '@' {
      if m < j - i - 1 {
        assert domain[m] == s[i + 1..j][m];
      } else if m > j - i - 1 {
        assert domain[m] == s[j + 1..][m - (j - i)];
      }
    }
  }

  /** `isEmpty`: `undefined`, `null`, or a string of whitespace only. */
  predicate IsEmpty(value: Option<string>) {
    value.None? || forall i :: 0 <= i < |value.value| ==> IsWhitespace(value.value[i])
  }

  /** A present value with at least one non-whitespace character. */
  predicate Filled(value: Option<string>) {
    !IsEmpty(value)
  }

  /** The source tests `value.trim() === ''`; that is the same test. */
  lemma IsEmptyMatchesTrim(value: Option<string>)
    ensures IsEmpty(value) <==> value.None? || Trim(value.value) == []
  {
    if value.Some? {
      TrimEmptyIffBlank(value.value);
    }
  }

  /** `meetsMinLength`: a missing or empty value never meets a minimum. */
  function MeetsMinLength(value: Option<string>, minLength: int): (r: bool)
    ensures value.None? || value.value == [] ==> !r
    ensures value.Some? && value.value != [] ==> (r <==> |value.value| >= minLength)
  {
    if value.None? || value.value == [] then false else |value.value| >= minLength
  }

  /** `meetsMaxLength`: a missing or empty value always meets a maximum. */
  function MeetsMaxLength(value: Option<string>, maxLength: int): (r: bool)
    ensures value.None? || value.value == [] ==> r
    ensures value.Some? && value.value != [] ==> (r <==> |value.value| <= maxLength)
  {
    if value.None? || value.value == [] then true else |value.value| <= maxLength
  }

  function PasswordsMatch(password: Option<string>, confirmPassword: Option<string>): bool {
    password == confirmPassword
  }

  // ---------------------------------------------------------------------
  // isStrongPassword

  predicate IsPasswordSpecial(c: char) {
    c in "@$!%*?&"
  }

  predicate IsPasswordChar(c: char) {
    IsLowerAscii(c) || IsUpperAscii(c) || IsDigit(c) || IsPasswordSpecial(c)
  }

  /** The password pattern: eight or more characters from
      `[A-Za-z0-9@$!%*?&]`, with a lower-case letter, an upper-case letter,
      a digit and a special character among them. */
  predicate StrongPassword(password: Option<string>) {
    password.Some? &&
    var s := password.value;
    && |s| >= 8
    && (forall i :: 0 <= i < |s| ==> IsPasswordChar(s[i]))
    && (exists i :: 0 <= i < |s| && IsLowerAscii(s[i]))
    && (exists i :: 0 <= i < |s| && IsUpperAscii(s[i]))
    && (exists i :: 0 <= i < |s| && IsDigit(s[i]))
    && (exists i :: 0 <= i < |s| && IsPasswordSpecial(s[i]))
  }

  /** `isStrongPassword`, as one pass over the characters. */
  method IsStrongPassword(password: Option<string>) returns (r: bool)
    ensures r <==> StrongPassword(password)
  {
    if password.None? {
      return false;
    }
    var s := password.value;
    var allowed, lower, upper, digit, special := true, false, false, false, false;
    var i := 0;
    while i < |s|
      invariant 0 <= i <= |s|
      invariant allowed <==> forall j :: 0 <= j < i ==> IsPasswordChar(s[j])
      invariant lower <==> exists j :: 0 <= j < i && IsLowerAscii(s[j])
      invariant upper <==> exists j :: 0 <= j < i && IsUpperAscii(s[j])
      invariant digit <==> exists j :: 0 <= j < i && IsDigit(s[j])
      invariant special <==> exists j :: 0 <= j < i && IsPasswordSpecial(s[j])
    {
      var c := s[i];
      allowed := allowed && IsPasswordChar(c);
      lower := lower || IsLowerAscii(c);
      upper := upper || IsUpperAscii(c);
      digit := digit || IsDigit(c);
      special := special || IsPasswordSpecial(c);
      i := i + 1;
    }
    r := |s| >= 8 && allowed && lower && upper && digit && special;
  }


  // ---------------------------------------------------------------------
  // Error maps

  /** The form properties an error can be recorded under. */
  datatype Field =
    | NameField | EmailField | PasswordField | ConfirmPasswordField | DepartmentField
    | YearField | TermsAcceptedField | DescriptionField | CategoryField | PresidentField
    | FacultyField | TitleField | ClubIdField | TagsField | DateField | TimeField
    | VenueField | BioField

  type Errors = map<Field, string>

  /** The errors object a validator returns: for each field it checks, the
      message of the failed check, and nothing for a field that passed. */
  function ErrorsOf(fields: set<Field>, check: Field -> Option<string>): (r: Errors)
    ensures forall f :: f in r <==> f in fields && check(f).Some?
    ensures forall f | f in r :: r[f] == check(f).value
  {
    map f | f in fields && check(f).Some? :: check(f).value
  }

  lemma ErrorsOfEmpty(fields: set<Field>, check: Field -> Option<string>)
    ensures ErrorsOf(fields, check) == map[] <==> forall f | f in fields :: check(f).None?
  {
    var r := ErrorsOf(fields, check);
    if r != map[] {
      var f :| f in r;
      assert check(f).Some?;
    }
  }

  /** A field with a required value and a length range, checked in the
      order required, minimum, maximum: at most one message. */
  function LengthError(value: Option<string>, required: string, min: nat, minMessage: string,
                       max: Option<nat>, maxMessage: string): (r: Option<string>)
    ensures r.None? <==> (Filled(value) && |value.value| >= min
                          && (max.Some? ==> |value.value| <= max.value))
    ensures !Filled(value) ==> r == Some(required)
    ensures Filled(value) && |value.value| < min ==> r == Some(minMessage)
  {
    if IsEmpty(value) then Some(required)
    else if !MeetsMinLength(value, min) then Some(minMessage)
    else if max.Some? && !MeetsMaxLength(value, max.value) then Some(maxMessage)
    else None
  }

  function RequiredError(value: Option<string>, required: string): (r: Option<string>)
    ensures r.None? <==> Filled(value)
  {
    if IsEmpty(value) then Some(required) else None
  }

  function EmailError(email: Option<string>): (r: Option<string>)
    ensures r.None? <==> IsValidEmail(email)
    ensures !Filled(email) ==> r == Some("Email is required")
  {
    if IsEmpty(email) then Some("Email is required")
    else if !IsValidEmail(email) then Some("Invalid email address")
    else None
  }

  function AtLeast(what: string, n: nat): string {
    what + " must be at least " + Decimal(n) + " characters"
  }

  function LessThan(what: string, n: nat): string {
    what + " must be less than " + Decimal(n) + " characters"
  }

  // ---------------------------------------------------------------------
  // validateRegistrationForm

  datatype RegistrationValues = RegistrationValues(
    name: Option<string>, email: Option<string>, password: Option<string>,
    confirmPassword: Option<string>, department: Option<string>, year: Option<string>,
    termsAccepted: bool)

  function ConfirmPasswordError(password: Option<string>, confirmPassword: Option<string>)
    : (r: Option<string>)
    ensures r.None? <==> Filled(confirmPassword) && confirmPassword == password
  {
    if IsEmpty(confirmPassword) then Some("Confirm Password is required")
    else if !PasswordsMatch(password, confirmPassword) then Some("Passwords must match")
    else None
  }

  function RegistrationError(v: RegistrationValues, f: Field): Option<string> {
    match f
    case NameField =>
      LengthError(v.name, "Full Name is required", NameMinLength, AtLeast("Name", NameMinLength), None, "")
    case EmailField => EmailError(v.email)
    case PasswordField =>
      LengthError(v.password, "Password is required", PasswordMinLength,
                  AtLeast("Password", PasswordMinLength), None, "")
    case ConfirmPasswordField => ConfirmPasswordError(v.password, v.confirmPassword)
    case DepartmentField => RequiredError(v.department, "Department is required")
    case YearField => RequiredError(v.year, "Year is required")
    case TermsAcceptedField =>
      if !v.termsAccepted then Some("You must accept the terms and conditions") else None
    case _ => None
  }

  const RegistrationFields: set<Field> := {
    NameField, EmailField, PasswordField, ConfirmPasswordField, DepartmentField, YearField,
    TermsAcceptedField}

  function ValidateRegistrationForm(v: RegistrationValues): Errors {
    ErrorsOf(RegistrationFields, f => RegistrationError(v, f))
  }

  lemma RegistrationFieldErrors(v: RegistrationValues)
    ensures ConfirmPasswordField in ValidateRegistrationForm(v) <==> !Filled(v.confirmPassword) || v.password != v.confirmPassword
    ensures TermsAcceptedField in ValidateRegistrationForm(v) <==> !v.termsAccepted
  {
    var r, check := ValidateRegistrationForm(v), f => RegistrationError(v, f);
    assert r == ErrorsOf(RegistrationFields, check);
    assert PasswordField in r <==> check(PasswordField).Some?;
    assert ConfirmPasswordField in r <==> check(ConfirmPasswordField).Some?;
    assert TermsAcceptedField in r <==> check(TermsAcceptedField).Some?;
  }

  /** What a valid registration is, field by field. */
  predicate RegistrationOk(v: RegistrationValues) {
    && Filled(v.name) && |v.name.value| >= NameMinLength
    && IsValidEmail(v.email)
    && Filled(v.password) && |v.password.value| >= PasswordMinLength
    && Filled(v.confirmPassword) && v.confirmPassword == v.password
    && Filled(v.department) && Filled(v.year)
    && v.termsAccepted
  }

  lemma RegistrationErrorsIffInvalid(v: RegistrationValues)
    ensures ValidateRegistrationForm(v) == map[] <==> RegistrationOk(v)
  {
    var check := f => RegistrationError(v, f);
    ErrorsOfEmpty(RegistrationFields, check);
    if RegistrationOk(v) {
      forall f | f in RegistrationFields ensures check(f).None? {
      }
    } else {
      assert !(check(NameField).None?
        && check(EmailField).None?
        && check(PasswordField).None?
        && check(ConfirmPasswordField).None?
        && check(DepartmentField).None?
        && check(YearField).None?
        && check(TermsAcceptedField).None?);
    }
  }

  // ---------------------------------------------------------------------
  // validateLoginForm

  datatype LoginValues = LoginValues(email: Option<string>, password: Option<string>)

  function LoginError(v: LoginValues, f: Field): Option<string> {
    match f
    case EmailField => EmailError(v.email)
    case PasswordField => RequiredError(v.password, "Password is required")
    case _ => None
  }

  const LoginFields: set<Field> := {EmailField, PasswordField}

  function ValidateLoginForm(v: LoginValues): Errors {
    ErrorsOf(LoginFields, f => LoginError(v, f))
  }

  lemma LoginFieldErrors(v: LoginValues)
    ensures EmailField in ValidateLoginForm(v) <==> !IsValidEmail(v.email)
    ensures PasswordField in ValidateLoginForm(v) <==> !Filled(v.password)
  {
    var r, check := ValidateLoginForm(v), f => LoginError(v, f);
    assert r == ErrorsOf(LoginFields, check);
    assert EmailField in r <==> check(EmailField).Some?;
    assert PasswordField in r <==> check(PasswordField).Some?;
  }

  lemma LoginErrorsIffInvalid(v: LoginValues)
    ensures ValidateLoginForm(v) == map[] <==> IsValidEmail(v.email) && Filled(v.password)
  {
    var check := f => LoginError(v, f);
    ErrorsOfEmpty(LoginFields, check);
    if IsValidEmail(v.email) && Filled(v.password) {
      forall f | f in LoginFields ensures check(f).None? {
      }
    } else {
      assert !(check(EmailField).None?
        && check(PasswordField).None?);
    }
  }

  // ---------------------------------------------------------------------
  // validateClubForm

  datatype ClubValues = ClubValues(
    name: Option<string>, description: Option<string>, category: Option<string>,
    president: Option<string>, faculty: Option<string>)

  function ClubNameError(name: Option<string>): (r: Option<string>)
    ensures r.None? <==> Filled(name) && NameMinLength <= |name.value| <= NameMaxLength
    ensures !Filled(name) ==> r == Some("Club name is required")
    ensures Filled(name) && |name.value| < NameMinLength
         ==> r == Some(AtLeast("Club name", NameMinLength))
    ensures Filled(name) && |name.value| > NameMaxLength
         ==> r == Some(LessThan("Club name", NameMaxLength))
  {
    LengthError(name, "Club name is required", NameMinLength, AtLeast("Club name", NameMinLength),
                Some(NameMaxLength), LessThan("Club name", NameMaxLength))
  }

  function ClubError(v: ClubValues, f: Field): Option<string> {
    match f
    case NameField => ClubNameError(v.name)
    case DescriptionField =>
      LengthError(v.description, "Description is required", DescriptionMinLength,
                  AtLeast("Description", DescriptionMinLength), None, "")
    case CategoryField => RequiredError(v.category, "Category is required")
    case PresidentField => RequiredError(v.president, "President name is required")
    case FacultyField => RequiredError(v.faculty, "Faculty advisor name is required")
    case _ => None
  }

  const ClubFields: set<Field> := {NameField, DescriptionField, CategoryField, PresidentField, FacultyField}

  function ValidateClubForm(v: ClubValues): Errors {
    ErrorsOf(ClubFields, f => ClubError(v, f))
  }

  lemma ClubFieldErrors(v: ClubValues)
    ensures NameField in ValidateClubForm(v) <==> !(Filled(v.name) && NameMinLength <= |v.name.value| <= NameMaxLength)
    ensures NameField in ValidateClubForm(v) ==> ValidateClubForm(v)[NameField] == ClubNameError(v.name).value
    ensures DescriptionField in ValidateClubForm(v)
        <==> !(Filled(v.description) && |v.description.value| >= DescriptionMinLength)
  {
    var r, check := ValidateClubForm(v), f => ClubError(v, f);
    assert r == ErrorsOf(ClubFields, check);
    assert NameField in r <==> check(NameField).Some?;
    assert DescriptionField in r <==> check(DescriptionField).Some?;
  }

  predicate ClubOk(v: ClubValues) {
    && Filled(v.name) && NameMinLength <= |v.name.value| <= NameMaxLength
    && Filled(v.description) && |v.description.value| >= DescriptionMinLength
    && Filled(v.category) && Filled(v.president) && Filled(v.faculty)
  }

  lemma ClubCheckDescriptionField(v: ClubValues)
    ensures ClubError(v, DescriptionField).None?
      <==> Filled(v.description) && |v.description.value| >= DescriptionMinLength
  {
  }

  /** No club field check fails on valid values. */
  lemma ClubErrorClear(v: ClubValues, f: Field)
    requires ClubOk(v)
    ensures ClubError(v, f).None?
  {
    if f == DescriptionField {
      ClubCheckDescriptionField(v);
    }
  }

  lemma ClubOkHasNoErrors(v: ClubValues)
    requires ClubOk(v)
    ensures ValidateClubForm(v) == map[]
  {
    var r, check := ValidateClubForm(v), f => ClubError(v, f);
    assert r == ErrorsOf(ClubFields, check);
    forall f ensures f !in r {
      ClubErrorClear(v, f);
    }
  }

  /** A club field whose check fails is reported. */
  lemma ClubErrorReported(v: ClubValues, f: Field)
    requires f in ClubFields && ClubError(v, f).Some?
    ensures f in ValidateClubForm(v)
  {
    var check := g => ClubError(v, g);
    assert ValidateClubForm(v) == ErrorsOf(ClubFields, check);
    assert check(f).Some?;
  }

  lemma ClubInvalidHasErrors(v: ClubValues)
    requires !ClubOk(v)
    ensures ValidateClubForm(v) != map[]
  {
    if !(Filled(v.name) && NameMinLength <= |v.name.value| <= NameMaxLength) {
      ClubErrorReported(v, NameField);
    } else if !(Filled(v.description) && |v.description.value| >= DescriptionMinLength) {
      ClubCheckDescriptionField(v);
      ClubErrorReported(v, DescriptionField);
    } else if !Filled(v.category) {
      ClubErrorReported(v, CategoryField);
    } else if !Filled(v.president) {
      ClubErrorReported(v, PresidentField);
    } else {
      ClubErrorReported(v, FacultyField);
    }
  }

  lemma ClubErrorsIffInvalid(v: ClubValues)
    ensures ValidateClubForm(v) == map[] <==> ClubOk(v)
  {
    if ClubOk(v) {
      ClubOkHasNoErrors(v);
    } else {
      ClubInvalidHasErrors(v);
    }
  }

  // ---------------------------------------------------------------------
  // validateIdeaForm

  datatype IdeaValues = IdeaValues(
    title: Option<string>, description: Option<string>, clubId: Option<string>,
    tags: Option<string>)

  function IdeaError(v: IdeaValues, f: Field): Option<string> {
    match f
    case TitleField =>
      LengthError(v.title, "Title is required", TitleMinLength, AtLeast("Title", TitleMinLength),
                  Some(TitleMaxLength), LessThan("Title", TitleMaxLength))
    case DescriptionField =>
      LengthError(v.description, "Description is required", DescriptionMinLength,
                  AtLeast("Description", DescriptionMinLength), None, "")
    case ClubIdField => RequiredError(v.clubId, "Please select a club")
    case TagsField => RequiredError(v.tags, "Please add at least one tag")
    case _ => None
  }

  const IdeaFields: set<Field> := {TitleField, DescriptionField, ClubIdField, TagsField}

  function ValidateIdeaForm(v: IdeaValues): Errors {
    ErrorsOf(IdeaFields, f => IdeaError(v, f))
  }

  lemma IdeaFieldErrors(v: IdeaValues)
    ensures TitleField in ValidateIdeaForm(v) <==> !(Filled(v.title) && TitleMinLength <= |v.title.value| <= TitleMaxLength)
    ensures DescriptionField in ValidateIdeaForm(v)
        <==> !(Filled(v.description) && |v.description.value| >= DescriptionMinLength)
    ensures ClubIdField in ValidateIdeaForm(v) <==> !Filled(v.clubId)
  {
    var r, check := ValidateIdeaForm(v), f => IdeaError(v, f);
    assert r == ErrorsOf(IdeaFields, check);
    assert TitleField in r <==> check(TitleField).Some?;
    assert DescriptionField in r <==> check(DescriptionField).Some?;
    assert ClubIdField in r <==> check(ClubIdField).Some?;
  }

  predicate IdeaOk(v: IdeaValues) {
    && Filled(v.title) && TitleMinLength <= |v.title.value| <= TitleMaxLength
    && Filled(v.description) && |v.description.value| >= DescriptionMinLength
    && Filled(v.clubId) && Filled(v.tags)
  }

  lemma IdeaCheckTitleField(v: IdeaValues)
    ensures IdeaError(v, TitleField).None?
      <==> Filled(v.title) && TitleMinLength <= |v.title.value| <= TitleMaxLength
  {
  }

  lemma IdeaCheckDescriptionField(v: IdeaValues)
    ensures IdeaError(v, DescriptionField).None?
      <==> Filled(v.description) && |v.description.value| >= DescriptionMinLength
  {
  }

  /** No idea field check fails on valid values. */
  lemma IdeaErrorClear(v: IdeaValues, f: Field)
    requires IdeaOk(v)
    ensures IdeaError(v, f).None?
  {
    if f == TitleField {
      IdeaCheckTitleField(v);
    } else if f == DescriptionField {
      IdeaCheckDescriptionField(v);
    }
  }

  lemma IdeaOkHasNoErrors(v: IdeaValues)
    requires IdeaOk(v)
    ensures ValidateIdeaForm(v) == map[]
  {
    var r, check := ValidateIdeaForm(v), f => IdeaError(v, f);
    assert r == ErrorsOf(IdeaFields, check);
    forall f ensures f !in r {
      IdeaErrorClear(v, f);
    }
  }

  /** An idea field whose check fails is reported. */
  lemma IdeaErrorReported(v: IdeaValues, f: Field)
    requires f in IdeaFields && IdeaError(v, f).Some?
    ensures f in ValidateIdeaForm(v)
  {
    var check := g => IdeaError(v, g);
    assert ValidateIdeaForm(v) == ErrorsOf(IdeaFields, check);
    assert check(f).Some?;
  }

  lemma IdeaInvalidHasErrors(v: IdeaValues)
    requires !IdeaOk(v)
    ensures ValidateIdeaForm(v) != map[]
  {
    if !(Filled(v.title) && TitleMinLength <= |v.title.value| <= TitleMaxLength) {
      IdeaCheckTitleField(v);
      IdeaErrorReported(v, TitleField);
    } else if !(Filled(v.description) && |v.description.value| >= DescriptionMinLength) {
      IdeaCheckDescriptionField(v);
      IdeaErrorReported(v, DescriptionField);
    } else if !Filled(v.clubId) {
      IdeaErrorReported(v, ClubIdField);
    } else {
      IdeaErrorReported(v, TagsField);
    }
  }

  lemma IdeaErrorsIffInvalid(v: IdeaValues)
    ensures ValidateIdeaForm(v) == map[] <==> IdeaOk(v)
  {
    if IdeaOk(v) {
      IdeaOkHasNoErrors(v);
    } else {
      IdeaInvalidHasErrors(v);
    }
  }

  // ---------------------------------------------------------------------
  // validateEventForm

  datatype EventValues = EventValues(
    name: Option<string>, description: Option<string>, date: Option<string>,
    time: Option<string>, venue: Option<string>, clubId: Option<string>)

  /** `isValidDate` parses with `Date`; it is a parameter here. */
  function DateError(date: Option<string>, isValidDate: string -> bool): (r: Option<string>)
    ensures r.None? <==> Filled(date) && isValidDate(date.value)
  {
    if IsEmpty(date) then Some("Date is required")
    else if !isValidDate(date.value) then Some("Please enter a valid date")
    else None
  }

  function EventError(v: EventValues, isValidDate: string -> bool, f: Field): Option<string> {
    match f
    case NameField =>
      LengthError(v.name, "Event name is required", TitleMinLength, AtLeast("Event name", TitleMinLength),
                  Some(TitleMaxLength), LessThan("Event name", TitleMaxLength))
    case DescriptionField =>
      LengthError(v.description, "Description is required", DescriptionMinLength,
                  AtLeast("Description", DescriptionMinLength), None, "")
    case DateField => DateError(v.date, isValidDate)
    case TimeField => RequiredError(v.time, "Time is required")
    case VenueField => RequiredError(v.venue, "Venue is required")
    case ClubIdField => RequiredError(v.clubId, "Please select a club")
    case _ => None
  }

  const EventFields: set<Field> := {NameField, DescriptionField, DateField, TimeField, VenueField, ClubIdField}

  function ValidateEventForm(v: EventValues, isValidDate: string -> bool): Errors {
    ErrorsOf(EventFields, f => EventError(v, isValidDate, f))
  }

  lemma EventFieldErrors(v: EventValues, isValidDate: string -> bool)
    ensures NameField in ValidateEventForm(v, isValidDate) <==> !(Filled(v.name) && TitleMinLength <= |v.name.value| <= TitleMaxLength)
    ensures DateField in ValidateEventForm(v, isValidDate) <==> !(Filled(v.date) && isValidDate(v.date.value))
    ensures ClubIdField in ValidateEventForm(v, isValidDate) <==> !Filled(v.clubId)
  {
    var r, check := ValidateEventForm(v, isValidDate), f => EventError(v, isValidDate, f);
    EventCheckNameField(v, isValidDate);
    EventCheckDateField(v, isValidDate);
    EventCheckClubIdField(v, isValidDate);
    assert r == ErrorsOf(EventFields, check);
    assert NameField in r <==> check(NameField).Some?;
    assert DateField in r <==> check(DateField).Some?;
    assert ClubIdField in r <==> check(ClubIdField).Some?;
  }

  predicate EventOk(v: EventValues, isValidDate: string -> bool) {
    && Filled(v.name) && TitleMinLength <= |v.name.value| <= TitleMaxLength
    && Filled(v.description) && |v.description.value| >= DescriptionMinLength
    && Filled(v.date) && isValidDate(v.date.value)
    && Filled(v.time) && Filled(v.venue) && Filled(v.clubId)
  }

  lemma EventCheckNameField(v: EventValues, isValidDate: string -> bool)
    ensures EventError(v, isValidDate, NameField).None? <==> Filled(v.name) && TitleMinLength <= |v.name.value| <= TitleMaxLength
  {
  }

  lemma EventCheckDescriptionField(v: EventValues, isValidDate: string -> bool)
    ensures EventError(v, isValidDate, DescriptionField).None? <==> Filled(v.description) && |v.description.value| >= DescriptionMinLength
  {
  }

  lemma EventCheckDateField(v: EventValues, isValidDate: string -> bool)
    ensures EventError(v, isValidDate, DateField).None? <==> Filled(v.date) && isValidDate(v.date.value)
  {
  }

  lemma EventCheckTimeField(v: EventValues, isValidDate: string -> bool)
    ensures EventError(v, isValidDate, TimeField).None? <==> Filled(v.time)
  {
  }

  lemma EventCheckVenueField(v: EventValues, isValidDate: string -> bool)
    ensures EventError(v, isValidDate, VenueField).None? <==> Filled(v.venue)
  {
  }

  lemma EventCheckClubIdField(v: EventValues, isValidDate: string -> bool)
    ensures EventError(v, isValidDate, ClubIdField).None? <==> Filled(v.clubId)
  {
  }

  /** No event field check fails on valid values. */
  lemma EventErrorClear(v: EventValues, isValidDate: string -> bool, f: Field)
    requires EventOk(v, isValidDate)
    ensures EventError(v, isValidDate, f).None?
  {
    match f
    case NameField => EventCheckNameField(v, isValidDate);
    case DescriptionField => EventCheckDescriptionField(v, isValidDate);
    case DateField => EventCheckDateField(v, isValidDate);
    case _ =>
  }

  lemma EventOkHasNoErrors(v: EventValues, isValidDate: string -> bool)
    requires EventOk(v, isValidDate)
    ensures ValidateEventForm(v, isValidDate) == map[]
  {
    var r, check := ValidateEventForm(v, isValidDate), f => EventError(v, isValidDate, f);
    assert r == ErrorsOf(EventFields, check);
    forall f ensures f !in r {
      EventErrorClear(v, isValidDate, f);
    }
  }

  /** An event field whose check fails is reported. */
  lemma EventErrorReported(v: EventValues, isValidDate: string -> bool, f: Field)
    requires f in EventFields && EventError(v, isValidDate, f).Some?
    ensures f in ValidateEventForm(v, isValidDate)
  {
    var check := g => EventError(v, isValidDate, g);
    assert ValidateEventForm(v, isValidDate) == ErrorsOf(EventFields, check);
    assert check(f).Some?;
  }

  lemma EventInvalidHasErrors(v: EventValues, isValidDate: string -> bool)
    requires !EventOk(v, isValidDate)
    ensures ValidateEventForm(v, isValidDate) != map[]
  {
    if !(Filled(v.name) && TitleMinLength <= |v.name.value| <= TitleMaxLength) {
      EventCheckNameField(v, isValidDate);
      EventErrorReported(v, isValidDate, NameField);
    } else if !(Filled(v.description) && |v.description.value| >= DescriptionMinLength) {
      EventCheckDescriptionField(v, isValidDate);
      EventErrorReported(v, isValidDate, DescriptionField);
    } else if !(Filled(v.date) && isValidDate(v.date.value)) {
      EventCheckDateField(v, isValidDate);
      EventErrorReported(v, isValidDate, DateField);
    } else if !Filled(v.time) {
      EventCheckTimeField(v, isValidDate);
      EventErrorReported(v, isValidDate, TimeField);
    } else if !Filled(v.venue) {
      EventCheckVenueField(v, isValidDate);
      EventErrorReported(v, isValidDate, VenueField);
    } else {
      EventCheckClubIdField(v, isValidDate);
      EventErrorReported(v, isValidDate, ClubIdField);
    }
  }

  lemma EventErrorsIffInvalid(v: EventValues, isValidDate: string -> bool)
    ensures ValidateEventForm(v, isValidDate) == map[] <==> EventOk(v, isValidDate)
  {
    if EventOk(v, isValidDate) {
      EventOkHasNoErrors(v, isValidDate);
    } else {
      EventInvalidHasErrors(v, isValidDate);
    }
  }

  // ---------------------------------------------------------------------
  // validateProfileForm

  datatype ProfileValues = ProfileValues(
    name: Option<string>, email: Option<string>, department: Option<string>,
    year: Option<string>, bio: Option<string>)

  /** Only a non-empty bio is measured. */
  function BioError(bio: Option<string>): (r: Option<string>)
    ensures r.Some? <==> bio.Some? && |bio.value| > BioMaxLength
  {
    if bio.Some? && bio.value != [] && !MeetsMaxLength(bio, BioMaxLength) then
      Some(LessThan("Bio", BioMaxLength))
    else None
  }

  function ProfileError(v: ProfileValues, f: Field): Option<string> {
    match f
    case NameField =>
      LengthError(v.name, "Full Name is required", NameMinLength, AtLeast("Name", NameMinLength), None, "")
    case EmailField => EmailError(v.email)
    case DepartmentField => RequiredError(v.department, "Department is required")
    case YearField => RequiredError(v.year, "Year is required")
    case BioField => BioError(v.bio)
    case _ => None
  }

  const ProfileFields: set<Field> := {NameField, EmailField, DepartmentField, YearField, BioField}

  function ValidateProfileForm(v: ProfileValues): Errors {
    ErrorsOf(ProfileFields, f => ProfileError(v, f))
  }

  lemma ProfileFieldErrors(v: ProfileValues)
    ensures BioField in ValidateProfileForm(v) <==> v.bio.Some? && |v.bio.value| > BioMaxLength
    ensures !Filled(v.name) ==> NameField in ValidateProfileForm(v) && ValidateProfileForm(v)[NameField] == "Full Name is required"
  {
    var r, check := ValidateProfileForm(v), f => ProfileError(v, f);
    assert r == ErrorsOf(ProfileFields, check);
    assert NameField in r <==> check(NameField).Some?;
    assert BioField in r <==> check(BioField).Some?;
  }

  predicate ProfileOk(v: ProfileValues) {
    && Filled(v.name) && |v.name.value| >= NameMinLength
    && IsValidEmail(v.email)
    && Filled(v.department) && Filled(v.year)
    && (v.bio.Some? ==> |v.bio.value| <= BioMaxLength)
  }

  /** No profile field check fails on valid values. */
  lemma ProfileErrorClear(v: ProfileValues, f: Field)
    requires ProfileOk(v)
    ensures ProfileError(v, f).None?
  {
  }

  lemma ProfileOkHasNoErrors(v: ProfileValues)
    requires ProfileOk(v)
    ensures ValidateProfileForm(v) == map[]
  {
    var r, check := ValidateProfileForm(v), f => ProfileError(v, f);
    assert r == ErrorsOf(ProfileFields, check);
    forall f ensures f !in r {
      ProfileErrorClear(v, f);
    }
  }

  /** A profile field whose check fails is reported. */
  lemma ProfileErrorReported(v: ProfileValues, f: Field)
    requires f in ProfileFields && ProfileError(v, f).Some?
    ensures f in ValidateProfileForm(v)
  {
    var check := g => ProfileError(v, g);
    assert ValidateProfileForm(v) == ErrorsOf(ProfileFields, check);
    assert check(f).Some?;
  }

  lemma ProfileInvalidHasErrors(v: ProfileValues)
    requires !ProfileOk(v)
    ensures ValidateProfileForm(v) != map[]
  {
    if !(Filled(v.name) && |v.name.value| >= NameMinLength) {
      ProfileErrorReported(v, NameField);
    } else if !IsValidEmail(v.email) {
      ProfileErrorReported(v, EmailField);
    } else if !Filled(v.department) {
      ProfileErrorReported(v, DepartmentField);
    } else if !Filled(v.year) {
      ProfileErrorReported(v, YearField);
    } else {
      ProfileErrorReported(v, BioField);
    }
  }

  lemma ProfileErrorsIffInvalid(v: ProfileValues)
    ensures ValidateProfileForm(v) == map[] <==> ProfileOk(v)
  {
    if ProfileOk(v) {
      ProfileOkHasNoErrors(v);
    } else {
      ProfileInvalidHasErrors(v);
    }
  }
}
