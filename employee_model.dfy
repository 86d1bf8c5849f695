/**
 * The employee record, its closed set of departments, and the validation
 * rules that turn raw request fields into a create record or a sparse update
 * (app/models/employee.py).
 */
module EmployeeModel {
  import opened Wrappers

  // ---------------------------------------------------------------------------
  // Departments
  // ---------------------------------------------------------------------------

  /** The ten departments, in declaration order. */
  datatype Department =
    | Engineering
    | Marketing
    | Finance
    | HumanResources
    | Sales
    | Operations
    | InformationTechnology
    | Legal
    | CustomerService
    | Research

  /** Every department, in the order the enum declares them. */
  const AllDepartments: seq<Department> :=
    [Engineering, Marketing, Finance, HumanResources, Sales,
     Operations, InformationTechnology, Legal, CustomerService, Research]

  /** The label a department is stored and serialized as (the enum's value). */
  function ToString(d: Department): (r: string)
    ensures r != [] && NoOuterSpace(r)
  {
    match d
    case Engineering => "Engineering"
    case Marketing => "Marketing"
    case Finance => "Finance"
    case HumanResources => "Human Resources"
    case Sales => "Sales"
    case Operations => "Operations"
    case InformationTechnology => "Information Technology"
    case Legal => "Legal"
    case CustomerService => "Customer Service"
    case Research => "Research and Development"
  }

  /** Enum lookup by value: exact, case-sensitive match of a label. */
  function Parse(s: string): (r: Option<Department>)
    ensures r.Some? ==> ToString(r.value) == s
  {
    if s == "Engineering" then Some(Engineering)
    else if s == "Marketing" then Some(Marketing)
    else if s == "Finance" then Some(Finance)
    else if s == "Human Resources" then Some(HumanResources)
    else if s == "Sales" then Some(Sales)
    else if s == "Operations" then Some(Operations)
    else if s == "Information Technology" then Some(InformationTechnology)
    else if s == "Legal" then Some(Legal)
    else if s == "Customer Service" then Some(CustomerService)
    else if s == "Research and Development" then Some(Research)
    else None
  }

  /** Every department parses back from its own label. */
  lemma ParseToString(d: Department)
    ensures Parse(ToString(d)) == Some(d)
  {
    match d
    case Engineering =>
    case Marketing =>
    case Finance =>
    case HumanResources =>
    case Sales =>
    case Operations =>
    case InformationTechnology =>
    case Legal =>
    case CustomerService =>
    case Research =>
  }

  /** A string parses to `d` exactly when it is `d`'s label. */
  lemma ParseIff(s: string, d: Department)
    ensures Parse(s) == Some(d) <==> ToString(d) == s
  {
    ParseToString(d);
  }

  /** Distinct departments have distinct labels. */
  lemma ToStringInjective(d1: Department, d2: Department)
    ensures ToString(d1) == ToString(d2) ==> d1 == d2
  {
    ParseToString(d1);
    ParseToString(d2);
  }

  /** A string that is no department's label fails to parse. */
  lemma ParseRejectsNonLabels(s: string)
    ensures Parse(s).None? <==> forall d: Department :: ToString(d) != s
  {
    if Parse(s).None? {
      forall d: Department ensures ToString(d) != s {
        ParseToString(d);
      }
    }
  }

  /** The typo the enum exists to catch is refused; the correct label is not. */
  lemma ParseTypoExample()
    ensures Parse("Engneering").None?
    ensures Parse("Engineering") == Some(Engineering)
  {
  }

  /** The enum lists ten departments, each exactly once, and no other. */
  lemma AllDepartmentsEnumerates(d: Department)
    ensures |AllDepartments| == 10
    ensures d in AllDepartments
    ensures forall i, j :: 0 <= i < j < |AllDepartments| ==> AllDepartments[i] != AllDepartments[j]
  {
  }

  // ---------------------------------------------------------------------------
  // Records
  // ---------------------------------------------------------------------------

  /** An employee as stored and as returned: exactly these four fields, no storage id. */
  datatype Employee = Employee(employeeId: string, name: string, age: int, department: Department)

  /** A validated partial update: no `employeeId`, each field independently optional. */
  datatype EmployeeUpdate = EmployeeUpdate(name: Option<string>, age: Option<int>, department: Option<Department>)

  /** The raw fields of a create request body; `None` is an absent field. */
  datatype EmployeeInput = EmployeeInput(
    employeeId: Option<string>, name: Option<string>, age: Option<int>, department: Option<string>)

  /**
   * The raw fields of an update request body. An `employeeId` sent in the body
   * is an extra field, which validation ignores.
   */
  datatype UpdateInput = UpdateInput(
    employeeId: Option<string>, name: Option<string>, age: Option<int>, department: Option<string>)

  /** The fields a validation error can be reported against. */
  datatype FieldName = EmployeeIdField | NameField | AgeField | DepartmentField

  /** Why a field was refused. */
  datatype ErrorKind =
    | Missing          // a required field is absent
    | TooShort         // string shorter than its minimum length
    | TooLong          // string longer than its maximum length
    | PatternMismatch  // string does not match the id pattern
    | Blank            // name is empty or whitespace only after stripping
    | TooSmall         // integer below its lower bound
    | TooLarge         // integer above its upper bound
    | NotAMember       // string is not a department label

  datatype FieldError = FieldError(field: FieldName, kind: ErrorKind)

  const MinIdLength := 1
  const MaxIdLength := 50
  const MinNameLength := 2
  const MaxNameLength := 100
  const MinAge := 18
  const MaxAge := 100

  // ---------------------------------------------------------------------------
  // Employee id
  // ---------------------------------------------------------------------------

  /** One character of the class `[A-Za-z0-9_-]`. */
  predicate IsIdChar(c: char) {
    ('A' <= c <= 'Z') || ('a' <= c <= 'z') || ('0' <= c <= '9') || c == '_' || c == '-'
  }

  /** The anchored pattern `^[A-Za-z0-9_-]+$`, read as a regular expression: one id character, then more. */
  predicate MatchesIdPattern(s: string)
    decreases |s|
  {
    |s| > 0 && IsIdChar(s[0]) && (|s| == 1 || MatchesIdPattern(s[1..]))
  }

  /** The pattern accepts exactly the non-empty strings of id characters. */
  lemma {:induction false} MatchesIdPatternIff(s: string)
    ensures MatchesIdPattern(s) <==> |s| > 0 && forall k :: 0 <= k < |s| ==> IsIdChar(s[k])
    decreases |s|
  {
    if |s| > 1 {
      MatchesIdPatternIff(s[1..]);
      assert forall k :: 1 <= k < |s| ==> s[k] == s[1..][k - 1];
    }
  }

  /** What the id constraints accept. */
  predicate IsValidId(s: string) {
    MinIdLength <= |s| <= MaxIdLength && forall k :: 0 <= k < |s| ==> IsIdChar(s[k])
  }

  /** The id checks in their order: minimum length, maximum length, pattern. */
  function ValidateId(s: string): (r: Result<string, ErrorKind>)
    ensures r.Success? <==> IsValidId(s)
    ensures r.Success? ==> r.value == s
    ensures r == Failure(TooShort) <==> |s| < MinIdLength
    ensures r == Failure(TooLong) <==> |s| > MaxIdLength
  {
    MatchesIdPatternIff(s);
    if |s| < MinIdLength then Failure(TooShort)
    else if |s| > MaxIdLength then Failure(TooLong)
    else if !MatchesIdPattern(s) then Failure(PatternMismatch)
    else Success(s)
  }

  // ---------------------------------------------------------------------------
  // Whitespace and stripping
  // ---------------------------------------------------------------------------

  /** The characters Python's `str.isspace` accepts, which `str.strip()` removes. */
  predicate IsSpace(c: char) {
    c == ' ' || ('\t' <= c <= '\r') || ('\U{1C}' <= c <= '\U{1F}')
    || c == '\U{85}' || c == '\U{A0}' || c == '\U{1680}'
    || ('\U{2000}' <= c <= '\U{200A}') || c == '\U{2028}' || c == '\U{2029}'
    || c == '\U{202F}' || c == '\U{205F}' || c == '\U{3000}'
  }

  predicate AllSpace(s: string) {
    forall k :: 0 <= k < |s| ==> IsSpace(s[k])
  }

  /** Neither the first nor the last character is whitespace (always true of ""). */
  predicate NoOuterSpace(s: string) {
    s == [] || (!IsSpace(s[0]) && !IsSpace(s[|s| - 1]))
  }

  /** The index of the first non-whitespace character at or after `i`, or `|s|` if none. */
  function ContentStart(s: string, i: nat): (a: nat)
    requires i <= |s|
    ensures i <= a <= |s|
    ensures forall k :: i <= k < a ==> IsSpace(s[k])
    ensures a < |s| ==> !IsSpace(s[a])
    decreases |s| - i
  {
    if i == |s| || !IsSpace(s[i]) then i else ContentStart(s, i + 1)
  }

  /** The index just past the last non-whitespace character before `j`, or `lo` if none. */
  function ContentEnd(s: string, lo: nat, j: nat): (b: nat)
    requires lo <= j <= |s|
    ensures lo <= b <= j
    ensures forall k :: b <= k < j ==> IsSpace(s[k])
    ensures b > lo ==> !IsSpace(s[b - 1])
    decreases j - lo
  {
    if j == lo || !IsSpace(s[j - 1]) then j else ContentEnd(s, lo, j - 1)
  }

  /** Python's `str.strip()` with no argument. */
  function Strip(s: string): (r: string)
    ensures |r| <= |s|
    ensures NoOuterSpace(r)
  {
    var a := ContentStart(s, 0);
    s[a..ContentEnd(s, a, |s|)]
  }

  /** Stripping removes only whitespace, and only from the two ends. */
  lemma StripDecomposes(s: string) returns (pre: string, post: string)
    ensures s == pre + Strip(s) + post
    ensures AllSpace(pre) && AllSpace(post)
  {
    var a := ContentStart(s, 0);
    var b := ContentEnd(s, a, |s|);
    pre, post := s[..a], s[b..];
    assert s == s[..a] + s[a..b] + s[b..];
  }

  /**
   * Stripping is determined by the decomposition: whatever sits between a
   * whitespace-only prefix and a whitespace-only suffix, with no whitespace at
   * its own ends, is what `Strip` returns.
   */
  lemma StripCharacterized(pre: string, r: string, post: string)
    requires AllSpace(pre) && AllSpace(post) && NoOuterSpace(r)
    ensures Strip(pre + r + post) == r
  {
    var t := pre + r + post;
    var m, n := |pre|, |pre| + |r|;
    assert forall k :: 0 <= k < m ==> t[k] == pre[k];
    assert forall k :: m <= k < n ==> t[k] == r[k - m];
    assert forall k :: n <= k < |t| ==> t[k] == post[k - n];
    var a := ContentStart(t, 0);
    if r == [] {
      assert AllSpace(t);
      assert a == |t|;
    } else {
      assert !IsSpace(t[m]);
      assert a == m;
      assert !IsSpace(t[n - 1]);
      var b := ContentEnd(t, a, |t|);
      assert b == n;
      assert t[a..b] == r;
    }
  }

  /** Stripping twice is stripping once. */
  lemma StripIdempotent(s: string)
    ensures Strip(Strip(s)) == Strip(s)
  {
    var r := Strip(s);
    StripCharacterized([], r, []);
    assert [] + r + [] == r;
  }

  /** Stripping leaves nothing exactly when the string is whitespace only. */
  lemma StripEmptyIff(s: string)
    ensures Strip(s) == [] <==> AllSpace(s)
  {
    if AllSpace(s) {
      StripCharacterized(s, [], []);
      assert s + [] + [] == s;
    }
    if Strip(s) == [] {
      var pre, post := StripDecomposes(s);
      assert s == pre + post;
      forall k | 0 <= k < |s| ensures IsSpace(s[k]) {
        if k < |pre| { assert s[k] == pre[k]; } else { assert s[k] == post[k - |pre|]; }
      }
    }
  }

  // ---------------------------------------------------------------------------
  // Name
  // ---------------------------------------------------------------------------

  /** What the raw name constraints accept: 2 to 100 characters, not all whitespace. */
  predicate IsAcceptableName(raw: string) {
    MinNameLength <= |raw| <= MaxNameLength && !AllSpace(raw)
  }

  /** A cleaned, stored name: non-empty, at most 100 characters, no outer whitespace. */
  predicate IsCleanName(n: string) {
    1 <= |n| <= MaxNameLength && NoOuterSpace(n)
  }

  /**
   * The length bounds apply to the RAW string; the validator then strips it
   * and refuses the result if it is empty.
   */
  function ValidateName(raw: string): (r: Result<string, ErrorKind>)
    ensures r.Success? <==> IsAcceptableName(raw)
    ensures r.Success? ==> r.value == Strip(raw) && IsCleanName(r.value)
    ensures r == Failure(TooShort) <==> |raw| < MinNameLength
    ensures r == Failure(TooLong) <==> |raw| > MaxNameLength
    ensures r == Failure(Blank) <==> MinNameLength <= |raw| <= MaxNameLength && AllSpace(raw)
  {
    StripEmptyIff(raw);
    if |raw| < MinNameLength then Failure(TooShort)
    else if |raw| > MaxNameLength then Failure(TooLong)
    else
      var cleaned := Strip(raw);
      if cleaned == [] then Failure(Blank) else Success(cleaned)
  }

  /** Validating an accepted name again changes nothing, as long as it is still two characters long. */
  lemma ValidateNameIdempotent(raw: string)
    requires ValidateName(raw).Success?
    requires |ValidateName(raw).value| >= MinNameLength
    ensures ValidateName(ValidateName(raw).value) == ValidateName(raw)
  {
    var n := ValidateName(raw).value;
    StripIdempotent(raw);
    StripEmptyIff(n);
  }

  /** Every clean name is the result of validating some raw name. */
  lemma CleanNamesAreReachable(n: string)
    requires IsCleanName(n)
    ensures exists raw :: ValidateName(raw) == Success(n)
  {
    var raw := if |n| >= MinNameLength then n else n + " ";
    assert AllSpace(" ");
    StripCharacterized([], n, raw[|n|..]);
    assert [] + n + raw[|n|..] == raw;
    assert !IsSpace(raw[0]);
    assert ValidateName(raw) == Success(n);
  }

  /**
   * Because the length is checked before stripping, a padded one-letter name
   * is accepted and stored as one letter, while the bare letter is refused.
   * A whitespace-only name passes the length check and is refused as blank.
   */
  lemma NameOrderExamples()
    ensures ValidateName("  a  ") == Success("a")
    ensures ValidateName("a") == Failure(TooShort)
    ensures ValidateName("   ") == Failure(Blank)
    ensures ValidateName("  Jane  ") == Success("Jane")
  {
    StripCharacterized("  ", "a", "  ");
    assert "  " + "a" + "  " == "  a  ";
    StripCharacterized("  ", "Jane", "  ");
    assert "  " + "Jane" + "  " == "  Jane  ";
    assert AllSpace("   ");
  }

  // ---------------------------------------------------------------------------
  // Age and department
  // ---------------------------------------------------------------------------

  predicate IsValidAge(a: int) {
    MinAge <= a <= MaxAge
  }

  /** The `ge=18, le=100` bounds. */
  function ValidateAge(a: int): (r: Result<int, ErrorKind>)
    ensures r.Success? <==> IsValidAge(a)
    ensures r.Success? ==> r.value == a
    ensures r == Failure(TooSmall) <==> a < MinAge
    ensures r == Failure(TooLarge) <==> a > MaxAge
  {
    if a < MinAge then Failure(TooSmall)
    else if a > MaxAge then Failure(TooLarge)
    else Success(a)
  }

  lemma AgeBoundaryExamples()
    ensures ValidateAge(17) == Failure(TooSmall)
    ensures ValidateAge(18) == Success(18)
    ensures ValidateAge(100) == Success(100)
    ensures ValidateAge(101) == Failure(TooLarge)
  {
  }

  /** Membership in the department enum, by label. */
  function ValidateDepartment(s: string): (r: Result<Department, ErrorKind>)
    ensures r.Success? <==> exists d :: ToString(d) == s
    ensures r.Success? ==> ToString(r.value) == s
    ensures r.Failure? ==> r.error == NotAMember
  {
    ParseRejectsNonLabels(s);
    match Parse(s)
    case Some(d) => Success(d)
    case None => Failure(NotAMember)
  }

  // ---------------------------------------------------------------------------
  // Whole records
  // ---------------------------------------------------------------------------

  /** A record every field of which satisfies its constraints, with the name already cleaned. */
  predicate IsValidEmployee(e: Employee) {
    IsValidId(e.employeeId) && IsCleanName(e.name) && IsValidAge(e.age)
  }

  /** A validated update: the fields that are present satisfy the stored-field constraints. */
  predicate IsValidUpdate(u: EmployeeUpdate) {
    (u.name.Some? ==> IsCleanName(u.name.value)) && (u.age.Some? ==> IsValidAge(u.age.value))
  }

  /** An update that names no field at all. */
  predicate IsEmptyUpdate(u: EmployeeUpdate) {
    u.name.None? && u.age.None? && u.department.None?
  }

  /** The one-element error list of a refused field, or nothing. */
  function ErrorsOf<T>(f: FieldName, r: Result<T, ErrorKind>): (errs: seq<FieldError>)
    ensures errs == [] <==> r.Success?
    ensures forall k :: 0 <= k < |errs| ==> errs[k] == FieldError(f, r.error)
  {
    if r.Success? then [] else [FieldError(f, r.error)]
  }

  /** A required field: absent is `Missing`, present is checked. */
  function RequiredId(v: Option<string>): (r: Result<string, ErrorKind>)
    ensures r.Success? <==> v.Some? && IsValidId(v.value)
    ensures r.Success? ==> r.value == v.value
  {
    if v.Some? then ValidateId(v.value) else Failure(Missing)
  }
  function RequiredName(v: Option<string>): (r: Result<string, ErrorKind>)
    ensures r.Success? <==> v.Some? && IsAcceptableName(v.value)
    ensures r.Success? ==> r.value == Strip(v.value) && IsCleanName(r.value)
  {
    if v.Some? then ValidateName(v.value) else Failure(Missing)
  }
  function RequiredAge(v: Option<int>): (r: Result<int, ErrorKind>)
    ensures r.Success? <==> v.Some? && IsValidAge(v.value)
    ensures r.Success? ==> r.value == v.value
  {
    if v.Some? then ValidateAge(v.value) else Failure(Missing)
  }
  function RequiredDepartment(v: Option<string>): (r: Result<Department, ErrorKind>)
    ensures r.Success? <==> v.Some? && Parse(v.value).Some?
    ensures r.Success? ==> ToString(r.value) == v.value
  {
    if v.Some? then ValidateDepartment(v.value) else Failure(Missing)
  }

  /** Whether a create request's field is refused (absent, or failing its constraints). */
  predicate CreateRejects(input: EmployeeInput, f: FieldName) {
    match f
    case EmployeeIdField => !(input.employeeId.Some? && IsValidId(input.employeeId.value))
    case NameField => !(input.name.Some? && IsAcceptableName(input.name.value))
    case AgeField => !(input.age.Some? && IsValidAge(input.age.value))
    case DepartmentField => !(input.department.Some? && Parse(input.department.value).Some?)
  }

  /** The fields of a list of errors, in order. */
  function ErrorFields(errs: seq<FieldError>): (fs: seq<FieldName>)
    ensures |fs| == |errs| && forall k :: 0 <= k < |errs| ==> fs[k] == errs[k].field
  {
    seq(|errs|, k requires 0 <= k < |errs| => errs[k].field)
  }

  lemma ErrorFieldsConcat(a: seq<FieldError>, b: seq<FieldError>)
    ensures ErrorFields(a + b) == ErrorFields(a) + ErrorFields(b)
  {
  }

  /** `[f]` when `b` holds, else nothing. */
  function Flag<F>(f: F, b: bool): seq<F> {
    if b then [f] else []
  }

  lemma ErrorFieldsOf<T>(f: FieldName, r: Result<T, ErrorKind>)
    ensures ErrorFields(ErrorsOf(f, r)) == Flag(f, r.Failure?)
  {
  }

  /** The refused fields of a create request, in declaration order. */
  function CreateRejected(input: EmployeeInput): seq<FieldName> {
    Flag(EmployeeIdField, CreateRejects(input, EmployeeIdField))
    + Flag(NameField, CreateRejects(input, NameField))
    + Flag(AgeField, CreateRejects(input, AgeField))
    + Flag(DepartmentField, CreateRejects(input, DepartmentField))
  }

  /** No field is refused exactly when the list of refused fields is empty. */
  lemma CreateRejectedEmpty(input: EmployeeInput)
    ensures CreateRejected(input) == [] <==> forall f :: !CreateRejects(input, f)
  {
    if CreateRejected(input) == [] {
      forall f ensures !CreateRejects(input, f) {
        match f
        case EmployeeIdField =>
        case NameField =>
        case AgeField =>
        case DepartmentField =>
      }
    }
  }

  /** Every error of a create request, field by field in declaration order. */
  function CreateErrors(input: EmployeeInput): (errs: seq<FieldError>)
    ensures ErrorFields(errs) == CreateRejected(input)
  {
    var id := RequiredId(input.employeeId);
    var name := RequiredName(input.name);
    var age := RequiredAge(input.age);
    var dept := RequiredDepartment(input.department);
    var e1, e2, e3, e4 := ErrorsOf(EmployeeIdField, id), ErrorsOf(NameField, name),
                          ErrorsOf(AgeField, age), ErrorsOf(DepartmentField, dept);
    assert ErrorFields(e1) == Flag(EmployeeIdField, CreateRejects(input, EmployeeIdField)) by {
      ErrorFieldsOf(EmployeeIdField, id);
    }
    assert ErrorFields(e2) == Flag(NameField, CreateRejects(input, NameField)) by {
      ErrorFieldsOf(NameField, name);
    }
    assert ErrorFields(e3) == Flag(AgeField, CreateRejects(input, AgeField)) by {
      ErrorFieldsOf(AgeField, age);
    }
    assert ErrorFields(e4) == Flag(DepartmentField, CreateRejects(input, DepartmentField)) by {
      ErrorFieldsOf(DepartmentField, dept);
    }
    ErrorFieldsConcat4(e1, e2, e3, e4);
    e1 + e2 + e3 + e4
  }

  lemma ErrorFieldsConcat4(a: seq<FieldError>, b: seq<FieldError>, c: seq<FieldError>, d: seq<FieldError>)
    ensures ErrorFields(a + b + c + d) == ErrorFields(a) + ErrorFields(b) + ErrorFields(c) + ErrorFields(d)
  {
    ErrorFieldsConcat(a, b);
    ErrorFieldsConcat(a + b, c);
    ErrorFieldsConcat(a + b + c, d);
  }

  /**
   * `EmployeeCreate`: every field is required and checked independently; the
   * request is accepted only if none is refused, and otherwise every refused
   * field is reported once, in declaration order.
   */
  function ValidateCreate(input: EmployeeInput): (r: Result<Employee, seq<FieldError>>)
    ensures r.Success? <==> forall f :: !CreateRejects(input, f)
    ensures r.Success? ==>
      && input.employeeId.Some? && input.name.Some? && input.age.Some? && input.department.Some?
      && IsValidEmployee(r.value)
      && r.value.employeeId == input.employeeId.value
      && r.value.name == Strip(input.name.value)
      && r.value.age == input.age.value
      && ToString(r.value.department) == input.department.value
    ensures r.Failure? ==> r.error != [] && ErrorFields(r.error) == CreateRejected(input)
  {
    var errors := CreateErrors(input);
    CreateRejectedEmpty(input);
    if errors == [] then
      Success(Employee(RequiredId(input.employeeId).value, RequiredName(input.name).value,
                       RequiredAge(input.age).value, RequiredDepartment(input.department).value))
    else Failure(errors)
  }

  /** Whether an update request's field is refused; an absent field never is. */
  predicate UpdateRejects(input: UpdateInput, f: FieldName) {
    match f
    case EmployeeIdField => false
    case NameField => input.name.Some? && !IsAcceptableName(input.name.value)
    case AgeField => input.age.Some? && !IsValidAge(input.age.value)
    case DepartmentField => input.department.Some? && Parse(input.department.value).None?
  }

  /** The refused fields of an update request, in declaration order. */
  function UpdateRejected(input: UpdateInput): seq<FieldName> {
    Flag(NameField, UpdateRejects(input, NameField))
    + Flag(AgeField, UpdateRejects(input, AgeField))
    + Flag(DepartmentField, UpdateRejects(input, DepartmentField))
  }

  /** An optional field: absent stays absent, present is checked. */
  function OptionalName(v: Option<string>): (r: Result<Option<string>, ErrorKind>)
    ensures r.Success? <==> (v.Some? ==> IsAcceptableName(v.value))
    ensures r.Success? ==> (r.value.Some? <==> v.Some?)
    ensures r.Success? && v.Some? ==> r.value.value == Strip(v.value) && IsCleanName(r.value.value)
  {
    if v.None? then Success(None)
    else match ValidateName(v.value)
      case Success(n) => Success(Some(n))
      case Failure(e) => Failure(e)
  }
  function OptionalAge(v: Option<int>): (r: Result<Option<int>, ErrorKind>)
    ensures r.Success? <==> (v.Some? ==> IsValidAge(v.value))
    ensures r.Success? ==> r.value == v
  {
    if v.None? then Success(None)
    else match ValidateAge(v.value)
      case Success(a) => Success(Some(a))
      case Failure(e) => Failure(e)
  }
  function OptionalDepartment(v: Option<string>): (r: Result<Option<Department>, ErrorKind>)
    ensures r.Success? <==> (v.Some? ==> Parse(v.value).Some?)
    ensures r.Success? ==> (r.value.Some? <==> v.Some?)
    ensures r.Success? && v.Some? ==> ToString(r.value.value) == v.value
  {
    if v.None? then Success(None)
    else match ValidateDepartment(v.value)
      case Success(d) => Success(Some(d))
      case Failure(e) => Failure(e)
  }

  /** Every error of an update request, field by field in declaration order. */
  function UpdateErrors(input: UpdateInput): (errs: seq<FieldError>)
    ensures ErrorFields(errs) == UpdateRejected(input)
  {
    var name := OptionalName(input.name);
    var age := OptionalAge(input.age);
    var dept := OptionalDepartment(input.department);
    var e1, e2, e3 := ErrorsOf(NameField, name), ErrorsOf(AgeField, age), ErrorsOf(DepartmentField, dept);
    assert ErrorFields(e1) == Flag(NameField, UpdateRejects(input, NameField)) by {
      ErrorFieldsOf(NameField, name);
    }
    assert ErrorFields(e2) == Flag(AgeField, UpdateRejects(input, AgeField)) by {
      ErrorFieldsOf(AgeField, age);
    }
    assert ErrorFields(e3) == Flag(DepartmentField, UpdateRejects(input, DepartmentField)) by {
      ErrorFieldsOf(DepartmentField, dept);
    }
    ErrorFieldsConcat(e1, e2);
    ErrorFieldsConcat(e1 + e2, e3);
    e1 + e2 + e3
  }

  /**
   * `EmployeeUpdate`: every field is optional; a present field obeys the same
   * constraints and cleaning as on create. The body's `employeeId`, if any, is
   * an unknown field and is dropped.
   */
  function ValidateUpdate(input: UpdateInput): (r: Result<EmployeeUpdate, seq<FieldError>>)
    ensures r.Success? <==> forall f :: !UpdateRejects(input, f)
    ensures r.Success? ==>
      && IsValidUpdate(r.value)
      && (r.value.name.Some? <==> input.name.Some?)
      && (r.value.name.Some? ==> r.value.name.value == Strip(input.name.value))
      && r.value.age == input.age
      && (r.value.department.Some? <==> input.department.Some?)
      && (r.value.department.Some? ==> ToString(r.value.department.value) == input.department.value)
    ensures r.Failure? ==> r.error != [] && ErrorFields(r.error) == UpdateRejected(input)
  {
    var errors := UpdateErrors(input);
    if errors == [] then
      assert UpdateRejected(input) == [];
      Success(EmployeeUpdate(OptionalName(input.name).value, OptionalAge(input.age).value,
                             OptionalDepartment(input.department).value))
    else Failure(errors)
  }

  /** A validated update does not depend on any `employeeId` in the body. */
  lemma UpdateIgnoresEmployeeId(input: UpdateInput, id: Option<string>)
    ensures ValidateUpdate(input.(employeeId := id)) == ValidateUpdate(input)
  {
  }

  /** An update body with no fields validates, to the empty update. */
  lemma EmptyUpdateValidates(id: Option<string>)
    ensures ValidateUpdate(UpdateInput(id, None, None, None)) == Success(EmployeeUpdate(None, None, None))
  {
  }
}
