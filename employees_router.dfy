/**
 * The employee endpoints (app/routers/employees.py) over an in-memory model of
 * the employee collection: the read-only queries are functions on the
 * insertion-ordered sequence of records, and the writes are methods of
 * `EmployeeStore`, which owns that sequence and keeps `employeeId` unique.
 */
module EmployeeRouter {
  import opened Wrappers
  import opened EmployeeModel

  // ---------------------------------------------------------------------------
  // Outcomes
  // ---------------------------------------------------------------------------

  /**
   * What an operation on the collection ends in. `Conflict` is the duplicate-id
   * 400 of create, `NoFieldsProvided` the empty-update 400, `NotFound` the 404.
   * `InternalError` stands for the store failures (500) and is never produced
   * by the in-memory store.
   */
  datatype Outcome<+T> = Ok(value: T) | NotFound | Conflict | NoFieldsProvided | InternalError

  /** A request whose body or query failed validation (errors of kind `E`) never reaches its handler. */
  datatype Response<+T, +E> = Invalid(errors: seq<E>) | Handled(outcome: Outcome<T>)

  // ---------------------------------------------------------------------------
  // The collection as a sequence
  // ---------------------------------------------------------------------------

  /** The unique index on `employee_id`: no two records share an id. */
  predicate UniqueIds(s: seq<Employee>) {
    forall i, j :: 0 <= i < j < |s| ==> s[i].employeeId != s[j].employeeId
  }

  /** Some record has this id. */
  predicate HasId(s: seq<Employee>, id: string) {
    exists k :: 0 <= k < |s| && s[k].employeeId == id
  }

  /** A well-formed collection: ids unique, every document a valid employee. */
  predicate ValidCollection(s: seq<Employee>) {
    UniqueIds(s) && forall k :: 0 <= k < |s| ==> IsValidEmployee(s[k])
  }

  /** The position of the first record with this id (`find_one({"employee_id": id})`). */
  function FindFirst(s: seq<Employee>, id: string): (r: Option<nat>)
    ensures r.Some? <==> HasId(s, id)
    ensures r.Some? ==> r.value < |s| && s[r.value].employeeId == id
    ensures r.Some? ==> forall k :: 0 <= k < r.value ==> s[k].employeeId != id
  {
    if s == [] then None
    else if s[0].employeeId == id then Some(0)
    else
      var rest := FindFirst(s[1..], id);
      assert forall k :: 1 <= k < |s| ==> s[k] == s[1..][k - 1];
      if rest.Some? then Some(rest.value + 1) else None
  }

  /** In a collection with unique ids, the record found for an id is the only one with it. */
  lemma FindFirstUnique(s: seq<Employee>, i: nat)
    requires UniqueIds(s) && i < |s|
    ensures FindFirst(s, s[i].employeeId) == Some(i)
  {
  }

  // ---------------------------------------------------------------------------
  // get_employee
  // ---------------------------------------------------------------------------

  /** `GET /employees/{id}`: the record with that id, or `NotFound`. */
  function GetEmployee(s: seq<Employee>, id: string): (r: Outcome<Employee>)
    ensures r.Ok? || r.NotFound?
    ensures r.Ok? <==> HasId(s, id)
    ensures r.Ok? ==> r.value in s && r.value.employeeId == id
  {
    match FindFirst(s, id)
    case Some(i) => Ok(s[i])
    case None => NotFound
  }

  /** With unique ids, looking up the id of any stored record returns that record. */
  lemma GetStored(s: seq<Employee>, e: Employee)
    requires UniqueIds(s) && e in s
    ensures GetEmployee(s, e.employeeId) == Ok(e)
  {
    var i :| 0 <= i < |s| && s[i] == e;
    FindFirstUnique(s, i);
  }

  // ---------------------------------------------------------------------------
  // get_all_employees: filter and pagination
  // ---------------------------------------------------------------------------

  /** The validated query of a list request. */
  datatype ListQuery = ListQuery(page: int, limit: int, department: Option<Department>)

  /** The list response: the matching total and one page of records. */
  datatype EmployeeList = EmployeeList(totalCount: nat, page: int, limit: int, employees: seq<Employee>)

  const DefaultPage := 1
  const DefaultLimit := 10
  const MaxLimit := 100

  /** The query parameters of a list request. */
  datatype QueryParam = PageParam | LimitParam | DepartmentParam

  /** Why a query parameter was refused. */
  datatype QueryError = QueryError(param: QueryParam, kind: ErrorKind)

  /** The parameters of a list of query errors, in order. */
  function ErrorParams(errs: seq<QueryError>): (ps: seq<QueryParam>)
    ensures |ps| == |errs| && forall k :: 0 <= k < |errs| ==> ps[k] == errs[k].param
  {
    seq(|errs|, k requires 0 <= k < |errs| => errs[k].param)
  }

  lemma ErrorParamsConcat(a: seq<QueryError>, b: seq<QueryError>)
    ensures ErrorParams(a + b) == ErrorParams(a) + ErrorParams(b)
  {
  }

  /** The `Query` bounds: `page >= 1`, `1 <= limit <= 100`, and a department label when given. */
  predicate IsValidListQuery(q: ListQuery) {
    q.page >= 1 && 1 <= q.limit <= MaxLimit
  }

  /**
   * Validation of the query parameters, absent ones taking their defaults
   * (page 1, limit 10, no department filter); every refused parameter is reported.
   */
  function ValidateListQuery(page: Option<int>, limit: Option<int>, department: Option<string>)
    : (r: Result<ListQuery, seq<QueryError>>)
    ensures r.Success? <==>
      && page.GetOr(DefaultPage) >= 1
      && 1 <= limit.GetOr(DefaultLimit) <= MaxLimit
      && (department.Some? ==> Parse(department.value).Some?)
    ensures r.Success? ==>
      && IsValidListQuery(r.value)
      && r.value.page == page.GetOr(DefaultPage) && r.value.limit == limit.GetOr(DefaultLimit)
      && (r.value.department.Some? <==> department.Some?)
      && (r.value.department.Some? ==> ToString(r.value.department.value) == department.value)
    ensures r.Failure? ==> r.error != []
    ensures r.Failure? ==>
      ErrorParams(r.error) ==
        Flag(PageParam, page.GetOr(DefaultPage) < 1)
        + Flag(LimitParam, !(1 <= limit.GetOr(DefaultLimit) <= MaxLimit))
        + Flag(DepartmentParam, department.Some? && Parse(department.value).None?)
  {
    var p := page.GetOr(DefaultPage);
    var l := limit.GetOr(DefaultLimit);
    var pageErrors := if p < 1 then [QueryError(PageParam, TooSmall)] else [];
    var limitErrors :=
      if l < 1 then [QueryError(LimitParam, TooSmall)]
      else if l > MaxLimit then [QueryError(LimitParam, TooLarge)]
      else [];
    var dept := if department.None? then Success(None)
                else match Parse(department.value)
                  case Some(d) => Success(Some(d))
                  case None => Failure(NotAMember);
    var deptErrors := if dept.Failure? then [QueryError(DepartmentParam, dept.error)] else [];
    var errors := pageErrors + limitErrors + deptErrors;
    ErrorParamsConcat(pageErrors, limitErrors);
    ErrorParamsConcat(pageErrors + limitErrors, deptErrors);
    if errors == [] then Success(ListQuery(p, l, dept.value)) else Failure(errors)
  }

  /** Whether a record satisfies the optional department filter. */
  predicate Matches(e: Employee, department: Option<Department>): (b: bool)
    ensures department.None? ==> b
    ensures department.Some? ==> (b <==> e.department == department.value)
  {
    department.None? || e.department == department.value
  }

  /** The records matching the filter, in collection order. */
  function Filter(s: seq<Employee>, department: Option<Department>): (r: seq<Employee>)
    ensures |r| <= |s|
    ensures forall k :: 0 <= k < |r| ==> Matches(r[k], department) && r[k] in s
    ensures forall e :: e in s && Matches(e, department) ==> e in r
  {
    if s == [] then []
    else
      var rest := Filter(s[1..], department);
      assert forall e :: e in s ==> e == s[0] || e in s[1..];
      if Matches(s[0], department) then [s[0]] + rest else rest
  }

  /** Without a department filter every record is listed, in order. */
  lemma {:induction false} FilterNone(s: seq<Employee>)
    ensures Filter(s, None) == s
  {
    if s != [] {
      FilterNone(s[1..]);
    }
  }

  /** Filtering a longer collection keeps the earlier records' matches as a prefix. */
  lemma {:induction false} FilterAppend(s: seq<Employee>, e: Employee, department: Option<Department>)
    ensures Filter(s + [e], department) == Filter(s, department) + (if Matches(e, department) then [e] else [])
  {
    if s != [] {
      assert (s + [e])[1..] == s[1..] + [e];
      FilterAppend(s[1..], e, department);
    }
  }

  /** The number of records skipped before page `page`. */
  function Skip(q: ListQuery): (n: nat)
    requires IsValidListQuery(q)
    ensures q.page == 1 ==> n == 0
    ensures n + q.limit == q.page * q.limit
  {
    (q.page - 1) * q.limit
  }

  /**
   * `GET /employees`: `total_count` counts every matching record; the page holds
   * the matching records at positions `skip` up to `skip + limit`, cut at the end.
   */
  function ListEmployees(s: seq<Employee>, q: ListQuery): (r: EmployeeList)
    requires IsValidListQuery(q)
    ensures r.page == q.page && r.limit == q.limit
    ensures r.totalCount == |Filter(s, q.department)|
    ensures |r.employees| <= q.limit
    ensures Skip(q) >= r.totalCount ==> r.employees == []
    ensures Skip(q) < r.totalCount ==> |r.employees| == if Skip(q) + q.limit <= r.totalCount then q.limit else r.totalCount - Skip(q)
    ensures forall k :: 0 <= k < |r.employees| ==> r.employees[k] == Filter(s, q.department)[Skip(q) + k]
    ensures forall k :: 0 <= k < |r.employees| ==> Matches(r.employees[k], q.department)
  {
    var matching := Filter(s, q.department);
    var skip := Skip(q);
    var start := if skip < |matching| then skip else |matching|;
    var end := if skip + q.limit < |matching| then skip + q.limit else |matching|;
    EmployeeList(|matching|, q.page, q.limit, matching[start..end])
  }

  /** The total does not depend on which page is asked for, nor on its size. */
  lemma TotalCountIgnoresPaging(s: seq<Employee>, q1: ListQuery, q2: ListQuery)
    requires IsValidListQuery(q1) && IsValidListQuery(q2)
    requires q1.department == q2.department
    ensures ListEmployees(s, q1).totalCount == ListEmployees(s, q2).totalCount
  {
  }

  /** Each matching record is listed on exactly one page, at its offset within it. */
  lemma PageOf(s: seq<Employee>, department: Option<Department>, limit: int, k: nat)
    requires 1 <= limit <= MaxLimit && k < |Filter(s, department)|
    ensures var q := ListQuery(k / limit + 1, limit, department);
      k % limit < |ListEmployees(s, q).employees|
      && ListEmployees(s, q).employees[k % limit] == Filter(s, department)[k]
  {
    var q := ListQuery(k / limit + 1, limit, department);
    PageOffset(k, limit, department);
    var r := ListEmployees(s, q);
    assert Skip(q) < r.totalCount;
  }

  /** Page k/limit+1 starts k mod limit records before the k-th. */
  lemma PageOffset(k: nat, limit: int, department: Option<Department>)
    requires 1 <= limit <= MaxLimit
    ensures IsValidListQuery(ListQuery(k / limit + 1, limit, department))
    ensures Skip(ListQuery(k / limit + 1, limit, department)) + k % limit == k
    ensures k % limit < limit
  {
    var p := k / limit;
    assert k == p * limit + k % limit;
    assert Skip(ListQuery(p + 1, limit, department)) == p * limit;
  }

  /** Over 25 matching records and pages of ten: 10, 10, 5, then nothing, the total always 25. */
  lemma PaginationExample(s: seq<Employee>, department: Option<Department>)
    requires |Filter(s, department)| == 25
    ensures |ListEmployees(s, ListQuery(1, 10, department)).employees| == 10
    ensures |ListEmployees(s, ListQuery(2, 10, department)).employees| == 10
    ensures |ListEmployees(s, ListQuery(3, 10, department)).employees| == 5
    ensures ListEmployees(s, ListQuery(4, 10, department)).employees == []
    ensures ListEmployees(s, ListQuery(4, 10, department)).totalCount == 25
  {
    assert Skip(ListQuery(3, 10, department)) == 20;
    assert Skip(ListQuery(4, 10, department)) == 30;
  }

  /** The list endpoint as a whole: query validation, then the listing. */
  function ListRequest(s: seq<Employee>, page: Option<int>, limit: Option<int>, department: Option<string>)
    : (r: Response<EmployeeList, QueryError>)
    ensures r.Invalid? <==> ValidateListQuery(page, limit, department).Failure?
    ensures r.Invalid? ==> r.errors == ValidateListQuery(page, limit, department).error
    ensures r.Handled? ==> r.outcome.Ok?
    ensures r.Handled? ==> r.outcome.value == ListEmployees(s, ValidateListQuery(page, limit, department).value)
    ensures r.Handled? && department.None? ==> r.outcome.value.totalCount == |s|
  {
    match ValidateListQuery(page, limit, department)
    case Failure(errs) => Invalid(errs)
    case Success(q) =>
      FilterNone(s);
      Handled(Ok(ListEmployees(s, q)))
  }

  // ---------------------------------------------------------------------------
  // get_departments
  // ---------------------------------------------------------------------------

  /** `GET /employees/meta/departments`: every label, in declaration order. */
  function GetDepartments(): (r: seq<string>)
    ensures |r| == |AllDepartments| == 10
    ensures forall i :: 0 <= i < |r| ==> r[i] == ToString(AllDepartments[i])
    ensures forall i, j :: 0 <= i < j < |r| ==> r[i] != r[j]
    ensures forall s :: s in r <==> Parse(s).Some?
  {
    var r := seq(|AllDepartments|, i requires 0 <= i < |AllDepartments| => ToString(AllDepartments[i]));
    LabelsDistinct(r);
    LabelsAreParseable(r);
    r
  }

  lemma LabelsDistinct(r: seq<string>)
    requires |r| == |AllDepartments|
    requires forall i :: 0 <= i < |r| ==> r[i] == ToString(AllDepartments[i])
    ensures forall i, j :: 0 <= i < j < |r| ==> r[i] != r[j]
  {
    forall i, j | 0 <= i < j < |r| ensures r[i] != r[j] {
      ToStringInjective(AllDepartments[i], AllDepartments[j]);
    }
  }

  lemma LabelsAreParseable(r: seq<string>)
    requires |r| == |AllDepartments|
    requires forall i :: 0 <= i < |r| ==> r[i] == ToString(AllDepartments[i])
    ensures forall s :: s in r <==> Parse(s).Some?
  {
    forall s ensures s in r <==> Parse(s).Some? {
      if s in r {
        var i :| 0 <= i < |r| && r[i] == s;
        ParseToString(AllDepartments[i]);
      }
      if Parse(s).Some? {
        var d := Parse(s).value;
        AllDepartmentsEnumerates(d);
        var i :| 0 <= i < |AllDepartments| && AllDepartments[i] == d;
        assert r[i] == s;
      }
    }
  }

  // ---------------------------------------------------------------------------
  // update_employee: the `$set` document and the merge
  // ---------------------------------------------------------------------------

  /** A value of the `$set` document, as stored (a department by its label's enum member). */
  datatype FieldValue = NameValue(name: string) | AgeValue(age: int) | DepartmentValue(department: Department)

  /** The fields of an update, in the order `model_dump()` lists them. */
  const UpdateFields: seq<FieldName> := [NameField, AgeField, DepartmentField]

  /** The value `model_dump()` gives a field of the update (`None` when unset). */
  function Dumped(u: EmployeeUpdate, f: FieldName): Option<FieldValue> {
    match f
    case NameField => if u.name.Some? then Some(NameValue(u.name.value)) else None
    case AgeField => if u.age.Some? then Some(AgeValue(u.age.value)) else None
    case DepartmentField => if u.department.Some? then Some(DepartmentValue(u.department.value)) else None
    case EmployeeIdField => None
  }

  /** The `$set` document: each dumped field whose value is not `None`. */
  function UpdateData(u: EmployeeUpdate): (data: map<FieldName, FieldValue>)
    ensures NameField in data <==> u.name.Some?
    ensures AgeField in data <==> u.age.Some?
    ensures DepartmentField in data <==> u.department.Some?
    ensures EmployeeIdField !in data
    ensures NameField in data ==> data[NameField] == NameValue(u.name.value)
    ensures AgeField in data ==> data[AgeField] == AgeValue(u.age.value)
    ensures DepartmentField in data ==> data[DepartmentField] == DepartmentValue(u.department.value)
  {
    map f | f in UpdateFields && Dumped(u, f).Some? :: Dumped(u, f).value
  }

  /** The document is empty exactly when the update sets no field. */
  lemma UpdateDataEmptyIff(u: EmployeeUpdate)
    ensures UpdateData(u) == map[] <==> IsEmptyUpdate(u)
  {
  }

  /** The document names only update fields, never `employee_id`, each with a value of its own kind. */
  predicate WellTyped(data: map<FieldName, FieldValue>) {
    && EmployeeIdField !in data
    && (NameField in data ==> data[NameField].NameValue?)
    && (AgeField in data ==> data[AgeField].AgeValue?)
    && (DepartmentField in data ==> data[DepartmentField].DepartmentValue?)
  }

  /** Building `update_data` field by field, keeping the values that are not `None`. */
  method BuildUpdateData(u: EmployeeUpdate) returns (data: map<FieldName, FieldValue>)
    ensures data == UpdateData(u)
  {
    data := map[];
    var i := 0;
    while i < |UpdateFields|
      invariant 0 <= i <= |UpdateFields|
      invariant data == map f | f in UpdateFields[..i] && Dumped(u, f).Some? :: Dumped(u, f).value
    {
      var f := UpdateFields[i];
      assert UpdateFields[..i + 1] == UpdateFields[..i] + [f];
      var value := Dumped(u, f);
      if value.Some? {
        data := data[f := value.value];
      }
      i := i + 1;
    }
    assert UpdateFields[..i] == UpdateFields;
  }

  /** `$set`: each field named in the document takes its value; every other field is kept. */
  function SetFields(e: Employee, data: map<FieldName, FieldValue>): (r: Employee)
    requires WellTyped(data)
    ensures r.employeeId == e.employeeId
  {
    Employee(
      e.employeeId,
      if NameField in data then data[NameField].name else e.name,
      if AgeField in data then data[AgeField].age else e.age,
      if DepartmentField in data then data[DepartmentField].department else e.department)
  }

  /** The partial update a PATCH means: every field the update carries overwrites, the rest stay. */
  function ApplyUpdate(e: Employee, u: EmployeeUpdate): (r: Employee)
    ensures r.employeeId == e.employeeId
    ensures IsEmptyUpdate(u) ==> r == e
  {
    Employee(e.employeeId, u.name.GetOr(e.name), u.age.GetOr(e.age), u.department.GetOr(e.department))
  }

  /** `$set` of the built document is exactly the partial update. */
  lemma SetUpdateDataIsApplyUpdate(e: Employee, u: EmployeeUpdate)
    ensures WellTyped(UpdateData(u))
    ensures SetFields(e, UpdateData(u)) == ApplyUpdate(e, u)
  {
    var data := UpdateData(u);
    assert NameField in data <==> u.name.Some?;
    assert AgeField in data <==> u.age.Some?;
    assert DepartmentField in data <==> u.department.Some?;
  }

  /** A valid update of a valid record is a valid record. */
  lemma ApplyUpdateValid(e: Employee, u: EmployeeUpdate)
    requires IsValidEmployee(e) && IsValidUpdate(u)
    ensures IsValidEmployee(ApplyUpdate(e, u))
  {
  }

  /** Applying the same update twice is applying it once. */
  lemma ApplyUpdateIdempotent(e: Employee, u: EmployeeUpdate)
    ensures ApplyUpdate(ApplyUpdate(e, u), u) == ApplyUpdate(e, u)
  {
  }

  // ---------------------------------------------------------------------------
  // Facts about the collection that the store's methods rely on
  // ---------------------------------------------------------------------------

  /** Appending a record whose id is new keeps ids unique and makes the record findable. */
  lemma AppendNew(s: seq<Employee>, e: Employee)
    requires UniqueIds(s) && !HasId(s, e.employeeId)
    ensures UniqueIds(s + [e])
    ensures GetEmployee(s + [e], e.employeeId) == Ok(e)
    ensures forall id :: id != e.employeeId ==> GetEmployee(s + [e], id) == GetEmployee(s, id)
  {
    var t := s + [e];
    assert t[|s|] == e;
    GetStored(t, e);
    forall id | id != e.employeeId ensures GetEmployee(t, id) == GetEmployee(s, id) {
      if HasId(s, id) {
        var i := FindFirst(s, id).value;
        assert t[i] == s[i];
        FindFirstUnique(s, i);
        FindFirstUnique(t, i);
      } else {
        assert !HasId(t, id);
      }
    }
  }

  /** The collection with the record at `i` removed, the others kept in order. */
  function RemoveAt(s: seq<Employee>, i: nat): (r: seq<Employee>)
    requires i < |s|
    ensures |r| == |s| - 1
    ensures forall k :: 0 <= k < i ==> r[k] == s[k]
    ensures forall k :: i <= k < |r| ==> r[k] == s[k + 1]
  {
    s[..i] + s[i + 1..]
  }

  /** Removing a record keeps ids unique, and its id is then gone. */
  lemma RemoveAtGone(s: seq<Employee>, i: nat)
    requires UniqueIds(s) && i < |s|
    ensures UniqueIds(RemoveAt(s, i))
    ensures !HasId(RemoveAt(s, i), s[i].employeeId)
    ensures GetEmployee(RemoveAt(s, i), s[i].employeeId) == NotFound
  {
    var r := RemoveAt(s, i);
    forall k | 0 <= k < |r| ensures r[k].employeeId != s[i].employeeId {
      if k < i { assert r[k] == s[k]; } else { assert r[k] == s[k + 1]; }
    }
  }

  /** Replacing a record by one with the same id keeps ids unique. */
  lemma ReplaceKeepsIds(s: seq<Employee>, i: nat, e: Employee)
    requires UniqueIds(s) && i < |s| && e.employeeId == s[i].employeeId
    ensures UniqueIds(s[i := e])
    ensures GetEmployee(s[i := e], e.employeeId) == Ok(e)
  {
    var t := s[i := e];
    forall a, b | 0 <= a < b < |t| ensures t[a].employeeId != t[b].employeeId {
      assert t[a].employeeId == s[a].employeeId && t[b].employeeId == s[b].employeeId;
    }
    assert t[i] == e;
    GetStored(t, e);
  }

  // ---------------------------------------------------------------------------
  // The store
  // ---------------------------------------------------------------------------

  /** The employee collection, in insertion order, with its unique index on `employee_id`. */
  class EmployeeStore {
    var records: seq<Employee>

    ghost predicate Valid()
      reads this
    {
      ValidCollection(records)
    }

    /** An empty collection. */
    constructor ()
      ensures Valid() && records == []
    {
      records := [];
    }

    /**
     * `POST /employees`: the insert and the unique index together are one atomic
     * step. An id already stored is a `Conflict` and changes nothing; otherwise
     * the record is appended and returned as stored.
     */
    method Create(e: Employee) returns (out: Outcome<Employee>)
      requires Valid() && IsValidEmployee(e)
      modifies this
      ensures Valid()
      ensures out.Ok? || out.Conflict?
      ensures out.Conflict? <==> HasId(old(records), e.employeeId)
      ensures out.Conflict? ==> records == old(records)
      ensures out.Ok? ==> out.value == e && records == old(records) + [e]
      ensures out.Ok? ==> GetEmployee(records, e.employeeId) == Ok(e)
    {
      if FindFirst(records, e.employeeId).Some? {
        out := Conflict;
      } else {
        AppendNew(records, e);
        records := records + [e];
        out := Ok(e);
      }
    }

    /**
     * `PATCH /employees/{id}`: the existence check comes first (`NotFound`), then
     * the empty-update check (`NoFieldsProvided`), both leaving the collection as
     * it was; otherwise the fields the update carries overwrite the record's,
     * nothing else changes, and the record is read back.
     */
    method Update(id: string, u: EmployeeUpdate) returns (out: Outcome<Employee>)
      requires Valid() && IsValidUpdate(u)
      modifies this
      ensures Valid()
      ensures out.Ok? || out.NotFound? || out.NoFieldsProvided?
      ensures out.NotFound? <==> !HasId(old(records), id)
      ensures out.NoFieldsProvided? <==> HasId(old(records), id) && IsEmptyUpdate(u)
      ensures !out.Ok? ==> records == old(records)
      ensures out.Ok? ==>
        var i := FindFirst(old(records), id).value;
        && records == old(records)[i := ApplyUpdate(old(records)[i], u)]
        && out.value == records[i]
        && out.value.employeeId == id
    {
      var found := FindFirst(records, id);
      if found.None? {
        return NotFound;
      }
      var i := found.value;
      var data := BuildUpdateData(u);
      UpdateDataEmptyIff(u);
      if data == map[] {
        return NoFieldsProvided;
      }
      SetUpdateDataIsApplyUpdate(records[i], u);
      ApplyUpdateValid(records[i], u);
      var updated := SetFields(records[i], data);
      ReplaceKeepsIds(records, i, updated);
      records := records[i := updated];
      out := GetEmployee(records, id);
    }

    /**
     * `DELETE /employees/{id}`: `NotFound` leaves the collection as it was;
     * otherwise exactly that record goes, the others keep their order, and the
     * deleted id is returned.
     */
    method Delete(id: string) returns (out: Outcome<string>)
      requires Valid()
      modifies this
      ensures Valid()
      ensures out.Ok? || out.NotFound?
      ensures out.NotFound? <==> !HasId(old(records), id)
      ensures out.NotFound? ==> records == old(records)
      ensures out.Ok? ==> out.value == id && records == RemoveAt(old(records), FindFirst(old(records), id).value)
      ensures GetEmployee(records, id) == NotFound
    {
      var found := FindFirst(records, id);
      if found.None? {
        return NotFound;
      }
      var i := found.value;
      RemoveAtGone(records, i);
      records := RemoveAt(records, i);
      out := Ok(id);
    }

    /** `POST /employees` as a whole: the body is validated before the insert is tried. */
    method HandleCreate(input: EmployeeInput) returns (resp: Response<Employee, FieldError>)
      requires Valid()
      modifies this
      ensures Valid()
      ensures resp.Invalid? <==> ValidateCreate(input).Failure?
      ensures resp.Invalid? ==> resp.errors == ValidateCreate(input).error && records == old(records)
      ensures resp.Handled? ==>
        var e := ValidateCreate(input).value;
        && (resp.outcome.Ok? || resp.outcome.Conflict?)
        && (resp.outcome.Conflict? <==> HasId(old(records), e.employeeId))
        && (resp.outcome.Conflict? ==> records == old(records))
        && (resp.outcome.Ok? ==> resp.outcome.value == e && records == old(records) + [e])
    {
      match ValidateCreate(input)
      case Failure(errs) =>
        resp := Invalid(errs);
      case Success(e) =>
        var out := Create(e);
        resp := Handled(out);
    }

    /**
     * `PATCH /employees/{id}` as a whole. The body is validated before the
     * handler runs, so an invalid body is refused whether or not the id exists;
     * then `NotFound` takes precedence over `NoFieldsProvided`.
     */
    method HandleUpdate(id: string, input: UpdateInput) returns (resp: Response<Employee, FieldError>)
      requires Valid()
      modifies this
      ensures Valid()
      ensures resp.Invalid? <==> ValidateUpdate(input).Failure?
      ensures resp.Invalid? ==> resp.errors == ValidateUpdate(input).error
      ensures resp.Handled? ==> resp.outcome.Ok? || resp.outcome.NotFound? || resp.outcome.NoFieldsProvided?
      ensures resp.Handled? ==> (resp.outcome.NotFound? <==> !HasId(old(records), id))
      ensures resp.Handled? ==>
        (resp.outcome.NoFieldsProvided? <==> HasId(old(records), id) && IsEmptyUpdate(ValidateUpdate(input).value))
      ensures !(resp.Handled? && resp.outcome.Ok?) ==> records == old(records)
      ensures resp.Handled? && resp.outcome.Ok? ==>
        var u := ValidateUpdate(input).value;
        var i := FindFirst(old(records), id).value;
        && records == old(records)[i := ApplyUpdate(old(records)[i], u)]
        && resp.outcome.value == records[i]
    {
      match ValidateUpdate(input)
      case Failure(errs) =>
        resp := Invalid(errs);
      case Success(u) =>
        var out := Update(id, u);
        resp := Handled(out);
    }
  }

  // ---------------------------------------------------------------------------
  // Round trips across operations
  // ---------------------------------------------------------------------------

  /** After a successful create, getting the id returns the created record in all four fields. */
  method CreateThenGet(store: EmployeeStore, e: Employee) returns (created: Outcome<Employee>, got: Outcome<Employee>)
    requires store.Valid() && IsValidEmployee(e)
    modifies store
    ensures created.Ok? <==> !HasId(old(store.records), e.employeeId)
    ensures created.Ok? ==> got == Ok(e)
  {
    created := store.Create(e);
    got := GetEmployee(store.records, e.employeeId);
  }

  /** After a delete, getting the id returns `NotFound`. */
  method DeleteThenGet(store: EmployeeStore, id: string) returns (deleted: Outcome<string>, got: Outcome<Employee>)
    requires store.Valid()
    modifies store
    ensures deleted.Ok? <==> HasId(old(store.records), id)
    ensures got == NotFound
  {
    deleted := store.Delete(id);
    got := GetEmployee(store.records, id);
  }
}
