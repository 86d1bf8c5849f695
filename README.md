# Employee management API: validation and CRUD core

A Dafny model of the core of a small employee-records service. The service
validates employee data, keeps one record per `employee_id`, and serves
paginated and filterable reads. The model covers two parts:

- **Validation** (`employee_model.dfy`, module `EmployeeModel`). This is the
  closed ten-label `Department` enum with its labels and their parsing. It
  also holds the field constraints of a create body (`EmployeeCreate`) and of
  a partial-update body (`EmployeeUpdate`), including the name cleaning. All
  of it is pure functions and lemmas over strings and integers.
- **The employee endpoints** (`employees_router.dfy`, module `EmployeeRouter`).
  The document collection becomes an in-memory, insertion-ordered
  `seq<Employee>` held by the class `EmployeeStore`. Its invariant is that
  `employee_id` is unique and every record is valid. Create, update and
  delete are methods that change that sequence. Get, list, paging and the
  department listing are functions over it. Each operation ends in an
  `Outcome`: `Ok`, `NotFound`, `Conflict`, `NoFieldsProvided` or
  `InternalError`.
- `wrappers.dfy` holds the shared `Option` and `Result` types.

Points where the model follows the code closely:

- **Name length is checked on the raw string.** The `min_length=2,
  max_length=100` bounds are applied first, and the validator then strips the
  value and rejects an empty result. So `"  a  "` is accepted and stored as
  `"a"`, the bare `"a"` is rejected as too short, and `"   "` passes the
  length check but fails as blank. A stored name can therefore be a single
  character, and `ValidateNameIdempotent` needs the cleaned name to still be
  two characters long.
- **Whitespace** is exactly the set of characters Python's `str.isspace`
  accepts, so `Strip` is `str.strip()` with no argument.
- **The id pattern** `^[A-Za-z0-9_-]+$` is read as anchored at both ends of
  the text, with no allowance for a trailing newline. That is how pydantic 2's
  default regex engine reads it.
- **Request validation comes before the handler.** A body or query that fails
  validation is refused before the handler runs. An invalid update body is
  therefore refused even when the id does not exist. Among the outcomes the
  handler produces, `NotFound` comes before `NoFieldsProvided`
  (`EmployeeStore.HandleUpdate`).
- **An `employee_id` in an update body** is an unknown field, which the
  validation ignores (`UpdateIgnoresEmployeeId`).
- **Records hold only the four response fields.** `Employee` has exactly
  `employeeId`, `name`, `age` and `department`. The store's internal `_id` is
  never part of a record, so no returned value can carry it.
- **List order is a choice of the model.** The listing sends no sort key, so
  the store promises no order. The model fixes insertion order
  (`FilterAppend`, `PageOf`).

## Model

| member | source | states |
|---|---|---|
| `EmployeeModel.ToString` | app/models/employee.py:34-43 | every department label is non-empty and has no leading or trailing whitespace |
| `EmployeeModel.Parse` | app/models/employee.py:20-43 | a string that parses is the label of the department it parses to |
| `EmployeeModel.ParseToString` | app/models/employee.py:34-43 | every department's label parses back to that department |
| `EmployeeModel.ParseIff` | app/models/employee.py:20-43 | a string parses to a department exactly when it is that department's label |
| `EmployeeModel.ParseRejectsNonLabels` | app/models/employee.py:20-43 | a string fails to parse exactly when it is no department's label |
| `EmployeeModel.ToStringInjective` | app/models/employee.py:34-43 | the ten labels are pairwise distinct |
| `EmployeeModel.ParseTypoExample` | app/models/employee.py:27-28 | "Engneering" is refused and "Engineering" is accepted |
| `EmployeeModel.AllDepartmentsEnumerates` | app/models/employee.py:34-43 | there are exactly ten departments, each listed once, and every department is among them |
| `EmployeeModel.MatchesIdPatternIff` | app/models/employee.py:65 | the anchored id pattern matches exactly the non-empty strings of letters, digits, `_` and `-` |
| `EmployeeModel.ValidateId` | app/models/employee.py:61-68 | an id is accepted iff its length is 1–50 and every character is in the class; it is kept unchanged; a too-short or too-long id is reported as such before the pattern is checked |
| `EmployeeModel.Strip` | app/models/employee.py:113 | the result has no leading or trailing whitespace and is no longer than the input |
| `EmployeeModel.StripDecomposes` | app/models/employee.py:113 | stripping removes only a whitespace prefix and a whitespace suffix |
| `EmployeeModel.StripCharacterized` | app/models/employee.py:113 | a whitespace prefix plus a string without outer whitespace plus a whitespace suffix strips to that string |
| `EmployeeModel.StripIdempotent` | app/models/employee.py:113 | stripping twice is stripping once |
| `EmployeeModel.StripEmptyIff` | app/models/employee.py:113-115 | the stripped name is empty exactly when the raw name is whitespace only |
| `EmployeeModel.ValidateName` | app/models/employee.py:71-116 | a name is accepted iff its raw length is 2–100 and it is not whitespace only; the stored value is exactly the stripped string, which has no outer whitespace; each error kind holds exactly under its own condition |
| `EmployeeModel.ValidateNameIdempotent` | app/models/employee.py:95-116 | validating an accepted name's cleaned value again gives the same result, as long as that value still has two characters |
| `EmployeeModel.CleanNamesAreReachable` | app/models/employee.py:95-116 | every non-empty name of at most 100 characters without outer whitespace is the stored value of some accepted raw name |
| `EmployeeModel.NameOrderExamples` | app/models/employee.py:71-116 | `"  a  "` is stored as `"a"`, `"a"` is too short, `"   "` is blank, and `"  Jane  "` is stored as `"Jane"` |
| `EmployeeModel.ValidateAge` | app/models/employee.py:80-86 | an age is accepted iff 18 ≤ age ≤ 100, unchanged; below 18 is too small and above 100 too large |
| `EmployeeModel.AgeBoundaryExamples` | app/models/employee.py:80-86 | 17 and 101 are refused; 18 and 100 are accepted |
| `EmployeeModel.ValidateDepartment` | app/models/employee.py:88-93 | a department string is accepted iff it is some department's label, and it becomes that department |
| `EmployeeModel.CreateRejectedEmpty` | app/models/employee.py:46-140 | no field of a create body is refused exactly when the list of refused fields is empty |
| `EmployeeModel.ValidateCreate` | app/models/employee.py:46-140 | a create body is accepted iff all four fields are present and each satisfies its constraints; the record then holds the id, the stripped name, the age and the named department, and is valid; otherwise every refused field is reported once, in declaration order |
| `EmployeeModel.ValidateUpdate` | app/models/employee.py:143-184 | an update body is accepted iff every present field satisfies the same constraints as on create; an absent field stays absent; a present name is stored stripped; otherwise every refused field is reported once, in declaration order |
| `EmployeeModel.UpdateIgnoresEmployeeId` | app/models/employee.py:143-151 | an `employee_id` in an update body has no effect on the validated update |
| `EmployeeModel.EmptyUpdateValidates` | app/models/employee.py:154-173 | a body with no fields validates to the update that sets nothing |
| `EmployeeRouter.FindFirst` | app/routers/employees.py:242-245 | finds a position exactly when some record has the id, and that position is the first record with it |
| `EmployeeRouter.FindFirstUnique` | app/routers/employees.py:242-245 | with unique ids, the id of the record at position i is found at i |
| `EmployeeRouter.GetEmployee` | app/routers/employees.py:242-255 | returns `Ok` with a stored record carrying the id exactly when one exists, otherwise `NotFound`, and nothing else |
| `EmployeeRouter.GetStored` | app/routers/employees.py:242-255 | with unique ids, getting a stored record's id returns that record |
| `EmployeeRouter.ValidateListQuery` | app/routers/employees.py:137-152 | the query is accepted iff page ≥ 1, 1 ≤ limit ≤ 100 and any department is a label, with defaults page 1 and limit 10; otherwise every refused parameter is reported once, in page, limit, department order |
| `EmployeeRouter.Matches` | app/routers/employees.py:175-177 | with no department filter every record matches; with one, a record matches exactly when its department is the filter |
| `EmployeeRouter.Filter` | app/routers/employees.py:175-177 | every kept record matches the filter and is stored, and every stored matching record is kept |
| `EmployeeRouter.FilterNone` | app/routers/employees.py:175-177 | with no department filter every record is kept, in order |
| `EmployeeRouter.FilterAppend` | app/routers/employees.py:187-190 | records are listed in insertion order: a newly appended matching record comes after all earlier matches |
| `EmployeeRouter.Skip` | app/routers/employees.py:181 | page 1 skips nothing, and the skipped count plus one page's limit is page × limit |
| `EmployeeRouter.ListEmployees` | app/routers/employees.py:180-201 | `total_count` is the number of matching records; the page holds the matching records at positions [skip, min(skip+limit, n)), at most `limit` of them, none when skip ≥ n, each matching the filter; page and limit are echoed |
| `EmployeeRouter.TotalCountIgnoresPaging` | app/routers/employees.py:183-184 | `total_count` does not depend on page or limit |
| `EmployeeRouter.PageOf` | app/routers/employees.py:180-192 | the k-th matching record appears on page k/limit+1 at offset k mod limit |
| `EmployeeRouter.PaginationExample` | app/routers/employees.py:180-192 | over 25 matches with limit 10, pages 1 to 4 hold 10, 10, 5 and 0 records, and the total stays 25 |
| `EmployeeRouter.ListRequest` | app/routers/employees.py:137-201 | the list request is refused iff its query is invalid, with the query's errors; otherwise it succeeds with the listing of the validated query; with no filter the total is the whole collection's size |
| `EmployeeRouter.GetDepartments` | app/routers/employees.py:455-457 | ten labels, in declaration order, pairwise distinct, and they are exactly the strings that parse as departments |
| `EmployeeRouter.UpdateData` | app/routers/employees.py:316-323 | the `$set` document holds the name, age or department exactly when the update carries it, with the carried value, and never holds `employee_id` |
| `EmployeeRouter.UpdateDataEmptyIff` | app/routers/employees.py:316-332 | the `$set` document is empty exactly when the update sets no field |
| `EmployeeRouter.BuildUpdateData` | app/routers/employees.py:316-323 | the loop builds exactly the map from each update field whose value is not None to that value |
| `EmployeeRouter.SetFields` | app/routers/employees.py:336-340 | a `$set` never changes `employee_id` |
| `EmployeeRouter.ApplyUpdate` | app/routers/employees.py:316-340 | a partial update keeps `employee_id`, and an update setting nothing changes nothing |
| `EmployeeRouter.SetUpdateDataIsApplyUpdate` | app/routers/employees.py:316-340 | the built document is well typed, and `$set` of it overwrites exactly the fields the update carries |
| `EmployeeRouter.ApplyUpdateValid` | app/routers/employees.py:336-340 | a valid update of a valid record gives a valid record |
| `EmployeeRouter.ApplyUpdateIdempotent` | app/routers/employees.py:336-340 | applying the same update twice is applying it once |
| `EmployeeRouter.AppendNew` | app/routers/employees.py:86-100 | appending a record with a new id keeps ids unique, makes it retrievable by its id, and changes no other lookup |
| `EmployeeRouter.RemoveAt` | app/routers/employees.py:407 | removal drops exactly one position and keeps the other records in order |
| `EmployeeRouter.RemoveAtGone` | app/routers/employees.py:406-414 | after the removal ids are still unique, and the removed id is not found |
| `EmployeeRouter.ReplaceKeepsIds` | app/routers/employees.py:336-346 | replacing a record by one with the same id keeps ids unique, and the id then returns the new record |
| `EmployeeRouter.EmployeeStore.Create` | app/routers/employees.py:86-115 | a stored id gives `Conflict` with the collection unchanged; otherwise the record is appended, returned as given, and retrievable; ids stay unique |
| `EmployeeRouter.EmployeeStore.Update` | app/routers/employees.py:305-353 | an absent id gives `NotFound`, then an empty update gives `NoFieldsProvided`, both with the collection unchanged; otherwise only the target record changes, by the partial update, keeping its id, and the record read back is returned |
| `EmployeeRouter.EmployeeStore.Delete` | app/routers/employees.py:396-420 | an absent id gives `NotFound` with the collection unchanged; otherwise exactly that record is removed, the others keep their order, and the deleted id is returned; afterwards the id is not found |
| `EmployeeRouter.EmployeeStore.HandleCreate` | app/routers/employees.py:57-115 | an invalid body is refused with its field errors and changes nothing; a valid one is inserted or refused as a conflict |
| `EmployeeRouter.EmployeeStore.HandleUpdate` | app/routers/employees.py:278-353 | an invalid body is refused whether or not the id exists; then `NotFound` comes before `NoFieldsProvided`, and no other failure occurs; only a successful update changes the collection, by the partial update of the target record alone, and returns the record read back |
| `EmployeeRouter.CreateThenGet` | app/routers/employees.py:242-255 | after a successful create, getting its id returns the created record in all four fields |
| `EmployeeRouter.DeleteThenGet` | app/routers/employees.py:397-414 | after a delete, getting the id returns `NotFound` |

## Left out

- Store I/O. `insert_one`, `find`, `find_one`, `update_one`, `delete_one`,
  `count_documents` and cursors are replaced by the in-memory sequence.
- Store failures. The `inserted_id` falsy path, the `deleted_count != 1` path
  and every exception turned into a 500 are `InternalError`, which the
  in-memory store never produces. The error-message text, including the raw
  exception text, is transport formatting.
- Concurrency. This covers the duplicate-key race that the unique index
  resolves, the non-atomic check-then-write of update and delete, and
  last-writer-wins. The model is single-threaded, so uniqueness is one atomic
  membership check inside `Create`.
- The connection lifecycle (app/database.py). The check that the store is
  connected before the collection is handed out is not modelled. A store
  object exists only when connected. app/database.py is not part of this
  model.
- HTTP routing, status codes, `Depends` wiring, logging, configuration,
  application startup and the runner (app/main.py, app/config.py,
  app/utils/logger.py, run.py). These are plumbing. Status codes appear only
  as the `Outcome` and `Response` cases.
- List order: the source sends no sort key, so the store promises no order;
  the model fixes insertion order.
- Type coercion. Pydantic's lax conversion of input types, such as `"30"` to
  `30`, is not modelled. Fields arrive already typed, or absent.
- Error kinds. Each field reports one error kind. The exact pydantic error
  types and messages are not modelled.
- `EmployeeModel.ValidateNameIdempotent`: requires the cleaned name to have
  at least two characters. A cleaned name of one character, such as `"a"`
  from `"  a  "`, is rejected when validated again.
