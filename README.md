# Expense manager service layer, in Dafny

This project models the service layer of a small expense-management backend. The backend has
three entities: categories, departments and employees. Each has a service over a keyed store,
and every service has the same three operations:

- **find(id)** returns the stored record in transport form, or fails with `EntityNotFoundException(entity, id)`.
- **list()** returns every stored record in transport form, in store order.
- **save(dto)** upserts. An id of 0 creates a record under a fresh store-assigned id. A nonzero id
  must already be stored, and that record is then overwritten in place. Any other nonzero id
  fails with NotFound before anything is written.

Each service also has `parseResponse` and `parseRequest`, which copy fields one to one between a
stored record and its transport form (the DTO). An employee embeds its department, and the
employee converters hand that nested department to the department converters.

Modules:

- `Decimal` renders an `int` the way Java renders a `long` in string concatenation. It also
  proves that rendering can be read back and is injective.
- `Exceptions` holds `EntityNotFoundException`, its `Message()` text `"<entity> not found with ID <id>."`,
  and `Result<T> = Ok(value) | Err(error)`. `Result` stands in for the thrown exception.
- `Store` holds the persistence store: `Record<C>(id, columns)` and the class `Repository<C>`.
  The class has a `seq` of records with distinct positive ids and the next identity to hand out.
  It offers `FindById` (first match), `ExistsById`, `FindAll` and `Save` (insert-or-overwrite).
  Lemmas beside it say what a creation or an overwrite does to later lookups.
- `Categories`, `Departments` and `Employees` each hold the record and DTO datatypes, the two
  converters, and a service class over its `Repository`. `EmployeeService` also holds the
  `DepartmentService` it delegates to.
- `Scenarios` replays the service test fixtures (two stored categories, two stored employees)
  against the contracts.

Each service's `Save` is specified with two store-level predicates:

- `Created`: the table gains exactly one record at the end, with a fresh positive id and the
  input's columns.
- `Overwritten`: the record with the input's id is replaced in place, and every other record
  stays as it was.

`CreatedLookup` and `OverwrittenLookup` then prove two things. After the save, its id finds the
saved record, so the old values are gone. And no other id finds anything different.

Modelling decisions:

- Store-generated identity (`Department.java:13-16`) is split off as `Record.id`, so that one
  generic store serves all three entities. The other columns form an entity-specific datatype.
  DTOs are flat, exactly as declared in the `*DTO.java` files.
- Ids are unbounded `int`s. A negative id takes the update path, as in the source, because the
  only test is `id != 0`. The store never holds one, so such a save fails with NotFound.
- The converters are module-level functions, not service methods. In the source the category
  and department converters use no service state. The employee converters use the
  `departmentService` field, but only to call its converters, which are stateless. The model
  calls the department module's converter functions directly. `EmployeeService` keeps the
  `departmentService` field only so that `Save` can state that the department store is unchanged.
- Dependencies are constructor parameters, not framework injection.
- `DepartmentService.parseResponse` calls `DepartmentDTO.builder()`, but `DepartmentDTO.java`
  declares no `@Builder`. The model treats the call as the four-field copy it evidently means.
- `Category.java`, `Employee.java` and the three repository interfaces are not part of this
  model. The record shapes follow the constructors used in the service tests. From the
  repository stubs in those tests the model takes only two behaviours: first match on find,
  and any match on exists. The stubs return a constant list from find all and store nothing
  that save is given. The model's store is its own stateful table instead. Find all returns
  the live rows. Save inserts under a fresh store-generated identity (`Department.java:13-16`)
  or overwrites in place.

## Model

| member | source | states |
|---|---|---|
| `Decimal.NatToString` | src/main/java/com/wwerlang/expensemanager/exception/EntityNotFoundException.java:16 | the rendering of a natural number is a non-empty digit string with no leading zero; it is one digit exactly when the number is below ten |
| `Decimal.IntToString` | src/main/java/com/wwerlang/expensemanager/exception/EntityNotFoundException.java:16 | an id renders as a non-empty string that starts with '-' exactly when the id is negative |
| `Decimal.ValueOfNatToString` | src/main/java/com/wwerlang/expensemanager/exception/EntityNotFoundException.java:16 | the digits rendered for n denote n |
| `Decimal.NatToStringValueOf` | src/main/java/com/wwerlang/expensemanager/exception/EntityNotFoundException.java:16 | every canonical digit string is the rendering of the number it denotes (the converse round trip) |
| `Decimal.ParseIntToString` | src/main/java/com/wwerlang/expensemanager/exception/EntityNotFoundException.java:16 | reading back the rendering of any id, negative ones included, gives that id |
| `Decimal.IntToStringInjective` | src/main/java/com/wwerlang/expensemanager/exception/EntityNotFoundException.java:16 | distinct ids render as distinct strings |
| `Exceptions.EntityNotFoundException.Message` | src/main/java/com/wwerlang/expensemanager/exception/EntityNotFoundException.java:14-17 | the message starts with the entity name and ends with a full stop, and the text between " not found with ID " and the full stop is a numeral that reads back as the id |
| `Exceptions.MessageLayout` | src/main/java/com/wwerlang/expensemanager/exception/EntityNotFoundException.java:14-17 | the message is the entity name, then " not found with ID ", then the decimal id, then a full stop, with exactly that length |
| `Exceptions.MessageInjective` | src/main/java/com/wwerlang/expensemanager/exception/EntityNotFoundException.java:5-17 | for one-word entity names, equal messages come only from equal (entity, id) pairs: the message depends only on the two final fields and identifies both |
| `Exceptions.MessageDeterminesId` | src/main/java/com/wwerlang/expensemanager/exception/EntityNotFoundException.java:8-16 | for a fixed entity, the message determines the id |
| `Exceptions.CategoryMessageExample` | src/test/java/com/wwerlang/expensemanager/category/CategoryServiceTest.java:64-65 | ("Category", 3) gives "Category not found with ID 3." |
| `Exceptions.EmployeeMessageExample` | src/test/java/com/wwerlang/expensemanager/employee/EmployeeServiceTest.java:73-74 | ("Employee", 3) gives "Employee not found with ID 3." |
| `Exceptions.NegativeIdMessageExample` | src/main/java/com/wwerlang/expensemanager/exception/EntityNotFoundException.java:16 | a negative id keeps its minus sign: ("Department", -42) gives "Department not found with ID -42." |
| `Store.FirstIndex` | src/test/java/com/wwerlang/expensemanager/category/CategoryServiceTest.java:34-37 | the position found carries the id and no earlier record does; the table's length means the id is absent |
| `Store.LookupSpec` | src/test/java/com/wwerlang/expensemanager/category/CategoryServiceTest.java:34-50 | findById hits exactly when existsById holds, and then returns the first stored record with that id |
| `Store.LookupStored` | src/main/java/com/wwerlang/expensemanager/department/Department.java:13-16 | with distinct ids, a stored record's id finds that very record |
| `Store.StoredRecordUnique` | src/main/java/com/wwerlang/expensemanager/department/Department.java:13-16 | with distinct ids, at most one stored record carries a given id |
| `Store.MaxId` | src/main/java/com/wwerlang/expensemanager/department/Department.java:13-16 | bounds every stored id from above and is never negative, so the next generated identity is positive and fresh |
| `Store.CreatedLookup` | src/main/java/com/wwerlang/expensemanager/department/Department.java:13-16 | a creation keeps ids distinct, grows the table by one, makes the new record findable under its new id, and changes no other lookup |
| `Store.OverwrittenLookup` | src/main/java/com/wwerlang/expensemanager/department/Department.java:13-16 | an overwrite keeps ids distinct, makes the new record what its id finds (the old values are unrecoverable), and changes no other lookup |
| `Store.Repository.Seeded` | src/test/java/com/wwerlang/expensemanager/category/CategoryServiceTest.java:21-24 | a store preloaded with records of distinct positive ids is valid and hands out identities above all of them |
| `Store.Repository.FindById` | src/test/java/com/wwerlang/expensemanager/category/CategoryServiceTest.java:34-37 | returns a stored record carrying the id, and nothing exactly when no stored record carries it |
| `Store.Repository.ExistsById` | src/test/java/com/wwerlang/expensemanager/category/CategoryServiceTest.java:47-50 | holds exactly when FindById finds a record |
| `Store.Repository.FindAll` | src/main/java/com/wwerlang/expensemanager/category/CategoryService.java:30 | the stored records in store order; in a valid store their ids are distinct and positive |
| `Store.Repository.Save` | src/main/java/com/wwerlang/expensemanager/department/Department.java:13-16 | id 0: appends the record under a fresh positive id with its columns unchanged; stored id: replaces that record in place and returns it; the store stays valid |
| `Categories.CategoryService.Find` | src/main/java/com/wwerlang/expensemanager/category/CategoryService.java:17-26 | succeeds exactly when the id is stored; then the DTO carries that id and converts back to a stored record, field for field; otherwise the error is NotFound("Category", id) |
| `Categories.CategoryService.List` | src/main/java/com/wwerlang/expensemanager/category/CategoryService.java:28-32 | one DTO per stored record, in store order, each the conversion of the record at the same position |
| `Categories.CategoryService.Save` | src/main/java/com/wwerlang/expensemanager/category/CategoryService.java:34-45 | nonzero unstored id: NotFound("Category", id) and the store untouched; id 0: success, carrying a fresh positive store-assigned id and the input's other fields, with exactly that record appended; stored id: returns the input and overwrites only that record |
| `Categories.ParseResponse` | src/main/java/com/wwerlang/expensemanager/category/CategoryService.java:47-54 | converting the transport form back gives the stored record again |
| `Categories.ParseRequest` | src/main/java/com/wwerlang/expensemanager/category/CategoryService.java:56-63 | the record's id, name, description and active are the DTO's |
| `Categories.ResponseCopiesFields` | src/main/java/com/wwerlang/expensemanager/category/CategoryService.java:47-54 | id, name, description and active of the DTO equal the record's |
| `Categories.ResponseOfRequest` | src/main/java/com/wwerlang/expensemanager/category/CategoryService.java:47-63 | parseResponse(parseRequest(dto)) == dto |
| `Departments.DepartmentService.Find` | src/main/java/com/wwerlang/expensemanager/department/DepartmentService.java:17-26 | succeeds exactly when the id is stored, with a DTO equal field for field to the stored record; otherwise NotFound("Department", id) |
| `Departments.DepartmentService.List` | src/main/java/com/wwerlang/expensemanager/department/DepartmentService.java:28-32 | every stored department in order, one DTO each, same length |
| `Departments.DepartmentService.Save` | src/main/java/com/wwerlang/expensemanager/department/DepartmentService.java:34-45 | nonzero unstored id: NotFound("Department", id) with no write; id 0: a new record under a fresh id whose other fields equal the input's; stored id: replaces that record only and returns it with the same id |
| `Departments.ParseResponse` | src/main/java/com/wwerlang/expensemanager/department/DepartmentService.java:47-54 | converting the transport form back gives the stored record again |
| `Departments.ParseRequest` | src/main/java/com/wwerlang/expensemanager/department/DepartmentService.java:56-63 | the record's id, name, description and active are the DTO's |
| `Departments.ResponseCopiesFields` | src/main/java/com/wwerlang/expensemanager/department/DepartmentService.java:47-54 | the builder copies id, name, description and active |
| `Departments.ResponseOfRequest` | src/main/java/com/wwerlang/expensemanager/department/DepartmentService.java:47-63 | parseResponse(parseRequest(dto)) == dto |
| `Employees.EmployeeService.Find` | src/main/java/com/wwerlang/expensemanager/employee/EmployeeService.java:23-32 | succeeds exactly when the id is stored, with a DTO that converts back to the stored employee, embedded department included; otherwise NotFound("Employee", id) |
| `Employees.EmployeeService.List` | src/main/java/com/wwerlang/expensemanager/employee/EmployeeService.java:34-38 | every stored employee in order, one DTO each, same length |
| `Employees.EmployeeService.Save` | src/main/java/com/wwerlang/expensemanager/employee/EmployeeService.java:40-51 | as for categories with NotFound("Employee", id); in addition, the department store is left unchanged whatever department the employee embeds |
| `Employees.ParseResponse` | src/main/java/com/wwerlang/expensemanager/employee/EmployeeService.java:53-64 | converting the transport form back gives the stored employee again, embedded department included |
| `Employees.ParseRequest` | src/main/java/com/wwerlang/expensemanager/employee/EmployeeService.java:66-77 | the record's id, first name, last name and active are the DTO's, and its department is the department service's conversion of the DTO's department |
| `Employees.ResponseCopiesFields` | src/main/java/com/wwerlang/expensemanager/employee/EmployeeService.java:53-64 | the employee fields and every field of the embedded department, not only its id, reach the DTO |
| `Employees.NestedDepartmentDelegates` | src/main/java/com/wwerlang/expensemanager/employee/EmployeeService.java:60-74 | the embedded department is converted by exactly the department service's parseResponse and parseRequest |
| `Employees.ResponseOfRequest` | src/main/java/com/wwerlang/expensemanager/employee/EmployeeService.java:53-77 | parseResponse(parseRequest(dto)) == dto, nested department included |

## Left out

- The controllers only route HTTP requests and wrap results in `ResponseEntity`; they have no logic of their own. The exception handler only maps the exception to status 404.
- JSON (de)serialisation, Lombok-generated accessors and builders, JPA annotations and framework injection are left out. They are framework behaviour, not logic of the core.
- The database behind the repositories is left out. Its implementation is not shown, and the model claims nothing about it.
- `Store.Repository.Save`: requires the id to be 0 or already stored. The repository's behaviour for any other id is unknown, and the services never ask for it.
- The fresh identity is modelled as a counter above every stored id. Nothing ties the model to one particular next value, such as the 3 hard-coded in the test stubs.
- The race between `existsById` and `save` under concurrent requests is left out. The services are modelled as sequential.
- A null embedded department would throw at `EmployeeService.java:60` and `:73`. The model always has a department.
- Java `long` overflow is left out: ids are unbounded integers.
- The employee service uses its `DepartmentService` only for the stateless department converters and never touches the department store. The model does not check that an employee's embedded department exists in the department store, because the source does not check it.
