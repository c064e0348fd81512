/** The employee service: find, list and upsert over the employee store. An employee embeds a
    copy of its department, which is converted by the department service's own conversions. */
module Employees {
  import opened Store
  import opened Exceptions
  import Departments

  /** The columns of a stored employee besides its identity; the department is embedded. */
  datatype EmployeeColumns = EmployeeColumns(
    firstName: string, lastName: string, active: bool, department: Departments.Department)

  /** A stored employee. */
  type Employee = Record<EmployeeColumns>

  /** The transport form of an employee, carrying the whole transport form of its department. */
  datatype EmployeeDTO = EmployeeDTO(
    id: int, firstName: string, lastName: string, active: bool, department: Departments.DepartmentDTO)

  const EntityName := "Employee"

  /** Stored employee to transport form; the department goes through the department service.
      Converting back gives the record again, embedded department included. */
  function ParseResponse(employee: Employee): (dto: EmployeeDTO)
    ensures ParseRequest(dto) == employee
  {
    EmployeeDTO(employee.id, employee.columns.firstName, employee.columns.lastName, employee.columns.active,
                Departments.ParseResponse(employee.columns.department))
  }

  /** Transport form to stored employee; the department goes through the department service.
      Every field is copied, and the department is the department service's conversion. */
  function ParseRequest(dto: EmployeeDTO): (employee: Employee)
    ensures employee.id == dto.id && employee.columns.firstName == dto.firstName
            && employee.columns.lastName == dto.lastName && employee.columns.active == dto.active
            && employee.columns.department == Departments.ParseRequest(dto.department)
  {
    Record(dto.id, EmployeeColumns(dto.firstName, dto.lastName, dto.active,
                                   Departments.ParseRequest(dto.department)))
  }

  /** Every field of the record reaches the transport form unchanged, and the embedded department
      arrives whole: its id and every other field, not only its id. */
  lemma ResponseCopiesFields(employee: Employee)
    ensures var dto := ParseResponse(employee);
            var d := employee.columns.department;
            dto.id == employee.id && dto.firstName == employee.columns.firstName
            && dto.lastName == employee.columns.lastName && dto.active == employee.columns.active
            && dto.department.id == d.id && dto.department.name == d.columns.name
            && dto.department.description == d.columns.description
            && dto.department.active == d.columns.active
  {
    Departments.ResponseCopiesFields(employee.columns.department);
  }

  /** The nested department is converted by exactly the department service's conversions, in both
      directions, so no second mapping of departments exists. */
  lemma NestedDepartmentDelegates(employee: Employee, dto: EmployeeDTO)
    ensures ParseResponse(employee).department == Departments.ParseResponse(employee.columns.department)
    ensures ParseRequest(dto).columns.department == Departments.ParseRequest(dto.department)
  {
  }

  /** Converting a transport form to a record and back gives it again, nested department
      included. */
  lemma {:induction false} ResponseOfRequest(dto: EmployeeDTO)
    ensures ParseResponse(ParseRequest(dto)) == dto
  {
    Departments.ResponseOfRequest(dto.department);
  }

  class EmployeeService {
    const repository: Repository<EmployeeColumns>
    const departmentService: Departments.DepartmentService

    constructor (repository: Repository<EmployeeColumns>, departmentService: Departments.DepartmentService)
      ensures this.repository == repository && this.departmentService == departmentService
    {
      this.repository := repository;
      this.departmentService := departmentService;
    }

    /** The employee stored under `id`, with its embedded department, or NotFound("Employee", id). */
    method Find(id: int) returns (r: Result<EmployeeDTO>)
      ensures r.Ok? <==> Contains(repository.rows, id)
      ensures r.Ok? ==> r.value.id == id && ParseRequest(r.value) in repository.rows
      ensures r.Err? ==> r.error == EntityNotFoundException(EntityName, id)
    {
      var employeeOptional := repository.FindById(id);
      LookupSpec(repository.rows, id);
      if employeeOptional.Some? {
        var employee := employeeOptional.value;
        return Ok(ParseResponse(employee));
      } else {
        return Err(EntityNotFoundException(EntityName, id));
      }
    }

    /** Every stored employee in transport form, in store order. */
    method List() returns (employees: seq<EmployeeDTO>)
      ensures |employees| == |repository.rows|
      ensures forall i :: 0 <= i < |employees| ==> employees[i] == ParseResponse(repository.rows[i])
    {
      employees := [];
      var all := repository.FindAll();
      for i := 0 to |all|
        invariant |employees| == i
        invariant forall k :: 0 <= k < i ==> employees[k] == ParseResponse(all[k])
      {
        employees := employees + [ParseResponse(all[i])];
      }
    }

    /** Creates the employee when its id is 0, overwrites the stored one when its id is stored,
        and otherwise fails with NotFound("Employee", id) before anything is written. Only the
        employee store is consulted or changed, whatever department the employee embeds. */
    method Save(dto: EmployeeDTO) returns (r: Result<EmployeeDTO>)
      requires repository.Valid()
      modifies repository
      ensures repository.Valid()
      ensures unchanged(departmentService.repository)
      ensures dto.id != 0 && !Contains(old(repository.rows), dto.id) ==>
                r == Err(EntityNotFoundException(EntityName, dto.id)) && unchanged(repository)
      ensures dto.id == 0 ==>
                r.Ok? && r.value == dto.(id := r.value.id)
                && Created(old(repository.rows), repository.rows, ParseRequest(dto), ParseRequest(r.value))
      ensures dto.id != 0 && Contains(old(repository.rows), dto.id) ==>
                r == Ok(dto) && Overwritten(old(repository.rows), repository.rows, ParseRequest(dto))
    {
      var id := dto.id;
      var isUpdate := id != 0;
      if isUpdate && !repository.ExistsById(id) {
        return Err(EntityNotFoundException(EntityName, id));
      }
      var employee := ParseRequest(dto);
      employee := repository.Save(employee);
      ResponseOfRequest(dto);
      return Ok(ParseResponse(employee));
    }
  }
}
