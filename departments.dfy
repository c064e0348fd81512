/** The department service: find, list and upsert over the department store, and the conversions
    between a stored department and its transport form. */
module Departments {
  import opened Store
  import opened Exceptions

  /** The columns of a stored department besides its identity. */
  datatype DepartmentColumns = DepartmentColumns(name: string, description: string, active: bool)

  /** A stored department. */
  type Department = Record<DepartmentColumns>

  /** The transport form of a department; id 0 means "not yet persisted". */
  datatype DepartmentDTO = DepartmentDTO(id: int, name: string, description: string, active: bool)

  const EntityName := "Department"

  /** Stored department to transport form, field by field; converting
      back gives the record again. */
  function ParseResponse(department: Department): (dto: DepartmentDTO)
    ensures ParseRequest(dto) == department
  {
    DepartmentDTO(department.id, department.columns.name, department.columns.description, department.columns.active)
  }

  /** Transport form to stored department, field by field. */
  function ParseRequest(dto: DepartmentDTO): (department: Department)
    ensures department.id == dto.id && department.columns.name == dto.name
            && department.columns.description == dto.description && department.columns.active == dto.active
  {
    Record(dto.id, DepartmentColumns(dto.name, dto.description, dto.active))
  }

  /** Every field of the record reaches the transport form unchanged. */
  lemma ResponseCopiesFields(department: Department)
    ensures var dto := ParseResponse(department);
            dto.id == department.id && dto.name == department.columns.name
            && dto.description == department.columns.description && dto.active == department.columns.active
  {
  }

  /** Converting a transport form to a record and back gives it again. */
  lemma ResponseOfRequest(dto: DepartmentDTO)
    ensures ParseResponse(ParseRequest(dto)) == dto
  {
  }

  class DepartmentService {
    const repository: Repository<DepartmentColumns>

    constructor (repository: Repository<DepartmentColumns>)
      ensures this.repository == repository
    {
      this.repository := repository;
    }

    /** The department stored under `id`, or NotFound("Department", id). */
    method Find(id: int) returns (r: Result<DepartmentDTO>)
      ensures r.Ok? <==> Contains(repository.rows, id)
      ensures r.Ok? ==> r.value.id == id && ParseRequest(r.value) in repository.rows
      ensures r.Err? ==> r.error == EntityNotFoundException(EntityName, id)
    {
      var departmentOptional := repository.FindById(id);
      LookupSpec(repository.rows, id);
      if departmentOptional.Some? {
        var department := departmentOptional.value;
        return Ok(ParseResponse(department));
      } else {
        return Err(EntityNotFoundException(EntityName, id));
      }
    }

    /** Every stored department in transport form, in store order. */
    method List() returns (departments: seq<DepartmentDTO>)
      ensures |departments| == |repository.rows|
      ensures forall i :: 0 <= i < |departments| ==> departments[i] == ParseResponse(repository.rows[i])
    {
      departments := [];
      var all := repository.FindAll();
      for i := 0 to |all|
        invariant |departments| == i
        invariant forall k :: 0 <= k < i ==> departments[k] == ParseResponse(all[k])
      {
        departments := departments + [ParseResponse(all[i])];
      }
    }

    /** Creates the department when its id is 0, overwrites the stored one when its id is stored,
        and otherwise fails with NotFound("Department", id) before anything is written. */
    method Save(dto: DepartmentDTO) returns (r: Result<DepartmentDTO>)
      requires repository.Valid()
      modifies repository
      ensures repository.Valid()
      ensures dto.id != 0 && !Contains(old(repository.rows), dto.id) ==>
                r == Err(EntityNotFoundException(EntityName, dto.id)) && unchanged(repository)
      ensures dto.id == 0 ==>
                r.Ok? && r.value == dto.(id := r.value.id)
                && Created(old(repository.rows), repository.rows, ParseRequest(dto), ParseRequest(r.value))
      ensures dto.id != 0 && Contains(old(repository.rows), dto.id) ==>
                r == Ok(dto) && Overwritten(old(repository.rows), repository.rows, ParseRequest(dto))
    {
      var id := dto.id;
      var isUpdate := id != 0;
      if isUpdate && !repository.ExistsById(id) {
        return Err(EntityNotFoundException(EntityName, id));
      }
      var department := ParseRequest(dto);
      department := repository.Save(department);
      return Ok(ParseResponse(department));
    }
  }
}
