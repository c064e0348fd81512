/** The category service: find, list and upsert over the category store, and the conversions
    between a stored category and its transport form. */
module Categories {
  import opened Store
  import opened Exceptions

  /** The columns of a stored category besides its identity. */
  datatype CategoryColumns = CategoryColumns(name: string, description: string, active: bool)

  /** A stored category. */
  type Category = Record<CategoryColumns>

  /** The transport form of a category; id 0 means "not yet persisted". */
  datatype CategoryDTO = CategoryDTO(id: int, name: string, description: string, active: bool)

  const EntityName := "Category"

  /** Stored category to transport form, field by field; converting
      back gives the record again. */
  function ParseResponse(category: Category): (dto: CategoryDTO)
    ensures ParseRequest(dto) == category
  {
    CategoryDTO(category.id, category.columns.name, category.columns.description, category.columns.active)
  }

  /** Transport form to stored category, field by field. */
  function ParseRequest(dto: CategoryDTO): (category: Category)
    ensures category.id == dto.id && category.columns.name == dto.name
            && category.columns.description == dto.description && category.columns.active == dto.active
  {
    Record(dto.id, CategoryColumns(dto.name, dto.description, dto.active))
  }

  /** Every field of the record reaches the transport form unchanged. */
  lemma ResponseCopiesFields(category: Category)
    ensures var dto := ParseResponse(category);
            dto.id == category.id && dto.name == category.columns.name
            && dto.description == category.columns.description && dto.active == category.columns.active
  {
  }

  /** Converting a transport form to a record and back gives it again. */
  lemma ResponseOfRequest(dto: CategoryDTO)
    ensures ParseResponse(ParseRequest(dto)) == dto
  {
  }

  class CategoryService {
    const repository: Repository<CategoryColumns>

    constructor (repository: Repository<CategoryColumns>)
      ensures this.repository == repository
    {
      this.repository := repository;
    }

    /** The category stored under `id`, or NotFound("Category", id). */
    method Find(id: int) returns (r: Result<CategoryDTO>)
      ensures r.Ok? <==> Contains(repository.rows, id)
      ensures r.Ok? ==> r.value.id == id && ParseRequest(r.value) in repository.rows
      ensures r.Err? ==> r.error == EntityNotFoundException(EntityName, id)
    {
      var categoryOptional := repository.FindById(id);
      LookupSpec(repository.rows, id);
      if categoryOptional.Some? {
        var category := categoryOptional.value;
        return Ok(ParseResponse(category));
      } else {
        return Err(EntityNotFoundException(EntityName, id));
      }
    }

    /** Every stored category in transport form, in store order. */
    method List() returns (categories: seq<CategoryDTO>)
      ensures |categories| == |repository.rows|
      ensures forall i :: 0 <= i < |categories| ==> categories[i] == ParseResponse(repository.rows[i])
    {
      categories := [];
      var all := repository.FindAll();
      for i := 0 to |all|
        invariant |categories| == i
        invariant forall k :: 0 <= k < i ==> categories[k] == ParseResponse(all[k])
      {
        categories := categories + [ParseResponse(all[i])];
      }
    }

    /** Creates the category when its id is 0, overwrites the stored one when its id is stored,
        and otherwise fails with NotFound("Category", id) before anything is written. */
    method Save(dto: CategoryDTO) returns (r: Result<CategoryDTO>)
      requires repository.Valid()
      modifies repository
      ensures repository.Valid()
      ensures dto.id != 0 && !Contains(old(repository.rows), dto.id) ==>
                r == Err(EntityNotFoundException(EntityName, dto.id)) && unchanged(repository)
      ensures dto.id == 0 ==>
                r.Ok? && r.value == dto.(id := r.value.id)
                && Created(old(repository.rows), repository.rows, ParseRequest(dto), ParseRequest(r.value))
      ensures dto.id != 0 && Contains(old(repository.rows), dto.id) ==>
                r == Ok(dto) && Overwritten(old(repository.rows), repository.rows, ParseRequest(dto))
    {
      var id := dto.id;
      var isUpdate := id != 0;
      if isUpdate && !repository.ExistsById(id) {
        return Err(EntityNotFoundException(EntityName, id));
      }
      var category := ParseRequest(dto);
      category := repository.Save(category);
      return Ok(ParseResponse(category));
    }
  }
}
