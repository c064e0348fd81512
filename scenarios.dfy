/** The fixtures of the service tests replayed against the model: each step's outcome follows
    from the services' contracts alone. */
module Scenarios {
  import opened Store
  import opened Exceptions
  import opened Categories
  import Departments
  import Employees

  method CategoryServiceScenario() {
    var meal := Record(1, CategoryColumns("Meal", "Lunch, dinner and breakfast.", true));
    var hotel := Record(2, CategoryColumns("Hotel", "Home accommodation.", false));
    var store := new Repository<CategoryColumns>.Seeded([meal, hotel]);
    var service := new CategoryService(store);

    var found := service.Find(1);
    assert store.rows[0].id == 1;
    assert found == Ok(CategoryDTO(1, "Meal", "Lunch, dinner and breakfast.", true));

    var missing := service.Find(3);
    CategoryMessageExample();
    assert missing.Err? && missing.error.Message() == "Category not found with ID 3.";

    var all := service.List();
    assert all == [CategoryDTO(1, "Meal", "Lunch, dinner and breakfast.", true),
                   CategoryDTO(2, "Hotel", "Home accommodation.", false)];

    var rejected := service.Save(CategoryDTO(3, "Flight", "Air flights.", true));
    assert rejected.Err? && rejected.error.Message() == "Category not found with ID 3.";
    assert store.rows == [meal, hotel];

    assert store.rows[1].id == 2;
    var updated := service.Save(CategoryDTO(2, "Hotel", "Home accommodation.", true));
    assert updated == Ok(CategoryDTO(2, "Hotel", "Home accommodation.", true));
    assert store.rows == [meal, Record(2, CategoryColumns("Hotel", "Home accommodation.", true))];

    var created := service.Save(CategoryDTO(0, "Flight", "Air flights.", true));
    assert created.Ok? && created.value.id > 0 && created.value.id != 1 && created.value.id != 2;
    assert created.value == CategoryDTO(created.value.id, "Flight", "Air flights.", true);
    assert |store.rows| == 3;
  }

  method EmployeeServiceScenario() {
    var it := Record(1, Departments.DepartmentColumns("IT", "Fix computers.", true));
    var hr := Record(2, Departments.DepartmentColumns("HR", "Hires people.", false));
    var john := Record(1, Employees.EmployeeColumns("John", "Johnson", true, it));
    var smith := Record(2, Employees.EmployeeColumns("Smith", "Smithson", false, hr));
    var departments := new Repository<Departments.DepartmentColumns>.Empty();
    var store := new Repository<Employees.EmployeeColumns>.Seeded([john, smith]);
    var departmentService := new Departments.DepartmentService(departments);
    var service := new Employees.EmployeeService(store, departmentService);

    var found := service.Find(1);
    assert store.rows[0].id == 1;
    assert found.Ok? && found.value.department == Departments.DepartmentDTO(1, "IT", "Fix computers.", true);

    var missing := service.Find(3);
    EmployeeMessageExample();
    assert missing.Err? && missing.error.Message() == "Employee not found with ID 3.";

    var all := service.List();
    assert |all| == 2 && all[1].department == Departments.DepartmentDTO(2, "HR", "Hires people.", false);

    // The embedded department need not be stored: only the employee store is consulted.
    var created := service.Save(Employees.EmployeeDTO(0, "John", "Johnson", true,
                                                       Departments.DepartmentDTO(1, "IT", "Fix computers.", true)));
    assert created.Ok? && created.value.id > 0 && created.value.department.id == 1;
    assert departments.rows == [];
  }
}
