/** The employee record of the report script and the tree built from it. */
module Employees {
  import opened Wrappers

  /** One employee, as the `Employee` interface describes it: the three
      columns of a row plus the optional `subordinates` field, which rows
      read from the table do not have and the hierarchy builder attaches. */
  datatype Employee = Employee(
    id: int,
    name: string,
    managerId: Option<int>,
    subordinates: Subordinates)

  /** The optional `subordinates?: Employee[]` field. */
  datatype Subordinates = Missing | Present(nodes: seq<Employee>)

  /** A row as the table holds it, with no `subordinates` attached. */
  function Row(id: int, name: string, managerId: Option<int>): Employee
  {
    Employee(id, name, managerId, Missing)
  }

  /** `a` and `b` carry the same three columns; `subordinates` may differ. */
  predicate SameRecord(a: Employee, b: Employee)
  {
    a.id == b.id && a.name == b.name && a.managerId == b.managerId
  }

  /** Number of employees in a forest, at every depth; a missing
      `subordinates` field contributes nothing. */
  function Count(forest: seq<Employee>): nat
    decreases forest
  {
    if |forest| == 0 then 0
    else
      var below := match forest[0].subordinates
        case Missing => 0
        case Present(nodes) => Count(nodes);
      1 + below + Count(forest[1..])
  }

  /** The six seed rows the script inserts into an empty table, in order. */
  function InitialEmployees(): seq<Employee>
  {
    [ Row(100, "Alan", Some(150)),
      Row(220, "Martin", Some(100)),
      Row(150, "Jamie", None),
      Row(275, "Alex", Some(100)),
      Row(400, "Steve", Some(150)),
      Row(190, "David", Some(400)) ]
  }
}
