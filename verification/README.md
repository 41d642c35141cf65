# Employee hierarchy: a Dafny model

The report script reads a flat `employees` table and prints the management tree below one manager. Each row has an `id`, a `name` and a nullable `manager_id`. Two pure recursive functions do the work:

- `buildHierarchy(employees, managerId)` keeps the rows whose `manager_id === managerId`, as a stable filter in which `null` matches `null`. For each of them it builds a copy of the row whose `subordinates` field is the forest built below that row's id.
- `displayHierarchy(hierarchy, indent = "")` walks that forest in pre-order. It prints `indent + name` for each employee and goes two spaces further in for a non-empty `subordinates` list.

The model is split into these modules:

- `Employees` (employees.dfy) holds the `Employee` record. Its optional `subordinates?` field is the datatype `Subordinates = Missing | Present(nodes)`. The module also has the node count `Count` and the six seed rows.
- `Reports` (reports.dfy) holds the stable filter `DirectReports`. Its specification is order-preserving: the result is a subsequence of the input, and each record occurs as many times as it should. The module also proves that this specification has only one solution.
- `Hierarchy` (hierarchy.dfy) holds `BuildHierarchy`. The builder has no cycle guard, so it only returns when the recursion is bounded. The ghost predicate `WithinDepth(employees, managerId, depth)` states that bound, and `BuildHierarchy` takes it as a precondition with a ghost `depth`. The module proves the following:
  - the bound does not change the result;
  - an acyclic table always meets the bound;
  - no bound exists once a direct report leads into a loop of manager links. A record that is its own manager is the simplest such loop.
- `Display` (display.dfy) holds `DisplayHierarchy`. Instead of writing to the console, it returns the lines it would print. It is proved equal to a depth-indexed pre-order walk rendered with two spaces per level.
- `Scenarios` (scenarios.dfy) works through the seed table from the manager the script uses (id 100) and from the top (`null`).

## Model

| member | source | states |
|---|---|---|
| Reports.DirectReports | src/index.ts:117-118 | Every selected record comes from the input and has `manager_id` equal to the requested manager, where `None` (null) equals `None`. Each record occurs exactly as often as in the input if it reports to the manager, and never otherwise. |
| Reports.DirectReportsInOrder | src/index.ts:117-118 | The selection is a subsequence of the input, so the records keep their input order. It is a filter, not a sort. |
| Reports.DirectReportsUnique | src/index.ts:117-118 | Only one subsequence of the input meets that count condition, so the direct reports are neither reordered, repeated nor dropped. |
| Reports.ReportIsSelected | src/index.ts:117-118 | Every record reporting to the manager is selected. |
| Hierarchy.BuildHierarchy | src/index.ts:113-124 | There is one top-level node per direct report, in input order, with the same id, name and manager. Each top-level node reports to the requested manager and carries a `subordinates` list. |
| Hierarchy.BuildWellParented | src/index.ts:117-123 | At every depth, each node reports to the node whose `subordinates` list holds it, and the top level reports to the requested manager. |
| Hierarchy.BuildDrawnFrom | src/index.ts:119-122 | At every depth, each node is a copy of some input record, so the builder invents no one. |
| Hierarchy.BuildNodes | src/index.ts:119-123 | The i-th node is the i-th direct report's record with `subordinates` replaced by the forest built below that report's id. |
| Hierarchy.BuildIgnoresDepth | src/index.ts:113-124 | The result depends only on the records and the manager, not on the termination bound, so building twice gives equal forests. |
| Hierarchy.BuildIsFaithful | src/index.ts:113-124 | The built forest lists, at every level, exactly the direct reports of the parent in input order. |
| Hierarchy.FaithfulIsUnique | src/index.ts:113-124 | Any forest with that shape at every level equals the built forest. |
| Hierarchy.BuildListsEveryReport | src/index.ts:117-119 | Every record whose manager is the requested one appears at the top level. |
| Hierarchy.BuildListsEveryDescendant | src/index.ts:117-123 | Every record that reaches the requested manager through a chain of manager links appears somewhere in the forest, at any depth. |
| Hierarchy.BuildEmpty | src/index.ts:117-118 | With no record reporting to the manager, and in particular with no records at all, the forest is empty. |
| Hierarchy.ReportWithoutReports | src/index.ts:119-123 | A direct report who manages nobody gets an empty `subordinates` list, not a missing one. |
| Hierarchy.DuplicateIdsShareSubordinates | src/index.ts:119-123 | Two nodes with the same id get the same subordinates, because there is no uniqueness check. |
| Hierarchy.AcyclicTerminates | src/index.ts:113-123 | If a ranking puts every record strictly below its manager, the recursion from a manager is bounded by that manager's rank plus one. |
| Hierarchy.LoopDiverges | src/index.ts:117-123 | If a set of ids has, for each member, a direct report who is also in the set, no recursion bound exists from any of those ids. |
| Hierarchy.ReachableLoopDiverges | src/index.ts:117-123 | If one of the manager's direct reports is in such a set of ids, no recursion bound exists from the manager. |
| Hierarchy.SelfReferenceDiverges | src/index.ts:117-123 | If a direct report of the manager is their own manager, no recursion bound exists from the manager. |
| Display.DisplayHierarchy | src/index.ts:131-138 | One line is printed per employee of the forest at every depth, so the line count is the node count. |
| Display.PreOrder | src/index.ts:132-136 | The pre-order walk makes exactly as many visits as the forest has employees at all depths, and never records a depth above the starting one. |
| Display.DisplayIsIndentedPreOrder | src/index.ts:131-136 | The printed lines are the pre-order walk: a node, then all of its subordinates, then its next sibling. Each line is the indent, two spaces per level of depth, then the name, so top-level names carry only the indent. |
| Display.DisplayAtDepth | src/index.ts:133-135 | A forest displayed with `2*d` extra spaces prints each of its employees at depth `d` plus its nesting. |
| Display.NonEmptyTestIsRedundant | src/index.ts:134-135 | The non-empty test before recursing changes nothing, and a missing `subordinates` prints like an empty one. |
| Display.DisplayAppend | src/index.ts:132-137 | Displaying two forests one after the other prints the first one's lines, then the second one's. |
| Scenarios.SeedTerminates | src/index.ts:20-27 | The seed table is acyclic, so building from any manager terminates. |
| Scenarios.SeedAlanReports | test/index.test.ts:35-45 | In the seed table, Martin then Alex report to manager 100. |
| Scenarios.SeedFromAlan | test/index.test.ts:35-45 | Building from 100 gives exactly two nodes, Martin then Alex, both with empty subordinates. |
| Scenarios.SeedReportFromAlan | src/index.ts:144-148 | The script's own report on the seed table is the two lines "Martin" and "Alex". |
| Scenarios.SeedFromTop | test/index.test.ts:17-24 | Building from `null` gives the tree Jamie, then Alan (with Martin and Alex below) and Steve (with David below). |
| Scenarios.CompanyShape | test/index.test.ts:19-23 | That tree has one root, Jamie, with two direct reports and six employees in all. |
| Scenarios.SharedIdLoopDiverges | src/index.ts:117-123 | Rows (5, A, 1) and (5, B, 5) give no recursion bound from manager 1, because the shared id 5 closes a loop. No record is its own direct report here. |
| Scenarios.SeedReportFromTop | test/index.test.ts:26-31 | Building from `null` and displaying prints "Jamie" unindented first, then the other five names indented two spaces per level. |

## Left out

- The PostgreSQL pool, its credentials and SSL settings (src/index.ts:10-18) are left out. They configure a foreign library and network I/O.
- `ensureDatabaseSchemaExists`, `initializeDatabaseIfNeeded` and `fetchEmployees` (src/index.ts:30-106) are left out. They are SQL and asynchronous I/O whose errors are only logged. Their only contribution to the model is the seed rows, kept as `Employees.InitialEmployees`.
- `buildAndDisplayHierarchy` and `main` (src/index.ts:144-156) are asynchronous orchestration. Only their root manager, 100, is kept, as `Scenarios.ProductionRoot`.
- `console.log` is not modelled as an effect. `DisplayHierarchy` returns the lines in print order.
- JavaScript numbers are modelled as unbounded integers. `===` is modelled as equality on `Option<int>`. Floating-point ids and `NaN` are not modelled.
- Hierarchy.BuildHierarchy: requires `WithinDepth`. On input where the recursion is unbounded (a direct report that leads into a loop of manager links), the source recurses until the call stack overflows. The model does not describe that failure. It only shows, with `LoopDiverges`, `ReachableLoopDiverges` and `SelfReferenceDiverges`, that no bound exists in that case.
- The code has no cycle guard and no duplicate-id check. Duplicate ids are accepted, and both records get the same subordinates (`DuplicateIdsShareSubordinates`).
- Stack exhaustion is not modelled. A finite but very deep chain of managers can overflow the JavaScript call stack in `buildHierarchy` or `displayHierarchy`, although `WithinDepth` holds for it.
- Row order is not modelled as a database property. `fetchEmployees` runs `SELECT * FROM employees;` with no `ORDER BY` (src/index.ts:104), so PostgreSQL may return the rows in any order. The scenarios assume the rows arrive in seed order.
- The test file's `pool.end()` and its mock of `console.log` (test/index.test.ts:14-16, 27) are left out.
