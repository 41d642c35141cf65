/** `buildHierarchy`: the management forest below one manager. */
module Hierarchy {
  import opened Wrappers
  import opened Employees
  import opened Reports

  /** The recursion of `BuildHierarchy(employees, managerId)` nests at most
      `depth` calls deep: every chain of reports below `managerId` is shorter
      than `depth`. The builder has no cycle guard, so this is exactly the
      condition under which it returns; for a manager whose chain of reports
      loops back on itself no `depth` satisfies it. */
  ghost predicate WithinDepth(employees: seq<Employee>, managerId: Option<int>, depth: nat)
    decreases depth
  {
    && depth > 0
    && forall e | e in employees && e.managerId == managerId ::
         WithinDepth(employees, Some(e.id), depth - 1)
  }

  /** Every employee in `forest`, at every depth, reports to the employee
      whose `subordinates` list holds it, and the top level to `managerId`;
      every employee carries a `subordinates` list. */
  ghost predicate WellParented(forest: seq<Employee>, managerId: Option<int>)
    decreases forest
  {
    forall i | 0 <= i < |forest| ::
      && forest[i].managerId == managerId
      && forest[i].subordinates.Present?
      && WellParented(forest[i].subordinates.nodes, Some(forest[i].id))
  }

  /** Every employee in `forest`, at every depth, is a copy of some record of
      `employees` (same id, name and manager). */
  ghost predicate DrawnFrom(forest: seq<Employee>, employees: seq<Employee>)
    decreases forest
  {
    forall i | 0 <= i < |forest| ::
      && (exists e | e in employees :: SameRecord(forest[i], e))
      && (forest[i].subordinates.Present? ==> DrawnFrom(forest[i].subordinates.nodes, employees))
  }

  /** The shape `buildHierarchy` promises at every level: the employees listed
      under `managerId` are its direct reports, in order, each carrying the
      forest built below it. */
  ghost predicate Faithful(forest: seq<Employee>, employees: seq<Employee>, managerId: Option<int>)
    decreases forest
  {
    var reports := DirectReports(employees, managerId);
    && |forest| == |reports|
    && forall i | 0 <= i < |forest| ::
         && SameRecord(forest[i], reports[i])
         && forest[i].subordinates.Present?
         && Faithful(forest[i].subordinates.nodes, employees, Some(forest[i].id))
  }

  /** `buildHierarchy(employees, managerId)`: one node per direct report of
      `managerId`, in input order, copying the record and attaching the forest
      built below it as `subordinates`. The ghost `depth` bounds the recursion
      and does not influence the result (see `BuildIgnoresDepth`). */
  function BuildHierarchy(employees: seq<Employee>, managerId: Option<int>, ghost depth: nat): (r: seq<Employee>)
    requires WithinDepth(employees, managerId, depth)
    ensures |r| == |DirectReports(employees, managerId)|
    ensures forall i | 0 <= i < |r| ::
              && SameRecord(r[i], DirectReports(employees, managerId)[i])
              && r[i].managerId == managerId
              && r[i].subordinates.Present?
    decreases depth
  {
    var reports := DirectReports(employees, managerId);
    seq(|reports|, i requires 0 <= i < |reports| =>
      reports[i].(subordinates := Present(BuildHierarchy(employees, Some(reports[i].id), depth - 1))))
  }

  /** At every depth of the built forest, each employee reports to the
      employee whose `subordinates` list holds it. */
  lemma {:induction false} BuildWellParented(employees: seq<Employee>, managerId: Option<int>, depth: nat)
    requires WithinDepth(employees, managerId, depth)
    ensures WellParented(BuildHierarchy(employees, managerId, depth), managerId)
    decreases depth
  {
    var reports := DirectReports(employees, managerId);
    var r := BuildHierarchy(employees, managerId, depth);
    forall i | 0 <= i < |r|
      ensures WellParented(r[i].subordinates.nodes, Some(r[i].id))
    {
      BuildWellParented(employees, Some(reports[i].id), depth - 1);
    }
  }

  /** At every depth of the built forest, each employee is a copy of a record
      of the input: the builder invents no one. */
  lemma {:induction false} BuildDrawnFrom(employees: seq<Employee>, managerId: Option<int>, depth: nat)
    requires WithinDepth(employees, managerId, depth)
    ensures DrawnFrom(BuildHierarchy(employees, managerId, depth), employees)
    decreases depth
  {
    var reports := DirectReports(employees, managerId);
    var r := BuildHierarchy(employees, managerId, depth);
    forall i | 0 <= i < |r|
      ensures exists e | e in employees :: SameRecord(r[i], e)
      ensures DrawnFrom(r[i].subordinates.nodes, employees)
    {
      assert reports[i] in employees && SameRecord(r[i], reports[i]);
      BuildDrawnFrom(employees, Some(reports[i].id), depth - 1);
    }
  }

  /** The ghost bound is bookkeeping only: any two admissible bounds build the
      same forest, so the result is a function of `employees` and `managerId`
      alone, and building twice gives equal forests. */
  lemma {:induction false} BuildIgnoresDepth(employees: seq<Employee>, managerId: Option<int>, d1: nat, d2: nat)
    requires WithinDepth(employees, managerId, d1)
    requires WithinDepth(employees, managerId, d2)
    ensures BuildHierarchy(employees, managerId, d1) == BuildHierarchy(employees, managerId, d2)
    decreases d1
  {
    var reports := DirectReports(employees, managerId);
    var r1, r2 := BuildHierarchy(employees, managerId, d1), BuildHierarchy(employees, managerId, d2);
    forall i | 0 <= i < |reports| ensures r1[i] == r2[i] {
      BuildIgnoresDepth(employees, Some(reports[i].id), d1 - 1, d2 - 1);
    }
  }

  /** Each node copies its direct report's record and carries as `subordinates`
      the forest built below that report's id, whatever admissible bound that
      inner build is given. */
  lemma BuildNodes(employees: seq<Employee>, managerId: Option<int>, depth: nat)
    requires WithinDepth(employees, managerId, depth)
    ensures forall i, d: nat | 0 <= i < |BuildHierarchy(employees, managerId, depth)|
              && WithinDepth(employees, Some(BuildHierarchy(employees, managerId, depth)[i].id), d) ::
              BuildHierarchy(employees, managerId, depth)[i]
              == DirectReports(employees, managerId)[i].(subordinates := Present(BuildHierarchy(employees, Some(DirectReports(employees, managerId)[i].id), d)))
  {
    var reports := DirectReports(employees, managerId);
    var r := BuildHierarchy(employees, managerId, depth);
    forall i, d: nat | 0 <= i < |r| && WithinDepth(employees, Some(r[i].id), d)
      ensures r[i] == reports[i].(subordinates := Present(BuildHierarchy(employees, Some(reports[i].id), d)))
    {
      BuildIgnoresDepth(employees, Some(reports[i].id), depth - 1, d);
    }
  }

  /** The built forest has the shape `Faithful` describes at every level. */
  lemma {:induction false} BuildIsFaithful(employees: seq<Employee>, managerId: Option<int>, depth: nat)
    requires WithinDepth(employees, managerId, depth)
    ensures Faithful(BuildHierarchy(employees, managerId, depth), employees, managerId)
    decreases depth
  {
    var reports := DirectReports(employees, managerId);
    var r := BuildHierarchy(employees, managerId, depth);
    forall i | 0 <= i < |r|
      ensures Faithful(r[i].subordinates.nodes, employees, Some(r[i].id))
    {
      BuildIsFaithful(employees, Some(reports[i].id), depth - 1);
    }
  }

  /** The built forest is the only forest of that shape: a forest in which every
      level lists exactly the direct reports of its parent, in order, is the
      one `BuildHierarchy` returns. */
  lemma {:induction false} FaithfulIsUnique(employees: seq<Employee>, managerId: Option<int>, depth: nat, forest: seq<Employee>)
    requires WithinDepth(employees, managerId, depth)
    requires Faithful(forest, employees, managerId)
    ensures forest == BuildHierarchy(employees, managerId, depth)
    decreases depth
  {
    var reports := DirectReports(employees, managerId);
    var r := BuildHierarchy(employees, managerId, depth);
    forall i | 0 <= i < |forest| ensures forest[i] == r[i] {
      FaithfulIsUnique(employees, Some(reports[i].id), depth - 1, forest[i].subordinates.nodes);
    }
  }

  /** With no record reporting to `managerId` (in particular with no records
      at all) the forest is empty. */
  lemma BuildEmpty(employees: seq<Employee>, managerId: Option<int>, depth: nat)
    requires WithinDepth(employees, managerId, depth)
    requires forall e | e in employees :: e.managerId != managerId
    ensures BuildHierarchy(employees, managerId, depth) == []
  {
    var reports := DirectReports(employees, managerId);
    assert multiset(reports) == multiset{};
  }

  /** Some employee at the top level of `forest` is a copy of `e`. */
  ghost predicate Lists(forest: seq<Employee>, e: Employee)
  {
    exists i | 0 <= i < |forest| :: SameRecord(forest[i], e)
  }

  /** Every record reporting to `managerId` is listed at the top level; with
      `WellParented` and `DrawnFrom` this makes the top level exactly the
      records that report to `managerId`. */
  lemma BuildListsEveryReport(employees: seq<Employee>, managerId: Option<int>, depth: nat)
    requires WithinDepth(employees, managerId, depth)
    ensures forall e | e in employees && e.managerId == managerId ::
              Lists(BuildHierarchy(employees, managerId, depth), e)
  {
    var reports := DirectReports(employees, managerId);
    var r := BuildHierarchy(employees, managerId, depth);
    forall e | e in employees && e.managerId == managerId
      ensures Lists(r, e)
    {
      ReportIsSelected(employees, managerId, e);
      var i :| 0 <= i < |reports| && reports[i] == e;
      assert SameRecord(r[i], e);
    }
  }

  /** The builder does not check ids for uniqueness: two records with the same
      id get the same subordinates. */
  lemma DuplicateIdsShareSubordinates(employees: seq<Employee>, managerId: Option<int>, depth: nat, i: nat, j: nat)
    requires WithinDepth(employees, managerId, depth)
    requires i < |BuildHierarchy(employees, managerId, depth)| && j < |BuildHierarchy(employees, managerId, depth)|
    requires BuildHierarchy(employees, managerId, depth)[i].id == BuildHierarchy(employees, managerId, depth)[j].id
    ensures BuildHierarchy(employees, managerId, depth)[i].subordinates
         == BuildHierarchy(employees, managerId, depth)[j].subordinates
  {
  }

  /** A direct report who manages nobody gets an empty `subordinates` list. */
  lemma ReportWithoutReports(employees: seq<Employee>, managerId: Option<int>, depth: nat, i: nat)
    requires WithinDepth(employees, managerId, depth)
    requires i < |DirectReports(employees, managerId)|
    requires forall e | e in employees :: e.managerId != Some(DirectReports(employees, managerId)[i].id)
    ensures BuildHierarchy(employees, managerId, depth)[i]
         == DirectReports(employees, managerId)[i].(subordinates := Present([]))
  {
    var reports := DirectReports(employees, managerId);
    BuildEmpty(employees, Some(reports[i].id), depth - 1);
  }

  /** A direct report whose own forest is known gets that forest as its
      `subordinates` list. */
  lemma ReportWithTeam(employees: seq<Employee>, managerId: Option<int>, depth: nat, i: nat, d: nat, team: seq<Employee>)
    requires WithinDepth(employees, managerId, depth)
    requires i < |DirectReports(employees, managerId)|
    requires WithinDepth(employees, Some(DirectReports(employees, managerId)[i].id), d)
    requires BuildHierarchy(employees, Some(DirectReports(employees, managerId)[i].id), d) == team
    ensures BuildHierarchy(employees, managerId, depth)[i]
         == DirectReports(employees, managerId)[i].(subordinates := Present(team))
  {
    var reports := DirectReports(employees, managerId);
    BuildIgnoresDepth(employees, Some(reports[i].id), depth - 1, d);
  }

  /** A larger bound is still a bound. */
  lemma {:induction false} WithinDepthMonotone(employees: seq<Employee>, managerId: Option<int>, d1: nat, d2: nat)
    requires WithinDepth(employees, managerId, d1)
    requires d1 <= d2
    ensures WithinDepth(employees, managerId, d2)
    decreases d1
  {
    forall e | e in employees && e.managerId == managerId
      ensures WithinDepth(employees, Some(e.id), d2 - 1)
    {
      WithinDepthMonotone(employees, Some(e.id), d1 - 1, d2 - 1);
    }
  }

  /** An acyclic table terminates from every starting manager: if a ranking
      puts every employee strictly below its manager, with `None` ranked like
      any other manager, the recursion is at most one more than the
      starting manager's rank deep. */
  lemma {:induction false} AcyclicTerminates(employees: seq<Employee>, rank: Option<int> -> nat, managerId: Option<int>)
    requires forall e | e in employees :: rank(Some(e.id)) < rank(e.managerId)
    ensures WithinDepth(employees, managerId, rank(managerId) + 1)
    decreases rank(managerId)
  {
    forall e | e in employees && e.managerId == managerId
      ensures WithinDepth(employees, Some(e.id), rank(managerId))
    {
      AcyclicTerminates(employees, rank, Some(e.id));
      WithinDepthMonotone(employees, Some(e.id), rank(Some(e.id)) + 1, rank(managerId));
    }
  }

  /** Some record of `employees` whose id is in `loop` reports to `id`. */
  ghost predicate ReportsWithin(employees: seq<Employee>, id: int, loop: set<int>)
  {
    exists e | e in employees :: e.managerId == Some(id) && e.id in loop
  }

  /** A set of ids in which everyone has a direct report who is again in the
      set (a cycle of `manager_id` references, a self-reference among them)
      sends the recursion round forever: no bound works for any of them. */
  lemma {:induction false} LoopDiverges(employees: seq<Employee>, loop: set<int>, id: int, depth: nat)
    requires id in loop
    requires forall x | x in loop :: ReportsWithin(employees, x, loop)
    ensures !WithinDepth(employees, Some(id), depth)
    decreases depth
  {
    if depth > 0 {
      assert ReportsWithin(employees, id, loop);
      var e :| e in employees && e.managerId == Some(id) && e.id in loop;
      LoopDiverges(employees, loop, e.id, depth - 1);
    }
  }

  /** A loop entered by one of `managerId`'s direct reports means no bound exists from `managerId`. */
  lemma {:induction false} ReachableLoopDiverges(employees: seq<Employee>, managerId: Option<int>, loop: set<int>, depth: nat)
    requires exists e | e in employees :: e.managerId == managerId && e.id in loop
    requires forall x | x in loop :: ReportsWithin(employees, x, loop)
    ensures !WithinDepth(employees, managerId, depth)
  {
    if depth > 0 {
      var e :| e in employees && e.managerId == managerId && e.id in loop;
      LoopDiverges(employees, loop, e.id, depth - 1);
    }
  }

  /** A direct report of `managerId` who is their own manager means no bound exists from `managerId`. */
  lemma SelfReferenceDiverges(employees: seq<Employee>, managerId: Option<int>, e: Employee, depth: nat)
    requires e in employees && e.managerId == managerId
    requires e.managerId == Some(e.id)
    ensures !WithinDepth(employees, managerId, depth)
  {
    LoopDiverges(employees, {e.id}, e.id, depth);
  }

  /** Some node at some depth of `forest` is a copy of `e`. */
  ghost predicate Occurs(forest: seq<Employee>, e: Employee)
    decreases forest
  {
    exists i | 0 <= i < |forest| ::
      || SameRecord(forest[i], e)
      || (forest[i].subordinates.Present? && Occurs(forest[i].subordinates.nodes, e))
  }

  /** `e` reports to `managerId` through at most `n` intermediate managers drawn from `employees`. */
  ghost predicate Below(employees: seq<Employee>, managerId: Option<int>, e: Employee, n: nat)
    decreases n
  {
    || e.managerId == managerId
    || (n > 0 && exists p | p in employees && p.managerId == managerId :: Below(employees, Some(p.id), e, n - 1))
  }

  /** Every record below `managerId`, however deep, appears somewhere in the built forest. */
  lemma {:induction false} BuildListsEveryDescendant(employees: seq<Employee>, managerId: Option<int>, depth: nat, e: Employee, n: nat)
    requires WithinDepth(employees, managerId, depth)
    requires e in employees && Below(employees, managerId, e, n)
    ensures Occurs(BuildHierarchy(employees, managerId, depth), e)
    decreases n
  {
    var r := BuildHierarchy(employees, managerId, depth);
    if e.managerId == managerId {
      BuildListsEveryReport(employees, managerId, depth);
      assert Lists(r, e);
      var i :| 0 <= i < |r| && SameRecord(r[i], e);
    } else {
      var p :| p in employees && p.managerId == managerId && Below(employees, Some(p.id), e, n - 1);
      ReportIsSelected(employees, managerId, p);
      var reports := DirectReports(employees, managerId);
      var i :| 0 <= i < |reports| && reports[i] == p;
      assert WithinDepth(employees, Some(p.id), depth - 1);
      BuildListsEveryDescendant(employees, Some(p.id), depth - 1, e, n - 1);
      assert r[i].subordinates.nodes == BuildHierarchy(employees, Some(p.id), depth - 1);
    }
  }
}
