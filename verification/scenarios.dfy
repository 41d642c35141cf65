/** The seed table, built and displayed from the two roots the script and
    its tests use. */
module Scenarios {
  import opened Wrappers
  import opened Employees
  import opened Reports
  import opened Hierarchy
  import opened Display

  /** The manager whose subtree the script reports on. */
  const ProductionRoot: Option<int> := Some(100)

  /** A ranking of the seed table: every employee below its manager. */
  function SeedRank(managerId: Option<int>): nat
  {
    match managerId
    case None => 4
    case Some(id) => if id == 150 then 3 else if id == 100 || id == 400 then 2 else 1
  }

  /** The seed table has no cycle, so building terminates from any manager. */
  lemma SeedTerminates(managerId: Option<int>)
    ensures WithinDepth(InitialEmployees(), managerId, SeedRank(managerId) + 1)
  {
    var rows := InitialEmployees();
    forall e | e in rows ensures SeedRank(Some(e.id)) < SeedRank(e.managerId) {
    }
    AcyclicTerminates(rows, SeedRank, managerId);
  }

  /** Jamie alone has no manager. */
  lemma SeedTopReports()
    ensures DirectReports(InitialEmployees(), None) == [InitialEmployees()[2]]
  {
    var rows := InitialEmployees();
    assert DirectReports(rows[6..], None) == [];
    assert DirectReports(rows[5..], None) == [];
    assert DirectReports(rows[4..], None) == [];
    assert DirectReports(rows[3..], None) == [];
    assert DirectReports(rows[2..], None) == [rows[2]];
    assert DirectReports(rows[1..], None) == [rows[2]];
  }

  /** Alan then Steve report to Jamie (id 150). */
  lemma SeedJamieReports()
    ensures DirectReports(InitialEmployees(), Some(150)) == [InitialEmployees()[0], InitialEmployees()[4]]
  {
    var rows := InitialEmployees();
    assert DirectReports(rows[6..], Some(150)) == [];
    assert DirectReports(rows[5..], Some(150)) == [];
    assert DirectReports(rows[4..], Some(150)) == [rows[4]];
    assert DirectReports(rows[3..], Some(150)) == [rows[4]];
    assert DirectReports(rows[2..], Some(150)) == [rows[4]];
    assert DirectReports(rows[1..], Some(150)) == [rows[4]];
  }

  /** Martin then Alex report to Alan (id 100). */
  lemma SeedAlanReports()
    ensures DirectReports(InitialEmployees(), Some(100)) == [InitialEmployees()[1], InitialEmployees()[3]]
  {
    var rows := InitialEmployees();
    assert DirectReports(rows[6..], Some(100)) == [];
    assert DirectReports(rows[5..], Some(100)) == [];
    assert DirectReports(rows[4..], Some(100)) == [];
    assert DirectReports(rows[3..], Some(100)) == [rows[3]];
    assert DirectReports(rows[2..], Some(100)) == [rows[3]];
    assert DirectReports(rows[1..], Some(100)) == [rows[1], rows[3]];
  }

  /** David reports to Steve (id 400). */
  lemma SeedSteveReports()
    ensures DirectReports(InitialEmployees(), Some(400)) == [InitialEmployees()[5]]
  {
    var rows := InitialEmployees();
    assert DirectReports(rows[6..], Some(400)) == [];
    assert DirectReports(rows[5..], Some(400)) == [rows[5]];
    assert DirectReports(rows[4..], Some(400)) == [rows[5]];
    assert DirectReports(rows[3..], Some(400)) == [rows[5]];
    assert DirectReports(rows[2..], Some(400)) == [rows[5]];
    assert DirectReports(rows[1..], Some(400)) == [rows[5]];
  }

  /** Martin, Alex and David manage nobody. */
  lemma SeedLeaves(id: int)
    requires id == 220 || id == 275 || id == 190
    ensures forall e | e in InitialEmployees() :: e.managerId != Some(id)
  {
  }

  /** The forests the seed table yields below Alan, Steve, Jamie and the
      top, written out. */
  function AlanTeam(): seq<Employee>
  {
    [ Employee(220, "Martin", Some(100), Present([])),
      Employee(275, "Alex", Some(100), Present([])) ]
  }

  function SteveTeam(): seq<Employee>
  {
    [ Employee(190, "David", Some(400), Present([])) ]
  }

  function JamieTeam(): seq<Employee>
  {
    [ Employee(100, "Alan", Some(150), Present(AlanTeam())),
      Employee(400, "Steve", Some(150), Present(SteveTeam())) ]
  }

  function Company(): seq<Employee>
  {
    [ Employee(150, "Jamie", None, Present(JamieTeam())) ]
  }

  /** Alan (id 100) has two direct reports, Martin then Alex, neither of whom
      manages anyone. */
  lemma SeedFromAlan(depth: nat)
    requires WithinDepth(InitialEmployees(), ProductionRoot, depth)
    ensures BuildHierarchy(InitialEmployees(), ProductionRoot, depth) == AlanTeam()
  {
    var rows := InitialEmployees();
    SeedLeaves(220);
    SeedLeaves(275);
    SeedAlanReports();
    ReportWithoutReports(rows, ProductionRoot, depth, 0);
    ReportWithoutReports(rows, ProductionRoot, depth, 1);
  }

  /** Steve (id 400) has one direct report, David, who manages nobody. */
  lemma SeedFromSteve(depth: nat)
    requires WithinDepth(InitialEmployees(), Some(400), depth)
    ensures BuildHierarchy(InitialEmployees(), Some(400), depth) == SteveTeam()
  {
    var rows := InitialEmployees();
    SeedLeaves(190);
    SeedSteveReports();
    ReportWithoutReports(rows, Some(400), depth, 0);
  }

  /** Alan heads Jamie's list, with his own team below him. */
  lemma SeedJamieFirst(depth: nat)
    requires WithinDepth(InitialEmployees(), Some(150), depth)
    ensures |BuildHierarchy(InitialEmployees(), Some(150), depth)| == 2
    ensures BuildHierarchy(InitialEmployees(), Some(150), depth)[0] == JamieTeam()[0]
  {
    SeedJamieReports();
    SeedTerminates(Some(100));
    SeedFromAlan(3);
    ReportWithTeam(InitialEmployees(), Some(150), depth, 0, 3, AlanTeam());
  }

  /** Steve comes second on Jamie's list, with his own team below him. */
  lemma SeedJamieSecond(depth: nat)
    requires WithinDepth(InitialEmployees(), Some(150), depth)
    ensures |BuildHierarchy(InitialEmployees(), Some(150), depth)| == 2
    ensures BuildHierarchy(InitialEmployees(), Some(150), depth)[1] == JamieTeam()[1]
  {
    SeedJamieReports();
    SeedTerminates(Some(400));
    SeedFromSteve(3);
    ReportWithTeam(InitialEmployees(), Some(150), depth, 1, 3, SteveTeam());
  }

  /** Jamie (id 150) has two direct reports, Alan then Steve, with their
      teams below them. */
  lemma SeedFromJamie(depth: nat)
    requires WithinDepth(InitialEmployees(), Some(150), depth)
    ensures BuildHierarchy(InitialEmployees(), Some(150), depth) == JamieTeam()
  {
    SeedJamieFirst(depth);
    SeedJamieSecond(depth);
  }

  /** The written-out top-level forest: one root, Jamie, with two direct
      reports, six employees in all. */
  lemma CompanyShape()
    ensures |Company()| == 1 && Company()[0].name == "Jamie"
    ensures |Company()[0].subordinates.nodes| == 2
    ensures Count(Company()) == 6
  {
    assert Count(AlanTeam()) == 2;
    assert Count(SteveTeam()) == 1;
    assert Count(JamieTeam()) == 5;
  }

  /** From the top (`null`) the seed table is one tree: Jamie, with Alan and
      Steve as direct reports and Martin, Alex and David below them. */
  lemma SeedFromTop(depth: nat)
    requires WithinDepth(InitialEmployees(), None, depth)
    ensures BuildHierarchy(InitialEmployees(), None, depth) == Company()
  {
    var rows := InitialEmployees();
    SeedTopReports();
    SeedTerminates(Some(150));
    SeedFromJamie(4);
    ReportWithTeam(rows, None, depth, 0, 4, JamieTeam());
  }

  /** Alan's team displays as two unindented lines. */
  lemma AlanTeamDisplay()
    ensures DisplayHierarchy(AlanTeam()) == ["Martin", "Alex"]
  {
    var f := AlanTeam();
    assert "" + "Alex" == "Alex";
    assert "" + "Martin" == "Martin";
    assert DisplayHierarchy(f[2..], "") == [];
    assert DisplayHierarchy(f[1..], "") == ["Alex"];
  }

  /** The script's own report, on the seed table, is two unindented lines. */
  lemma SeedReportFromAlan(depth: nat)
    requires WithinDepth(InitialEmployees(), ProductionRoot, depth)
    ensures DisplayHierarchy(BuildHierarchy(InitialEmployees(), ProductionRoot, depth))
         == ["Martin", "Alex"]
  {
    SeedFromAlan(depth);
    AlanTeamDisplay();
  }

  /** From the top, the display is Jamie unindented, Alan and Steve two
      spaces in, and their reports four spaces in, each under its manager. */
  lemma CompanyDisplay()
    ensures DisplayHierarchy(Company())
         == ["Jamie", "  Alan", "    Martin", "    Alex", "  Steve", "    David"]
  {
    var alan, steve, jamie := AlanTeam(), SteveTeam(), JamieTeam();
    assert "    " + "Martin" == "    Martin";
    assert "    " + "Alex" == "    Alex";
    assert "    " + "David" == "    David";
    assert "  " + "Alan" == "  Alan";
    assert "  " + "Steve" == "  Steve";
    assert "" + "Jamie" == "Jamie";
    assert "  " + Step == "    ";
    assert "" + Step == "  ";
    assert DisplayHierarchy(alan[1..], "    ") == ["    Alex"];
    assert DisplayHierarchy(alan, "    ") == ["    Martin", "    Alex"];
    assert DisplayHierarchy(steve, "    ") == ["    David"];
    assert DisplayHierarchy(jamie[1..], "  ") == ["  Steve", "    David"];
    assert DisplayHierarchy(jamie, "  ") == ["  Alan", "    Martin", "    Alex", "  Steve", "    David"];
  }

  /** On the seed table, building from the top and displaying prints the whole
      company, "Jamie" first and unindented. */
  lemma SeedReportFromTop(depth: nat)
    requires WithinDepth(InitialEmployees(), None, depth)
    ensures DisplayHierarchy(BuildHierarchy(InitialEmployees(), None, depth))
         == ["Jamie", "  Alan", "    Martin", "    Alex", "  Steve", "    David"]
  {
    SeedFromTop(depth);
    CompanyDisplay();
  }

  /** Two records share id 5. The one reporting to 1 is a direct report; the other
      reports to id 5 and so to itself through the id they share. No bound exists
      from manager 1, although no record is its own direct report. */
  lemma SharedIdLoopDiverges(depth: nat)
    ensures !WithinDepth([Row(5, "A", Some(1)), Row(5, "B", Some(5))], Some(1), depth)
  {
    var rows := [Row(5, "A", Some(1)), Row(5, "B", Some(5))];
    assert rows[0] in rows && rows[0].managerId == Some(1) && rows[0].id in {5};
    assert rows[1] in rows && rows[1].managerId == Some(5) && rows[1].id in {5};
    assert ReportsWithin(rows, 5, {5});
    ReachableLoopDiverges(rows, Some(1), {5}, depth);
  }
}
