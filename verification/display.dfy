/** `displayHierarchy`: one console line per employee, indented by depth.
    The lines are returned instead of written to the console. */
module Display {
  import opened Employees

  /** The step by which each level of nesting is indented. */
  const Step: string := "  "

  /** `n` spaces. */
  function Spaces(n: nat): string
  {
    seq(n, _ => ' ')
  }

  /** `displayHierarchy(hierarchy, indent)`: for each employee in order, the
      line `indent + name`, followed, when its `subordinates` list is present
      and non-empty, by the lines of that list one `Step` further in. */
  function DisplayHierarchy(hierarchy: seq<Employee>, indent: string := ""): (lines: seq<string>)
    ensures |lines| == Count(hierarchy)
    decreases hierarchy
  {
    if |hierarchy| == 0 then []
    else
      var employee := hierarchy[0];
      var below :=
        if employee.subordinates.Present? && |employee.subordinates.nodes| > 0
        then DisplayHierarchy(employee.subordinates.nodes, indent + Step)
        else [];
      [indent + employee.name] + below + DisplayHierarchy(hierarchy[1..], indent)
  }

  /** The same traversal without the non-empty test: it descends into every
      present `subordinates` list, empty or not. */
  function DisplayEveryList(hierarchy: seq<Employee>, indent: string): (lines: seq<string>)
    decreases hierarchy
  {
    if |hierarchy| == 0 then []
    else
      var employee := hierarchy[0];
      var below := match employee.subordinates
        case Missing => []
        case Present(nodes) => DisplayEveryList(nodes, indent + Step);
      [indent + employee.name] + below + DisplayEveryList(hierarchy[1..], indent)
  }

  /** Pre-order walk of a forest whose top level is at `depth`: an employee,
      then everything below it, then its next sibling; each visit records the
      employee's depth and name. */
  function PreOrder(forest: seq<Employee>, depth: nat): (visits: seq<(nat, string)>)
    ensures |visits| == Count(forest)
    ensures forall k | 0 <= k < |visits| :: visits[k].0 >= depth
    decreases forest
  {
    if |forest| == 0 then []
    else
      var below := match forest[0].subordinates
        case Missing => []
        case Present(nodes) => PreOrder(nodes, depth + 1);
      [(depth, forest[0].name)] + below + PreOrder(forest[1..], depth)
  }

  /** Formats visits as lines: `indent`, then two spaces per level of depth,
      then the name. */
  function Render(visits: seq<(nat, string)>, indent: string): seq<string>
  {
    seq(|visits|, k requires 0 <= k < |visits| => indent + Spaces(2 * visits[k].0) + visits[k].1)
  }

  lemma RenderAppend(a: seq<(nat, string)>, b: seq<(nat, string)>, indent: string)
    ensures Render(a + b, indent) == Render(a, indent) + Render(b, indent)
  {
  }

  lemma SpacesStep(depth: nat)
    ensures Spaces(2 * depth) + Step == Spaces(2 * (depth + 1))
  {
  }

  /** Generalisation of `DisplayIsIndentedPreOrder` to a forest displayed
      `depth` levels in. */
  lemma {:induction false} DisplayAtDepth(forest: seq<Employee>, indent: string, depth: nat)
    ensures DisplayHierarchy(forest, indent + Spaces(2 * depth)) == Render(PreOrder(forest, depth), indent)
    decreases forest
  {
    if |forest| > 0 {
      var e := forest[0];
      var here := indent + Spaces(2 * depth);
      var below := match e.subordinates
        case Missing => []
        case Present(nodes) => PreOrder(nodes, depth + 1);
      if e.subordinates.Present? {
        SpacesStep(depth);
        assert here + Step == indent + Spaces(2 * (depth + 1));
        DisplayAtDepth(e.subordinates.nodes, indent, depth + 1);
      }
      DisplayAtDepth(forest[1..], indent, depth);
      RenderAppend([(depth, e.name)] + below, PreOrder(forest[1..], depth), indent);
      RenderAppend([(depth, e.name)], below, indent);
    }
  }

  /** The displayed lines are the pre-order walk of the forest, each line
      being `indent`, two spaces per level of depth and the name: top-level
      names appear with `indent` alone, and a node is followed by all of its
      subordinates before its next sibling. */
  lemma DisplayIsIndentedPreOrder(forest: seq<Employee>, indent: string)
    ensures DisplayHierarchy(forest, indent) == Render(PreOrder(forest, 0), indent)
  {
    assert indent + Spaces(0) == indent;
    DisplayAtDepth(forest, indent, 0);
  }

  /** The non-empty test before recursing changes nothing: descending into an
      empty list prints nothing, and a missing list prints nothing either. */
  lemma {:induction false} NonEmptyTestIsRedundant(hierarchy: seq<Employee>, indent: string)
    ensures DisplayHierarchy(hierarchy, indent) == DisplayEveryList(hierarchy, indent)
    decreases hierarchy
  {
    if |hierarchy| > 0 {
      var e := hierarchy[0];
      if e.subordinates.Present? {
        NonEmptyTestIsRedundant(e.subordinates.nodes, indent + Step);
      }
      NonEmptyTestIsRedundant(hierarchy[1..], indent);
    }
  }

  /** `forEach` over a concatenation: displaying `a + b` displays `a`, then `b`. */
  lemma {:induction false} DisplayAppend(a: seq<Employee>, b: seq<Employee>, indent: string)
    ensures DisplayHierarchy(a + b, indent) == DisplayHierarchy(a, indent) + DisplayHierarchy(b, indent)
    decreases |a|
  {
    if |a| > 0 {
      assert (a + b)[0] == a[0];
      assert (a + b)[1..] == a[1..] + b;
      DisplayAppend(a[1..], b, indent);
    } else {
      assert a + b == b;
    }
  }
}
