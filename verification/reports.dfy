/** The stable filter `employees.filter(e => e.manager_id === managerId)`. */
module Reports {
  import opened Wrappers
  import opened Employees

  /** `s` is `t` with some elements deleted and the rest kept in order. */
  ghost predicate Subsequence<T>(s: seq<T>, t: seq<T>)
    decreases |t|
  {
    if |s| == 0 then true
    else if |t| == 0 then false
    else (s[0] == t[0] && Subsequence(s[1..], t[1..])) || Subsequence(s, t[1..])
  }

  /** How often `e` must occur in the direct reports of `managerId`: as often
      as in `employees` when it reports to `managerId`, otherwise never. */
  ghost function Expected(employees: seq<Employee>, managerId: Option<int>, e: Employee): nat
  {
    if e.managerId == managerId then multiset(employees)[e] else 0
  }

  /** The records of `employees` whose manager is `managerId`, in their
      original relative order; `None` selects the records with no manager. */
  function DirectReports(employees: seq<Employee>, managerId: Option<int>): (r: seq<Employee>)
    ensures forall i | 0 <= i < |r| :: r[i] in employees && r[i].managerId == managerId
    ensures forall e :: multiset(r)[e] == Expected(employees, managerId, e)
    decreases |employees|
  {
    if |employees| == 0 then []
    else
      var head := employees[0];
      var rest := DirectReports(employees[1..], managerId);
      assert employees == [head] + employees[1..];
      if head.managerId == managerId then [head] + rest else rest
  }

  /** The direct reports keep their relative order from the input: the
      filter deletes records, it never moves them. */
  lemma {:induction false} DirectReportsInOrder(employees: seq<Employee>, managerId: Option<int>)
    ensures Subsequence(DirectReports(employees, managerId), employees)
    decreases |employees|
  {
    if |employees| > 0 {
      var rest := DirectReports(employees[1..], managerId);
      DirectReportsInOrder(employees[1..], managerId);
      if employees[0].managerId != managerId && |rest| > 0 {
        assert Subsequence(rest, employees[1..]);
      }
    }
  }

  /** No record reporting to `managerId` is left out. */
  lemma ReportIsSelected(employees: seq<Employee>, managerId: Option<int>, e: Employee)
    requires e in employees && e.managerId == managerId
    ensures e in DirectReports(employees, managerId)
  {
    assert multiset(DirectReports(employees, managerId))[e] == multiset(employees)[e];
  }

  /** Deleting elements never adds occurrences. */
  lemma {:induction false} SubsequenceMultiset<T>(s: seq<T>, t: seq<T>)
    requires Subsequence(s, t)
    ensures multiset(s) <= multiset(t)
    decreases |t|
  {
    if |s| == 0 {
    } else {
      assert t == [t[0]] + t[1..];
      if s[0] == t[0] && Subsequence(s[1..], t[1..]) {
        SubsequenceMultiset(s[1..], t[1..]);
        assert s == [s[0]] + s[1..];
      } else {
        SubsequenceMultiset(s, t[1..]);
      }
    }
  }

  /** The stable filter is the only subsequence of `employees` holding each
      record exactly as often as `DirectReports` promises: the direct reports
      are neither reordered nor repeated nor dropped. */
  lemma {:induction false} DirectReportsUnique(employees: seq<Employee>, managerId: Option<int>, s: seq<Employee>)
    requires Subsequence(s, employees)
    requires forall e :: multiset(s)[e] == Expected(employees, managerId, e)
    ensures s == DirectReports(employees, managerId)
    decreases |employees|
  {
    if |employees| == 0 {
      assert |s| == 0;
    } else {
      var head, tail := employees[0], employees[1..];
      assert employees == [head] + tail;
      if head.managerId == managerId {
        assert multiset(s)[head] > 0;
        assert |s| > 0;
        if s[0] == head && Subsequence(s[1..], tail) {
          assert s == [head] + s[1..];
          assert multiset(s) == multiset{head} + multiset(s[1..]);
          assert multiset(employees) == multiset{head} + multiset(tail);
          forall e ensures multiset(s[1..])[e] == Expected(tail, managerId, e) {
            assert multiset(s)[e] == Expected(employees, managerId, e);
          }
          DirectReportsUnique(tail, managerId, s[1..]);
        } else {
          SubsequenceMultiset(s, tail);
          assert false;
        }
      } else {
        if |s| > 0 {
          assert multiset(s)[s[0]] > 0;
          assert s[0] != head;
        }
        assert multiset(employees) == multiset{head} + multiset(tail);
        forall e ensures multiset(s)[e] == Expected(tail, managerId, e) {
          assert multiset(s)[e] == Expected(employees, managerId, e);
        }
        DirectReportsUnique(tail, managerId, s);
      }
    }
  }
}
