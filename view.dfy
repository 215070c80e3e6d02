/** The display list the component derives on every render: the task list filtered by
    the filter selector, then sorted by the sort selector. The sort runs on a copy, and
    the JavaScript sort is stable, so it is modelled as a stable insertion sort. */
module View {
  import opened Seqs
  import opened Dates
  import opened Tasks

  datatype Filter = All | Completed | Incompleted

  /** The sort selector; `DueDate` is the option whose value is the string "Due Date". */
  datatype Sort = None | Priority | DueDate

  predicate Shows(f: Filter, t: Task) {
    match f
    case All => true
    case Completed => t.completed
    case Incompleted => !t.completed
  }

  function ShownBy(f: Filter): Task -> bool {
    (t: Task) => Shows(f, t)
  }

  /** `filteredTasks`: the tasks the filter shows, in list order. */
  function FilterTasks(tasks: seq<Task>, f: Filter): (r: seq<Task>)
    ensures forall t :: t in r <==> t in tasks && Shows(f, t)
    ensures forall t :: multiset(r)[t] == if Shows(f, t) then multiset(tasks)[t] else 0
    ensures f == Completed ==> forall i :: 0 <= i < |r| ==> r[i].completed
    ensures f == Incompleted ==> forall i :: 0 <= i < |r| ==> !r[i].completed
  {
    var r := Select(tasks, ShownBy(f));
    assert forall i :: 0 <= i < |r| ==> r[i] in r;
    r
  }

  /** The filtered view keeps the tasks it shows in their list order. */
  lemma FilterIsSubsequence(tasks: seq<Task>, f: Filter)
    ensures IsSubsequence(FilterTasks(tasks, f), tasks)
  {
    SelectIsSubsequence(tasks, ShownBy(f));
  }

  /** The All filter shows the whole list. */
  lemma FilterAllIsIdentity(tasks: seq<Task>)
    ensures FilterTasks(tasks, All) == tasks
  {
    SelectAll(tasks, ShownBy(All));
  }

  /** `a` must be placed strictly before `b`: the comparator returns a negative number. */
  predicate Before(k: Sort, a: Task, b: Task) {
    match k
    case None => false
    case Priority => Rank(a.priority) > Rank(b.priority)
    case DueDate => LexLess(a.dueDate, b.dueDate)
  }

  /** The comparator returns 0: neither task has to come first. */
  predicate Tied(k: Sort, a: Task, b: Task) {
    !Before(k, a, b) && !Before(k, b, a)
  }

  /** No task comes strictly before itself. */
  lemma BeforeIrreflexive(k: Sort, a: Task)
    ensures !Before(k, a, a)
  {
    if k == DueDate { LexLessIrreflexive(a.dueDate); }
  }

  lemma BeforeAsymmetric(k: Sort, a: Task, b: Task)
    requires Before(k, a, b)
    ensures !Before(k, b, a)
  {
    if k == DueDate && LexLess(b.dueDate, a.dueDate) {
      LexLessTransitive(a.dueDate, b.dueDate, a.dueDate);
      LexLessIrreflexive(a.dueDate);
    }
  }

  /** "Not after" is transitive: the comparator is a total preorder. */
  lemma NotAfterTransitive(k: Sort, a: Task, b: Task, c: Task)
    requires !Before(k, b, a) && !Before(k, c, b)
    ensures !Before(k, c, a)
  {
    if k == DueDate {
      var x, y, z := a.dueDate, b.dueDate, c.dueDate;
      if LexLess(z, x) {
        if x != y { LexLessTotal(x, y); }
        if y != z { LexLessTotal(y, z); }
        if x == y { LexLessIrreflexive(x); }
        if LexLess(x, y) && LexLess(y, z) {
          LexLessTransitive(x, y, z);
          LexLessTransitive(z, x, z);
          LexLessIrreflexive(z);
        } else if LexLess(x, y) {
          LexLessTransitive(z, x, y);
          LexLessIrreflexive(y);
        } else {
          LexLessTransitive(y, z, x);
          LexLessIrreflexive(x);
        }
      }
    }
  }

  /** What a tie means: anything under None, equal priority, equal due-date string. */
  lemma TiedMeaning(k: Sort, a: Task, b: Task)
    ensures Tied(k, a, b) <==> match k
                               case None => true
                               case Priority => a.priority == b.priority
                               case DueDate => a.dueDate == b.dueDate
  {
    if k == DueDate {
      if a.dueDate != b.dueDate { LexLessTotal(a.dueDate, b.dueDate); }
      else { LexLessIrreflexive(a.dueDate); }
    }
  }

  /** Ties are transitive, so each sort key splits the tasks into tie classes. */
  lemma TiedTransitive(k: Sort, a: Task, b: Task, c: Task)
    requires Tied(k, a, b) && Tied(k, b, c)
    ensures Tied(k, a, c)
  {
    TiedMeaning(k, a, b);
    TiedMeaning(k, b, c);
    TiedMeaning(k, a, c);
  }

  /** Sorted by `k`: no task is placed after one it has to come before. */
  predicate Sorted(s: seq<Task>, k: Sort) {
    forall i, j :: 0 <= i < j < |s| ==> !Before(k, s[j], s[i])
  }

  /** Insert `x` into `s` in front of the first task it does not have to follow. */
  function Insert(x: Task, s: seq<Task>, k: Sort): (r: seq<Task>)
    ensures |r| == |s| + 1
    ensures multiset(r) == multiset(s) + multiset{x}
  {
    if s == [] || !Before(k, s[0], x) then [x] + s
    else
      assert s == [s[0]] + s[1..];
      [s[0]] + Insert(x, s[1..], k)
  }

  /** `sortedTasks`: a stable insertion sort of `s` by the comparator of `k`. */
  function SortTasks(s: seq<Task>, k: Sort): (r: seq<Task>)
    ensures |r| == |s|
    ensures multiset(r) == multiset(s)
  {
    if s == [] then []
    else
      assert s == [s[0]] + s[1..];
      Insert(s[0], SortTasks(s[1..], k), k)
  }

  lemma {:induction false} InsertSorted(x: Task, s: seq<Task>, k: Sort)
    requires Sorted(s, k)
    ensures Sorted(Insert(x, s, k), k)
  {
    var r := Insert(x, s, k);
    if s == [] {
    } else if !Before(k, s[0], x) {
      forall i, j | 0 <= i < j < |r| ensures !Before(k, r[j], r[i]) {
        if i == 0 {
          assert r[j] == s[j - 1];
          if j > 1 { NotAfterTransitive(k, x, s[0], s[j - 1]); }
        } else {
          assert r[i] == s[i - 1] && r[j] == s[j - 1];
        }
      }
    } else {
      var rest := s[1..];
      assert Sorted(rest, k) by {
        forall i, j | 0 <= i < j < |rest| ensures !Before(k, rest[j], rest[i]) {
          assert rest[i] == s[i + 1] && rest[j] == s[j + 1];
        }
      }
      InsertSorted(x, rest, k);
      var tail := Insert(x, rest, k);
      assert r == [s[0]] + tail;
      BeforeAsymmetric(k, s[0], x);
      forall i, j | 0 <= i < j < |r| ensures !Before(k, r[j], r[i]) {
        if i == 0 {
          assert r[j] == tail[j - 1];
          assert r[j] in multiset(tail);
          if r[j] != x {
            assert r[j] in rest;
            var m :| 0 <= m < |rest| && rest[m] == r[j];
            assert rest[m] == s[m + 1];
          }
        } else {
          assert r[i] == tail[i - 1] && r[j] == tail[j - 1];
        }
      }
    }
  }

  /** The sorted view is ordered by the comparator. */
  lemma {:induction false} SortTasksSorted(s: seq<Task>, k: Sort)
    ensures Sorted(SortTasks(s, k), k)
  {
    if s != [] {
      SortTasksSorted(s[1..], k);
      InsertSorted(s[0], SortTasks(s[1..], k), k);
    }
  }

  function TiedWith(k: Sort, y: Task): Task -> bool {
    (t: Task) => Tied(k, t, y)
  }

  /** Two tasks one of which has to come before the other are not both tied with a third. */
  lemma NotBothTied(k: Sort, a: Task, b: Task, y: Task)
    requires Before(k, a, b)
    ensures !(Tied(k, a, y) && Tied(k, b, y))
  {
    TiedMeaning(k, a, y);
    TiedMeaning(k, b, y);
    TiedMeaning(k, a, b);
  }

  lemma {:induction false} InsertStable(x: Task, s: seq<Task>, k: Sort, y: Task)
    ensures Select(Insert(x, s, k), TiedWith(k, y)) == Select([x] + s, TiedWith(k, y))
  {
    if s != [] && Before(k, s[0], x) {
      var p := TiedWith(k, y);
      var rest := s[1..];
      var inserted := Insert(x, rest, k);
      assert s == [s[0]] + rest;
      assert Insert(x, s, k) == [s[0]] + inserted;
      InsertStable(x, rest, k, y);
      SelectCons(s[0], inserted, p);
      SelectCons(s[0], [x] + rest, p);
      NotBothTied(k, s[0], x, y);
      assert !(p(s[0]) && p(x));
      SelectSwap(s[0], x, rest, p);
    }
  }

  /** Stability: for every task `y`, the tasks tied with `y` appear in the sorted view in
      the order they had before sorting. */
  lemma {:induction false} SortTasksStable(s: seq<Task>, k: Sort, y: Task)
    ensures Select(SortTasks(s, k), TiedWith(k, y)) == Select(s, TiedWith(k, y))
  {
    if s != [] {
      var rest := s[1..];
      assert s == [s[0]] + rest;
      SortTasksStable(rest, k, y);
      InsertStable(s[0], SortTasks(rest, k), k, y);
      SelectCons(s[0], SortTasks(rest, k), TiedWith(k, y));
      SelectCons(s[0], rest, TiedWith(k, y));
    }
  }

  /** Two tasks are swapped exactly when the second has to come before the first. */
  lemma SortPair(a: Task, b: Task, k: Sort)
    ensures SortTasks([a, b], k) == if Before(k, b, a) then [b, a] else [a, b]
  {
    assert [a, b][1..] == [b] && [b][1..] == [];
    assert SortTasks([b], k) == Insert(b, [], k) == [b];
    assert SortTasks([a, b], k) == Insert(a, [b], k);
  }

  /** Sorting by None keeps the filtered order. */
  lemma {:induction false} SortNoneIsIdentity(s: seq<Task>)
    ensures SortTasks(s, None) == s
  {
    if s != [] {
      SortNoneIsIdentity(s[1..]);
      assert s == [s[0]] + s[1..];
    }
  }

  /** Sorting by Priority gives non-increasing rank, High before Medium before Low. */
  lemma SortByPriorityDescending(s: seq<Task>)
    ensures forall i, j :: 0 <= i < j < |SortTasks(s, Priority)| ==>
              Rank(SortTasks(s, Priority)[i].priority) >= Rank(SortTasks(s, Priority)[j].priority)
  {
    SortTasksSorted(s, Priority);
  }

  /** Sorting by Priority keeps the tasks of each priority in their original order. */
  lemma SortByPriorityStable(s: seq<Task>, y: Task)
    ensures Select(SortTasks(s, Priority), TiedWith(Priority, y))
         == Select(s, TiedWith(Priority, y))
    ensures forall t :: TiedWith(Priority, y)(t) <==> t.priority == y.priority
  {
    SortTasksStable(s, Priority, y);
    forall t ensures TiedWith(Priority, y)(t) <==> t.priority == y.priority {
      TiedMeaning(Priority, t, y);
    }
  }

  /** Sorting by Due Date puts well-formed dates in chronological order. */
  lemma SortByDueDateChronological(s: seq<Task>)
    requires forall i :: 0 <= i < |s| ==> IsIsoDate(s[i].dueDate)
    ensures forall i, j :: 0 <= i < j < |SortTasks(s, DueDate)| ==>
              IsIsoDate(SortTasks(s, DueDate)[i].dueDate) && IsIsoDate(SortTasks(s, DueDate)[j].dueDate)
              && CalendarKey(SortTasks(s, DueDate)[i].dueDate) <= CalendarKey(SortTasks(s, DueDate)[j].dueDate)
  {
    var r := SortTasks(s, DueDate);
    SortTasksSorted(s, DueDate);
    forall i | 0 <= i < |r| ensures IsIsoDate(r[i].dueDate) {
      assert r[i] in multiset(s);
      var m :| 0 <= m < |s| && s[m] == r[i];
    }
    forall i, j | 0 <= i < j < |r| ensures CalendarKey(r[i].dueDate) <= CalendarKey(r[j].dueDate) {
      DateOrderIsChronological(r[j].dueDate, r[i].dueDate);
    }
  }

  /** The display list: the filtered tasks, sorted. It shows exactly the tasks the filter
      selects, each as often as in the list, ordered by the sort key. */
  function DeriveView(tasks: seq<Task>, f: Filter, k: Sort): (r: seq<Task>)
    ensures forall t :: t in r <==> t in tasks && Shows(f, t)
    ensures forall t :: multiset(r)[t] == if Shows(f, t) then multiset(tasks)[t] else 0
    ensures Sorted(r, k)
  {
    SortTasksSorted(FilterTasks(tasks, f), k);
    SortTasks(FilterTasks(tasks, f), k)
  }

  /** With sort None the display list is a subsequence of the task list. */
  lemma DeriveViewUnsorted(tasks: seq<Task>, f: Filter)
    ensures DeriveView(tasks, f, None) == FilterTasks(tasks, f)
    ensures IsSubsequence(DeriveView(tasks, f, None), tasks)
    ensures f == All ==> DeriveView(tasks, f, None) == tasks
  {
    SortNoneIsIdentity(FilterTasks(tasks, f));
    FilterIsSubsequence(tasks, f);
    FilterAllIsIdentity(tasks);
  }

  /** Tasks A (High, due 2024-01-10) and B (Low, due 2024-01-05), added in that order:
      sorting by Due Date shows B before A, sorting by Priority shows A before B. */
  lemma ScenarioSortOrders(a: Task, b: Task)
    requires a.priority == High && a.dueDate == "2024-01-10"
    requires b.priority == Low && b.dueDate == "2024-01-05"
    ensures DeriveView([a, b], All, DueDate) == [b, a]
    ensures DeriveView([a, b], All, Priority) == [a, b]
  {
    FilterAllIsIdentity([a, b]);
    assert b.dueDate[..8] == a.dueDate[..8];
    LexLessAt(b.dueDate, a.dueDate, 8);
    SortPair(a, b, DueDate);
    SortPair(a, b, Priority);
  }

  /** Task A, once completed, is the whole Completed view and absent from the Incompleted view. */
  lemma ScenarioCompleteThenFilter(a: Task, k: Sort)
    requires !a.completed
    ensures DeriveView(ToggleTasks([a], a.id), Incompleted, k) == []
    ensures DeriveView(ToggleTasks([a], a.id), Completed, k) == [a.(completed := true)]
  {
    var done := ToggleTasks([a], a.id);
    assert done == [a.(completed := true)];
    var shown := DeriveView(done, Completed, k);
    assert multiset(shown)[done[0]] == 1;
    assert |shown| == |FilterTasks(done, Completed)|;
  }
}
