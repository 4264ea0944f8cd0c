/**
 * The task record every component shares, the plain objects that are spread
 * over it, and `Array.prototype.filter` over a task list, which the filter
 * engine, the statistics, the calendar and deletion all use.
 */
module Tasks {
  import opened Wrappers
  import opened Dates

  /** The three values the priority selects offer. */
  datatype Priority = Low | Medium | High

  /**
   * A stored task. `dueDate` is None when the key is absent or holds the empty
   * string; `createdAt` is the ISO timestamp text the store was given.
   */
  datatype Task = Task(
    id: string,
    title: string,
    description: string,
    priority: Priority,
    dueDate: Option<CalendarDate>,
    completed: bool,
    createdAt: string)

  /**
   * A plain object whose own keys are among a task's keys: Some(v) for a key
   * that is present with value v, None for a key that is absent.
   */
  datatype Patch = Patch(
    id: Option<string>,
    title: Option<string>,
    description: Option<string>,
    priority: Option<Priority>,
    dueDate: Option<Option<CalendarDate>>,
    completed: Option<bool>,
    createdAt: Option<string>)

  /** `{ ...t, ...p }`: every key present in p overwrites the task's value. */
  function Spread(t: Task, p: Patch): (r: Task)
    ensures p == Patch(None, None, None, None, None, None, None) ==> r == t
    ensures p.id.None? && p.completed.None? && p.createdAt.None? ==>
      r.id == t.id && r.completed == t.completed && r.createdAt == t.createdAt
  {
    Task(
      p.id.GetOr(t.id),
      p.title.GetOr(t.title),
      p.description.GetOr(t.description),
      p.priority.GetOr(t.priority),
      p.dueDate.GetOr(t.dueDate),
      p.completed.GetOr(t.completed),
      p.createdAt.GetOr(t.createdAt))
  }

  /** The four user-editable fields, as the add forms and the edit form hold them. */
  datatype Draft = Draft(title: string, description: string, priority: Priority, dueDate: Option<CalendarDate>)

  /** The object literal `{ title, description, priority, dueDate }` built from a draft. */
  function DraftPatch(d: Draft): (p: Patch)
    ensures p.id.None? && p.completed.None? && p.createdAt.None?
  {
    Patch(None, Some(d.title), Some(d.description), Some(d.priority), Some(d.dueDate), None, None)
  }

  /** `{ title: task.title, description: task.description, priority: task.priority, dueDate: task.dueDate }` */
  function DraftOf(t: Task): Draft {
    Draft(t.title, t.description, t.priority, t.dueDate)
  }

  /** A form's `onChange`: `{ ...prev, [name]: value }` for one of the four inputs. */
  datatype FieldChange =
    | TitleInput(title: string)
    | DescriptionInput(description: string)
    | PriorityInput(priority: Priority)
    | DueDateInput(dueDate: Option<CalendarDate>)

  function ApplyChange(d: Draft, c: FieldChange): (r: Draft)
    ensures c.TitleInput? ==> r == d.(title := c.title)
    ensures c.DescriptionInput? ==> r == d.(description := c.description)
    ensures c.PriorityInput? ==> r == d.(priority := c.priority)
    ensures c.DueDateInput? ==> r == d.(dueDate := c.dueDate)
  {
    match c
    case TitleInput(v) => d.(title := v)
    case DescriptionInput(v) => d.(description := v)
    case PriorityInput(v) => d.(priority := v)
    case DueDateInput(v) => d.(dueDate := v)
  }

  /** The predicates the source passes to `tasks.filter`. */
  datatype Criterion =
    | NotCompleted                 // task => !task.completed
    | IsCompleted                  // task => task.completed
    | PriorityIs(p: Priority)      // task => task.priority === p
    | HighAndActive                // task => task.priority === 'high' && !task.completed
    | DueOn(date: CalendarDate)    // task has a dueDate whose key equals the date's
    | IdIsNot(id: string)          // task => task.id !== id

  predicate Matches(t: Task, c: Criterion) {
    match c
    case NotCompleted => !t.completed
    case IsCompleted => t.completed
    case PriorityIs(p) => t.priority == p
    case HighAndActive => t.priority == High && !t.completed
    case DueOn(date) => t.dueDate == Some(date)
    case IdIsNot(id) => t.id != id
  }

  /** `tasks.filter(c)` */
  function Select(s: seq<Task>, c: Criterion): (r: seq<Task>)
    ensures |r| <= |s|
    ensures forall t :: t in r ==> Matches(t, c)
    decreases |s|
  {
    if s == [] then []
    else (if Matches(s[0], c) then [s[0]] else []) + Select(s[1..], c)
  }

  /** a can be obtained from b by deleting elements: nothing added, duplicated or reordered. */
  predicate SubsequenceOf(a: seq<Task>, b: seq<Task>)
    decreases |b|
  {
    a == [] || (b != [] && ((a[0] == b[0] && SubsequenceOf(a[1..], b[1..])) || SubsequenceOf(a, b[1..])))
  }

  /**
   * r is exactly the elements of s that satisfy c, in their order in s: an
   * all-matching subsequence of s that contains every other one.
   */
  ghost predicate IsExactSelection(r: seq<Task>, s: seq<Task>, c: Criterion) {
    && SubsequenceOf(r, s)
    && (forall t :: t in r ==> Matches(t, c))
    && (forall q :: SubsequenceOf(q, s) && (forall t :: t in q ==> Matches(t, c)) ==> SubsequenceOf(q, r))
  }

  lemma {:induction false} SubsequenceLength(a: seq<Task>, b: seq<Task>)
    requires SubsequenceOf(a, b)
    ensures |a| <= |b|
    ensures |a| == |b| ==> a == b
    decreases |b|
  {
    if a != [] {
      if a[0] == b[0] && SubsequenceOf(a[1..], b[1..]) {
        SubsequenceLength(a[1..], b[1..]);
        if |a| == |b| {
          assert a == [a[0]] + a[1..] && b == [b[0]] + b[1..];
        }
      } else {
        SubsequenceLength(a, b[1..]);
      }
    }
  }

  lemma {:induction false} SubsequenceMembership(a: seq<Task>, b: seq<Task>, t: Task)
    requires SubsequenceOf(a, b) && t in a
    ensures t in b
    decreases |b|
  {
    if a[0] == b[0] && SubsequenceOf(a[1..], b[1..]) {
      if t != a[0] {
        SubsequenceMembership(a[1..], b[1..], t);
      }
    } else {
      SubsequenceMembership(a, b[1..], t);
    }
  }

  lemma {:induction false} SubsequenceRefl(a: seq<Task>)
    ensures SubsequenceOf(a, a)
    decreases |a|
  {
    if a != [] {
      SubsequenceRefl(a[1..]);
    }
  }

  /** Prepending an element to the larger sequence keeps the relation. */
  lemma SubsequenceCons(a: seq<Task>, x: Task, b: seq<Task>)
    requires SubsequenceOf(a, b)
    ensures SubsequenceOf(a, [x] + b)
  {
    assert ([x] + b)[1..] == b;
  }

  lemma {:induction false} SelectIsSubsequence(s: seq<Task>, c: Criterion)
    ensures SubsequenceOf(Select(s, c), s)
    decreases |s|
  {
    if s != [] {
      SelectIsSubsequence(s[1..], c);
      var rest := Select(s[1..], c);
      if Matches(s[0], c) {
        assert Select(s, c) == [s[0]] + rest;
        assert ([s[0]] + rest)[1..] == rest;
      } else {
        assert Select(s, c) == rest;
      }
    }
  }

  /** Every all-matching subsequence of s is a subsequence of Select(s, c). */
  lemma {:induction false} SelectIsGreatest(s: seq<Task>, c: Criterion, q: seq<Task>)
    requires SubsequenceOf(q, s)
    requires forall t :: t in q ==> Matches(t, c)
    ensures SubsequenceOf(q, Select(s, c))
    decreases |s|
  {
    if q != [] {
      var rest := Select(s[1..], c);
      if q[0] == s[0] && SubsequenceOf(q[1..], s[1..]) {
        assert q[0] in q;
        SelectIsGreatest(s[1..], c, q[1..]);
        assert Select(s, c) == [s[0]] + rest;
        assert ([s[0]] + rest)[1..] == rest;
      } else {
        SelectIsGreatest(s[1..], c, q);
        if Matches(s[0], c) {
          assert Select(s, c) == [s[0]] + rest;
          SubsequenceCons(q, s[0], rest);
        } else {
          assert Select(s, c) == rest;
        }
      }
    }
  }

  /** Select is the filter: exactly the matching elements, in their original order. */
  lemma SelectExact(s: seq<Task>, c: Criterion)
    ensures IsExactSelection(Select(s, c), s, c)
  {
    SelectIsSubsequence(s, c);
    forall q | SubsequenceOf(q, s) && (forall t :: t in q ==> Matches(t, c))
      ensures SubsequenceOf(q, Select(s, c))
    {
      SelectIsGreatest(s, c, q);
    }
  }

  /** The exact selection is unique, so any sequence with that property is Select(s, c). */
  lemma ExactSelectionUnique(r: seq<Task>, s: seq<Task>, c: Criterion)
    requires IsExactSelection(r, s, c)
    ensures r == Select(s, c)
  {
    SelectExact(s, c);
    var f := Select(s, c);
    assert SubsequenceOf(r, f);
    assert SubsequenceOf(f, r);
    SubsequenceLength(r, f);
    SubsequenceLength(f, r);
  }

  /** A task is kept exactly when it occurs in the input and satisfies the predicate. */
  lemma {:induction false} SelectMembership(s: seq<Task>, c: Criterion, t: Task)
    ensures t in Select(s, c) <==> t in s && Matches(t, c)
    decreases |s|
  {
    if s != [] {
      SelectMembership(s[1..], c, t);
      assert s == [s[0]] + s[1..];
    }
  }

  lemma {:induction false} SelectAppend(s: seq<Task>, c: Criterion, t: Task)
    ensures Select(s + [t], c) == Select(s, c) + (if Matches(t, c) then [t] else [])
    decreases |s|
  {
    if s == [] {
      assert [t][1..] == [];
    } else {
      assert (s + [t])[1..] == s[1..] + [t];
      SelectAppend(s[1..], c, t);
    }
  }

  lemma {:induction false} SelectAllMatching(s: seq<Task>, c: Criterion)
    requires forall i :: 0 <= i < |s| ==> Matches(s[i], c)
    ensures Select(s, c) == s
    decreases |s|
  {
    if s != [] {
      SelectAllMatching(s[1..], c);
      assert s == [s[0]] + s[1..];
    }
  }

  lemma {:induction false} SelectNoneMatching(s: seq<Task>, c: Criterion)
    requires forall i :: 0 <= i < |s| ==> !Matches(s[i], c)
    ensures Select(s, c) == []
    decreases |s|
  {
    if s != [] {
      SelectNoneMatching(s[1..], c);
    }
  }

  /** Two predicates that are complements split s: the multisets of their selections union to s. */
  lemma {:induction false} SelectComplementMultiset(s: seq<Task>, c: Criterion, d: Criterion)
    requires forall t :: Matches(t, d) <==> !Matches(t, c)
    ensures multiset(Select(s, c)) + multiset(Select(s, d)) == multiset(s)
    decreases |s|
  {
    if s != [] {
      SelectComplementMultiset(s[1..], c, d);
      var x, rc, rd := s[0], Select(s[1..], c), Select(s[1..], d);
      assert s == [x] + s[1..];
      assert multiset(s) == multiset{x} + multiset(s[1..]);
      if Matches(x, c) {
        assert Select(s, c) == [x] + rc;
        assert Select(s, d) == rd;
        assert multiset(Select(s, c)) == multiset{x} + multiset(rc);
      } else {
        assert Select(s, c) == rc;
        assert Select(s, d) == [x] + rd;
        assert multiset(Select(s, d)) == multiset{x} + multiset(rd);
      }
    }
  }

  /** Two predicates that are complements split s: the lengths add up and the multisets union to s. */
  lemma SelectComplement(s: seq<Task>, c: Criterion, d: Criterion)
    requires forall t :: Matches(t, d) <==> !Matches(t, c)
    ensures |Select(s, c)| + |Select(s, d)| == |s|
    ensures multiset(Select(s, c)) + multiset(Select(s, d)) == multiset(s)
  {
    SelectComplementMultiset(s, c, d);
    assert |multiset(Select(s, c)) + multiset(Select(s, d))| == |multiset(s)|;
  }

  /** A predicate implying another selects no more elements. */
  lemma {:induction false} SelectImplied(s: seq<Task>, c: Criterion, d: Criterion)
    requires forall t :: Matches(t, c) ==> Matches(t, d)
    ensures |Select(s, c)| <= |Select(s, d)|
    decreases |s|
  {
    if s != [] {
      SelectImplied(s[1..], c, d);
    }
  }
}
