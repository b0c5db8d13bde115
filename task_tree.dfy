/** The task tree of src/tasks.ts: command tasks, regular tasks and parent
    tasks with ordered children, the positions of tasks in it, and the
    uniqueness of titles. */
module TaskTree {
  import opened Wrappers
  import opened Context

  /** What a task's own `skip` property returns: a boolean, a message, or
      nothing (`undefined`). */
  datatype SkipResult = Flag(b: bool) | Message(text: string) | Unset
  {
    /** JavaScript truthiness of the result. */
    predicate Truthy()
    {
      (Flag? && b) || (Message? && text != "")
    }
  }

  /** A task's own `skip` property, applied to the user's part of the
      context. */
  type UserSkip = Fields -> SkipResult

  /** The three kinds of task. The properties that only run code (`command`,
      `options`, `run`, `addContext`, `background`, `concurrent`) play no part
      in selection and are not carried. */
  datatype Task =
    | Command(title: string, tags: Option<seq<string>>, skip: Option<UserSkip>)
    | Regular(title: string, tags: Option<seq<string>>, skip: Option<UserSkip>)
    | Parent(title: string, children: seq<Task>, skip: Option<UserSkip>)

  // -------------------------------------------------------------------------
  // Dispatch (isCommandTask, isRegularTask, isParentTask, createListrTask)

  /** Which of the declared properties a task object has. */
  datatype Shape = Shape(hasCommand: bool, hasRun: bool, hasChildren: bool)

  datatype Kind = CommandKind | RegularKind | ParentKind

  /** `createListrTask`: a task with `command` is a command task whatever else
      it has, then one with `run` is a regular task, and anything else is
      treated as a parent. The contract spells out the order of the tests;
      that each declared kind reaches its own constructor is
      `DispatchFollowsDeclaration`. */
  function Dispatch(shape: Shape): (kind: Kind)
    ensures kind == CommandKind <==> shape.hasCommand
    ensures kind == RegularKind <==> !shape.hasCommand && shape.hasRun
    ensures kind == ParentKind <==> !shape.hasCommand && !shape.hasRun
  {
    if shape.hasCommand then CommandKind
    else if shape.hasRun then RegularKind
    else ParentKind
  }

  function ShapeOf(t: Task): Shape
  {
    Shape(t.Command?, t.Regular?, t.Parent?)
  }

  /** Each kind of declared task is dispatched to its own constructor. */
  lemma DispatchFollowsDeclaration(t: Task)
    ensures Dispatch(ShapeOf(t)) == CommandKind <==> t.Command?
    ensures Dispatch(ShapeOf(t)) == RegularKind <==> t.Regular?
    ensures Dispatch(ShapeOf(t)) == ParentKind <==> t.Parent?
  {
  }

  // -------------------------------------------------------------------------
  // Positions

  /** A path of child indices leading from `t` to one of its tasks. */
  ghost predicate ValidPath(t: Task, p: seq<nat>)
    decreases |p|
  {
    p == [] || (t.Parent? && p[0] < |t.children| && ValidPath(t.children[p[0]], p[1..]))
  }

  ghost function At(t: Task, p: seq<nat>): Task
    requires ValidPath(t, p)
    decreases |p|
  {
    if p == [] then t else At(t.children[p[0]], p[1..])
  }

  /** The titles of the strict ancestors of the task at `p`, root first. */
  ghost function AncestorTitles(t: Task, p: seq<nat>): (titles: seq<string>)
    requires ValidPath(t, p)
    ensures |titles| == |p|
    decreases |p|
  {
    if p == [] then [] else [t.title] + AncestorTitles(t.children[p[0]], p[1..])
  }

  // -------------------------------------------------------------------------
  // Titles

  /** Every title in the tree `t`. */
  function Titles(t: Task): set<string>
    decreases t, 1
  {
    {t.title} + (if t.Parent? then ChildTitles(t, |t.children|) else {})
  }

  /** Every title in the first `i` children of `t`. */
  function ChildTitles(t: Task, i: nat): set<string>
    requires t.Parent? && i <= |t.children|
    decreases t, 0, i
  {
    if i == 0 then {} else ChildTitles(t, i - 1) + Titles(t.children[i - 1])
  }

  /** No title occurs twice in `t`. */
  ghost predicate UniqueTitles(t: Task)
    decreases t, 1
  {
    t.Parent? ==>
      t.title !in ChildTitles(t, |t.children|) && UniqueChildren(t, |t.children|)
  }

  /** No title occurs twice among the first `i` children of `t`. */
  ghost predicate UniqueChildren(t: Task, i: nat)
    requires t.Parent? && i <= |t.children|
    decreases t, 0, i
  {
    i == 0 ||
    (UniqueChildren(t, i - 1) && UniqueTitles(t.children[i - 1])
     && ChildTitles(t, i - 1) !! Titles(t.children[i - 1]))
  }

  lemma {:induction false} ChildTitlesContain(t: Task, i: nat, k: nat)
    requires t.Parent? && k < i <= |t.children|
    ensures Titles(t.children[k]) <= ChildTitles(t, i)
    decreases i
  {
    if k < i - 1 {
      ChildTitlesContain(t, i - 1, k);
    }
  }

  lemma {:induction false} ChildTitlesGrow(t: Task, i: nat, j: nat)
    requires t.Parent? && i <= j <= |t.children|
    ensures ChildTitles(t, i) <= ChildTitles(t, j)
    decreases j
  {
    if i < j {
      ChildTitlesGrow(t, i, j - 1);
    }
  }

  lemma {:induction false} UniqueChildrenPrefix(t: Task, i: nat, j: nat)
    requires t.Parent? && i <= j <= |t.children| && UniqueChildren(t, j)
    ensures UniqueChildren(t, i)
    decreases j
  {
    if i < j {
      UniqueChildrenPrefix(t, i, j - 1);
    }
  }

  /** In a tree with unique titles each child has unique titles, and its
      titles are apart from the parent's title and from its siblings'. */
  lemma ChildOfUnique(t: Task, k: nat)
    requires t.Parent? && k < |t.children| && UniqueTitles(t)
    ensures UniqueTitles(t.children[k])
    ensures t.title !in Titles(t.children[k])
    ensures ChildTitles(t, k) !! Titles(t.children[k])
  {
    UniqueChildrenPrefix(t, k + 1, |t.children|);
    ChildTitlesContain(t, |t.children|, k);
  }

  /** Two different children of a tree with unique titles share no title. */
  lemma SiblingsApart(t: Task, k: nat, m: nat)
    requires t.Parent? && k < m < |t.children| && UniqueTitles(t)
    ensures Titles(t.children[k]) !! Titles(t.children[m])
  {
    ChildOfUnique(t, m);
    ChildTitlesContain(t, m, k);
  }

  /** The task at a path carries a title of the tree, and so do its
      ancestors. */
  lemma {:induction false} AtTitleInTitles(t: Task, p: seq<nat>)
    requires ValidPath(t, p)
    ensures At(t, p).title in Titles(t)
    ensures forall a :: a in AncestorTitles(t, p) ==> a in Titles(t)
    decreases |p|
  {
    if p != [] {
      AtTitleInTitles(t.children[p[0]], p[1..]);
      ChildTitlesContain(t, |t.children|, p[0]);
    }
  }

  /** In a tree with unique titles, the task at a path is never titled like
      one of its ancestors. */
  lemma {:induction false} AtTitleNotAncestor(t: Task, p: seq<nat>)
    requires ValidPath(t, p) && UniqueTitles(t)
    ensures At(t, p).title !in AncestorTitles(t, p)
    decreases |p|
  {
    if p != [] {
      var c := t.children[p[0]];
      ChildOfUnique(t, p[0]);
      AtTitleNotAncestor(c, p[1..]);
      AtTitleInTitles(c, p[1..]);
    }
  }

  /** Every title of the tree is the title of the task at some path. */
  lemma {:induction false} TitleHasPath(t: Task, x: string) returns (p: seq<nat>)
    requires x in Titles(t)
    ensures ValidPath(t, p) && At(t, p).title == x
    decreases t, 1
  {
    if x == t.title {
      p := [];
    } else {
      var k := ChildWithTitle(t, |t.children|, x);
      var q := TitleHasPath(t.children[k], x);
      p := [k] + q;
      assert p[1..] == q;
    }
  }

  lemma {:induction false} ChildWithTitle(t: Task, i: nat, x: string) returns (k: nat)
    requires t.Parent? && i <= |t.children| && x in ChildTitles(t, i)
    ensures k < i && x in Titles(t.children[k])
    decreases t, 0, i
  {
    if x in Titles(t.children[i - 1]) {
      k := i - 1;
    } else {
      k := ChildWithTitle(t, i - 1, x);
    }
  }

  /** `x` is the title of two different tasks of `t`. */
  ghost predicate Repeated(t: Task, x: string)
  {
    exists p, q :: ValidPath(t, p) && ValidPath(t, q) && p != q && At(t, p).title == x && At(t, q).title == x
  }

  /** A path inside child `k`, seen from its parent. */
  lemma PathThroughChild(t: Task, k: nat, p: seq<nat>)
    requires t.Parent? && k < |t.children| && ValidPath(t.children[k], p)
    ensures ValidPath(t, [k] + p) && At(t, [k] + p) == At(t.children[k], p)
  {
    assert ([k] + p)[0] == k && ([k] + p)[1..] == p;
  }

  /** A title repeated inside one child is repeated in the parent. */
  lemma RepeatedInChild(t: Task, k: nat, x: string)
    requires t.Parent? && k < |t.children| && Repeated(t.children[k], x)
    ensures Repeated(t, x)
  {
    var p, q :| ValidPath(t.children[k], p) && ValidPath(t.children[k], q) && p != q
      && At(t.children[k], p).title == x && At(t.children[k], q).title == x;
    PathThroughChild(t, k, p);
    PathThroughChild(t, k, q);
    assert ([k] + p)[1..] == p && ([k] + q)[1..] == q;
  }

  /** A title found in child `k` that is also the parent's own title, or a
      title of another child `j`, is repeated in the parent. */
  lemma RepeatedAcross(t: Task, j: Option<nat>, k: nat, x: string)
    requires t.Parent? && k < |t.children| && x in Titles(t.children[k])
    requires j.None? ==> x == t.title
    requires j.Some? ==> j.value < |t.children| && j.value != k && x in Titles(t.children[j.value])
    ensures Repeated(t, x)
  {
    var q := TitleHasPath(t.children[k], x);
    PathThroughChild(t, k, q);
    if j.None? {
      assert ValidPath(t, []) && At(t, []) == t;
      assert ([k] + q) != [];
    } else {
      var p := TitleHasPath(t.children[j.value], x);
      PathThroughChild(t, j.value, p);
      assert ([j.value] + p)[0] != ([k] + q)[0];
    }
  }
}
