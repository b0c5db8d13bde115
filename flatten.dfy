/** `buildFlatTasks` (src/tasks.ts:125-158): the pre-order walk that files
    every task of the tree under its title, with its parent's title and
    either its children's titles or its tags. */
module Flatten {
  import opened Wrappers
  import opened TaskTree
  import opened PlainObjects

  /** One entry of the table. Parents carry their children's titles and no
      tags; leaves carry no children and their declared tags. */
  datatype FlatTask = FlatTask(
    parentTitle: Option<string>,
    children: Option<seq<string>>,
    tags: Option<seq<string>>)

  type FlatTasks = map<string, FlatTask>

  /** The titles of a parent's children, in declaration order. */
  function ChildTitleSeq(t: Task): (titles: seq<string>)
    requires t.Parent?
    ensures |titles| == |t.children|
    ensures forall i :: 0 <= i < |titles| ==> titles[i] == t.children[i].title
  {
    seq(|t.children|, i requires 0 <= i < |t.children| => t.children[i].title)
  }

  /** The entry the walk writes for `t` when its parent is `parentTitle`. */
  function EntryOf(t: Task, parentTitle: Option<string>): FlatTask
  {
    if t.Parent? then FlatTask(parentTitle, Some(ChildTitleSeq(t)), None)
    else FlatTask(parentTitle, None, t.tags)
  }

  /** The table the walk builds for the subtree `t`. */
  function Index(t: Task, parentTitle: Option<string>): FlatTasks
    decreases t, 1
  {
    map[t.title := EntryOf(t, parentTitle)]
      + (if t.Parent? then IndexChildren(t, |t.children|) else map[])
  }

  /** The part of the table built for the first `i` children of `t`. */
  function IndexChildren(t: Task, i: nat): FlatTasks
    requires t.Parent? && i <= |t.children|
    decreases t, 0, i
  {
    if i == 0 then map[]
    else IndexChildren(t, i - 1) + Index(t.children[i - 1], Some(t.title))
  }

  function DuplicateTitleMessage(title: string): string
  {
    "Two tasks have the same title: " + title
  }

  /** The walk. It fails exactly when a title of `t` is already filed or
      occurs twice in `t`, and then names such a title; otherwise it adds
      the entries of `t` to the table. */
  method BuildFlatTasks(t: Task, flat: FlatTasks, parentTitle: Option<string>)
    returns (r: Result<FlatTasks, string>)
    ensures r.Ok? <==> UniqueTitles(t) && Titles(t) !! flat.Keys
    ensures r.Ok? ==> r.value == flat + Index(t, parentTitle)
    ensures r.Err? ==> (exists x :: x in Titles(t) && r.error == DuplicateTitleMessage(x)
                                 && (x in flat || Repeated(t, x)))
    decreases t, 1
  {
    if t.title in flat {
      return Err(DuplicateTitleMessage(t.title));
    }
    var entry := EntryOf(t, parentTitle);
    var acc := flat + map[t.title := entry];
    if t.Parent? {
      r := BuildChildren(t, flat, entry, acc);
      if r.Ok? {
        WalkComplete(t, flat, parentTitle);
      }
    } else {
      WalkComplete(t, flat, parentTitle);
      r := Ok(acc);
    }
  }

  /** The loop over the children of a parent whose own entry is filed. */
  method BuildChildren(t: Task, flat: FlatTasks, entry: FlatTask, filed: FlatTasks)
    returns (r: Result<FlatTasks, string>)
    requires t.Parent? && t.title !in flat && filed == flat + map[t.title := entry]
    ensures r.Ok? ==>
      UniqueChildren(t, |t.children|) && t.title !in ChildTitles(t, |t.children|)
      && ChildTitles(t, |t.children|) !! flat.Keys
    ensures r.Ok? ==> r.value == flat + (map[t.title := entry] + IndexChildren(t, |t.children|))
    ensures !r.Ok? ==> !(UniqueTitles(t) && Titles(t) !! flat.Keys)
    ensures r.Err? ==> (exists x :: x in Titles(t) && r.error == DuplicateTitleMessage(x)
                                 && (x in flat || Repeated(t, x)))
    decreases t, 0, |t.children| + 1
  {
    var acc := filed;
    assert acc == flat + (map[t.title := entry] + IndexChildren(t, 0));
    var i := 0;
    while i < |t.children|
      invariant 0 <= i <= |t.children|
      invariant UniqueChildren(t, i) && t.title !in ChildTitles(t, i)
      invariant ChildTitles(t, i) !! flat.Keys
      invariant acc == flat + (map[t.title := entry] + IndexChildren(t, i))
    {
      var step := FileChild(t, i, flat, entry, acc);
      if step.Err? {
        return step;
      }
      acc := step.value;
      i := i + 1;
    }
    r := Ok(acc);
  }

  /** One turn of the loop: child `i` is walked with the table built so far. */
  method FileChild(t: Task, i: nat, flat: FlatTasks, entry: FlatTask, acc: FlatTasks)
    returns (r: Result<FlatTasks, string>)
    requires t.Parent? && i < |t.children| && t.title !in flat
    requires UniqueChildren(t, i) && t.title !in ChildTitles(t, i) && ChildTitles(t, i) !! flat.Keys
    requires acc == flat + (map[t.title := entry] + IndexChildren(t, i))
    ensures r.Ok? ==>
      UniqueChildren(t, i + 1) && t.title !in ChildTitles(t, i + 1)
      && ChildTitles(t, i + 1) !! flat.Keys
    ensures r.Ok? ==> r.value == flat + (map[t.title := entry] + IndexChildren(t, i + 1))
    ensures !r.Ok? ==> !(UniqueTitles(t) && Titles(t) !! flat.Keys)
    ensures r.Err? ==> (exists x :: x in Titles(t) && r.error == DuplicateTitleMessage(x)
                                 && (x in flat || Repeated(t, x)))
    decreases t, 0, |t.children| - i
  {
    IndexChildrenKeys(t, i);
    var sub := BuildFlatTasks(t.children[i], acc, Some(t.title));
    if sub.Err? {
      ChildRejected(t, i, flat, acc);
      ghost var x :| x in Titles(t.children[i]) && sub.error == DuplicateTitleMessage(x)
        && (x in acc || Repeated(t.children[i], x));
      RejectedTitle(t, i, flat, acc, x);
      return sub;
    }
    ChildFiled(t, i, flat, entry);
    r := sub;
  }

  /** Once every child is filed, the whole subtree is, under unique titles. */
  lemma WalkComplete(t: Task, flat: FlatTasks, parentTitle: Option<string>)
    requires t.title !in flat
    requires t.Parent? ==>
      UniqueChildren(t, |t.children|) && t.title !in ChildTitles(t, |t.children|)
      && ChildTitles(t, |t.children|) !! flat.Keys
    ensures UniqueTitles(t) && Titles(t) !! flat.Keys
    ensures t.Parent? ==>
      flat + (map[t.title := EntryOf(t, parentTitle)] + IndexChildren(t, |t.children|))
        == flat + Index(t, parentTitle)
    ensures !t.Parent? ==> flat + map[t.title := EntryOf(t, parentTitle)] == flat + Index(t, parentTitle)
  {
    var m := map[t.title := EntryOf(t, parentTitle)];
    if !t.Parent? {
      assert Index(t, parentTitle) == m;
    }
  }

  /** The loop's facts about the first `i` children extend to `i + 1` once
      child `i` has been filed. */
  lemma ChildFiled(t: Task, i: nat, flat: FlatTasks, entry: FlatTask)
    requires t.Parent? && i < |t.children| && t.title !in flat
    requires UniqueChildren(t, i) && t.title !in ChildTitles(t, i) && ChildTitles(t, i) !! flat.Keys
    requires UniqueTitles(t.children[i])
    requires Titles(t.children[i]) !! (flat + (map[t.title := entry] + IndexChildren(t, i))).Keys
    ensures UniqueChildren(t, i + 1) && t.title !in ChildTitles(t, i + 1)
    ensures ChildTitles(t, i + 1) !! flat.Keys
    ensures (flat + (map[t.title := entry] + IndexChildren(t, i))) + Index(t.children[i], Some(t.title))
         == flat + (map[t.title := entry] + IndexChildren(t, i + 1))
  {
    IndexChildrenKeys(t, i);
    var m := map[t.title := entry];
    var before := IndexChildren(t, i);
    var added := Index(t.children[i], Some(t.title));
    assert IndexChildren(t, i + 1) == before + added;
    assert (flat + (m + before)) + added == flat + (m + (before + added));
  }

  /** When child `i` cannot be filed, the tree has a repeated title or one
      already filed, and the title the child reports belongs to the tree. */
  lemma ChildRejected(t: Task, i: nat, flat: FlatTasks, acc: FlatTasks)
    requires t.Parent? && i < |t.children| && t.title !in flat
    requires acc.Keys == flat.Keys + {t.title} + ChildTitles(t, i)
    requires !(UniqueTitles(t.children[i]) && Titles(t.children[i]) !! acc.Keys)
    ensures !(UniqueTitles(t) && Titles(t) !! flat.Keys)
    ensures Titles(t.children[i]) <= Titles(t)
  {
    ChildTitlesContain(t, |t.children|, i);
    if UniqueTitles(t) {
      ChildOfUnique(t, i);
    }
  }

  /** The title a rejected child names is filed already, or occurs twice in
      the parent: at the parent itself, in an earlier child, or twice in
      the child. */
  lemma RejectedTitle(t: Task, i: nat, flat: FlatTasks, acc: FlatTasks, x: string)
    requires t.Parent? && i < |t.children|
    requires acc.Keys == flat.Keys + {t.title} + ChildTitles(t, i)
    requires x in Titles(t.children[i]) && (x in acc || Repeated(t.children[i], x))
    ensures x in Titles(t) && (x in flat || Repeated(t, x))
  {
    ChildTitlesContain(t, |t.children|, i);
    if Repeated(t.children[i], x) {
      RepeatedInChild(t, i, x);
    } else if x == t.title {
      RepeatedAcross(t, None, i, x);
    } else if x in ChildTitles(t, i) {
      var k := ChildWithTitle(t, i, x);
      RepeatedAcross(t, Some(k), i, x);
    }
  }

  /** The titles filed for `t` are exactly the titles of `t`. */
  lemma {:induction false} IndexKeys(t: Task, parentTitle: Option<string>)
    ensures Index(t, parentTitle).Keys == Titles(t)
    decreases t, 1
  {
    if t.Parent? {
      IndexChildrenKeys(t, |t.children|);
    }
  }

  lemma {:induction false} IndexChildrenKeys(t: Task, i: nat)
    requires t.Parent? && i <= |t.children|
    ensures IndexChildren(t, i).Keys == ChildTitles(t, i)
    decreases t, 0, i
  {
    if i > 0 {
      IndexChildrenKeys(t, i - 1);
      IndexKeys(t.children[i - 1], Some(t.title));
    }
  }

  /** Looking a title of child `k` up in the children's part of the table
      finds the entry child `k`'s own walk wrote. */
  lemma {:induction false} IndexChildrenLookup(t: Task, i: nat, k: nat, x: string)
    requires t.Parent? && k < i <= |t.children| && UniqueTitles(t)
    requires x in Titles(t.children[k])
    ensures x in Index(t.children[k], Some(t.title))
    ensures x in IndexChildren(t, i)
    ensures IndexChildren(t, i)[x] == Index(t.children[k], Some(t.title))[x]
    decreases i
  {
    IndexKeys(t.children[k], Some(t.title));
    if k < i - 1 {
      IndexChildrenLookup(t, i - 1, k, x);
      SiblingsApart(t, k, i - 1);
      IndexKeys(t.children[i - 1], Some(t.title));
    }
  }

  /** The entry filed for the task at a path: it names its parent (none for
      the root), lists its children's titles in order when it is a parent,
      and carries its declared tags when it is a leaf. */
  lemma {:induction false} IndexByPath(t: Task, p: seq<nat>, parentTitle: Option<string>)
    requires UniqueTitles(t) && ValidPath(t, p)
    ensures At(t, p).title in Index(t, parentTitle)
    ensures Index(t, parentTitle)[At(t, p).title] == EntryOf(At(t, p), ParentOf(t, p, parentTitle))
    decreases |p|
  {
    if p != [] {
      var k := p[0];
      var c := t.children[k];
      ChildOfUnique(t, k);
      IndexByPath(c, p[1..], Some(t.title));
      AtTitleInTitles(c, p[1..]);
      var x := At(c, p[1..]).title;
      assert At(t, p) == At(c, p[1..]);
      assert ParentOf(t, p, parentTitle) == ParentOf(c, p[1..], Some(t.title));
      IndexChildrenLookup(t, |t.children|, k, x);
      assert x != t.title;
      assert Index(t, parentTitle)[x] == IndexChildren(t, |t.children|)[x];
    } else if t.Parent? {
      IndexChildrenKeys(t, |t.children|);
    }
  }

  /** The title of the parent of the task at `p`; `parentTitle` for the root. */
  ghost function ParentOf(t: Task, p: seq<nat>, parentTitle: Option<string>): Option<string>
    requires ValidPath(t, p)
    decreases |p|
  {
    if p == [] then parentTitle else ParentOf(t.children[p[0]], p[1..], Some(t.title))
  }

  /** The parent named by an entry is the title of the last ancestor. */
  lemma {:induction false} ParentOfIsLastAncestor(t: Task, p: seq<nat>)
    requires ValidPath(t, p)
    ensures p == [] ==> ParentOf(t, p, None) == None
    ensures p != [] ==> ParentOf(t, p, None) == Some(AncestorTitles(t, p)[|p| - 1])
  {
    if p != [] {
      ParentOfWithin(t.children[p[0]], p[1..], t.title);
    }
  }

  lemma {:induction false} ParentOfWithin(t: Task, p: seq<nat>, above: string)
    requires ValidPath(t, p)
    ensures ParentOf(t, p, Some(above)) == Some(([above] + AncestorTitles(t, p))[|p|])
    decreases |p|
  {
    if p != [] {
      ParentOfWithin(t.children[p[0]], p[1..], t.title);
    }
  }

  // -------------------------------------------------------------------------
  // The duplicate guard as written

  /** The guard of src/tasks.ts:139 as written is `InPlainObject`: the
      table is a plain `{}`, so `title in flatTasks` also holds for every
      inherited name. */

  /** A tree made of one task titled `constructor` has no repeated title, yet
      the guard as written rejects it on the first test, on an empty table. */
  lemma LoneConstructorRejectedAsWritten()
    ensures UniqueTitles(Regular("constructor", None, None))
    ensures var empty: FlatTasks := map[];
      Titles(Regular("constructor", None, None)) !! empty.Keys
      && InPlainObject(empty, "constructor")
  {
  }
}
