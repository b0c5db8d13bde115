/** `buildStaticallySkippedTasks` (src/tasks.ts:160-209): the walk over the
    flat table that marks the tasks the `--skip`, `--only` and `--tag` options
    exclude before anything runs. */
module StaticSkip {
  import opened Wrappers
  import opened TaskTree
  import opened Flatten

  /** The options that can skip a task (`SkippedByOption`). */
  datatype SkippedBy = DryRun | Only | Skip | Tag

  /** A static mark: any of those options but `dryRun`. */
  type Mark = m: SkippedBy | !m.DryRun? witness Skip

  type Marks = map<string, Mark>

  /** The `only`, `skip` and `tag` arrays of the context. */
  datatype Filters = Filters(only: seq<string>, skip: seq<string>, tag: seq<string>)

  function Lookup(marks: Marks, title: string): Option<Mark>
  {
    if title in marks then Some(marks[title]) else None
  }

  /** Some element of `xs` is listed in `ys`. */
  predicate Meets(xs: seq<string>, ys: seq<string>)
  {
    exists x :: x in xs && x in ys
  }

  /** A tag filter is given and none of the requested tags is among the
      leaf's own tags (a leaf without tags has none). */
  predicate TagExcluded(tag: seq<string>, tags: Option<seq<string>>)
  {
    |tag| > 0 && forall g :: g in tag ==> g !in tags.GetOr([])
  }

  /** The mark of a leaf that `--skip` does not name. */
  function LeafMark(f: Filters, tags: Option<seq<string>>, matchedOnly: bool): Option<Mark>
  {
    if |f.only| > 0 && !matchedOnly then Some(Only)
    else if TagExcluded(f.tag, tags) then Some(Tag)
    else None
  }

  /** The marks the walk places on the subtree `t`, starting from no marks,
      when an ancestor matched `--only` exactly if `ancestorOnly`. */
  function Resolve(f: Filters, t: Task, ancestorOnly: bool): (marks: Marks)
    ensures marks.Keys <= Titles(t)
    ensures t.title in f.skip ==> marks == map[t.title := Skip]
    decreases t, 1
  {
    var matched := ancestorOnly || t.title in f.only;
    if |f.skip| > 0 && t.title in f.skip then map[t.title := Skip]
    else if t.Parent? then ResolveChildren(f, t, |t.children|, matched)
    else
      match LeafMark(f, t.tags, matched)
      case Some(m) => map[t.title := m]
      case None => map[]
  }

  function ResolveChildren(f: Filters, t: Task, i: nat, matched: bool): (marks: Marks)
    requires t.Parent? && i <= |t.children|
    ensures marks.Keys <= ChildTitles(t, i)
    decreases t, 0, i
  {
    if i == 0 then map[]
    else ResolveChildren(f, t, i - 1, matched) + Resolve(f, t.children[i - 1], matched)
  }

  // -------------------------------------------------------------------------
  // The walk over the flat table

  /** The table agrees with the tree `t`: every task of `t` is filed, a
      parent with its children's titles in order, a leaf with its tags. */
  ghost predicate Indexed(flat: FlatTasks, t: Task)
  {
    forall p :: ValidPath(t, p) ==>
      At(t, p).title in flat && EntryMatches(flat[At(t, p).title], At(t, p))
  }

  ghost predicate EntryMatches(e: FlatTask, t: Task)
  {
    e.children == (if t.Parent? then Some(ChildTitleSeq(t)) else None)
    && (!t.Parent? ==> e.tags == t.tags)
  }

  /** The table `buildFlatTasks` builds agrees with its tree. */
  lemma IndexIsIndexed(t: Task, parentTitle: Option<string>)
    requires UniqueTitles(t)
    ensures Indexed(Index(t, parentTitle), t)
  {
    forall p | ValidPath(t, p)
      ensures At(t, p).title in Index(t, parentTitle)
      ensures EntryMatches(Index(t, parentTitle)[At(t, p).title], At(t, p))
    {
      IndexByPath(t, p, parentTitle);
    }
  }

  lemma IndexedChild(flat: FlatTasks, t: Task, k: nat)
    requires t.Parent? && k < |t.children| && Indexed(flat, t)
    ensures Indexed(flat, t.children[k])
  {
    var c := t.children[k];
    forall q | ValidPath(c, q)
      ensures At(c, q).title in flat && EntryMatches(flat[At(c, q).title], At(c, q))
    {
      var p := [k] + q;
      assert p[1..] == q;
      assert ValidPath(t, p) && At(t, p) == At(c, q);
    }
  }

  lemma IndexedRoot(flat: FlatTasks, t: Task)
    requires Indexed(flat, t)
    ensures t.title in flat && EntryMatches(flat[t.title], t)
  {
    assert ValidPath(t, []) && At(t, []) == t;
  }

  /** The walk from `title`, the title of `t`, adding to `marks`. Under unique
      titles the NOP branch for an already marked title is never taken. */
  method BuildStaticallySkippedTasks(
    f: Filters, flat: FlatTasks, ghost t: Task, title: string,
    marks: Marks, ancestorOnly: bool)
    returns (result: Marks)
    requires title == t.title && Indexed(flat, t) && UniqueTitles(t)
    requires Titles(t) !! marks.Keys
    ensures result == marks + Resolve(f, t, ancestorOnly)
    decreases t, 1
  {
    IndexedRoot(flat, t);
    var matchedOnly := ancestorOnly || title in f.only;
    var task := flat[title];
    if title in marks {
      result := marks;
    } else if |f.skip| > 0 && title in f.skip {
      result := marks[title := Skip];
    } else if task.children.Some? {
      result := BuildChildren(f, flat, t, task.children.value, marks, matchedOnly);
    } else if |f.only| > 0 && !matchedOnly {
      result := marks[title := Only];
    } else if |f.tag| > 0 && (forall g :: g in f.tag ==> g !in task.tags.GetOr([])) {
      result := marks[title := Tag];
    } else {
      result := marks;
    }
  }

  /** The `forEach` over a parent's children. */
  method BuildChildren(
    f: Filters, flat: FlatTasks, ghost t: Task, children: seq<string>,
    marks: Marks, matchedOnly: bool)
    returns (result: Marks)
    requires t.Parent? && children == ChildTitleSeq(t)
    requires Indexed(flat, t) && UniqueTitles(t)
    requires Titles(t) !! marks.Keys
    ensures result == marks + ResolveChildren(f, t, |t.children|, matchedOnly)
    decreases t, 0
  {
    result := marks;
    var i := 0;
    while i < |children|
      invariant 0 <= i <= |children|
      invariant result == marks + ResolveChildren(f, t, i, matchedOnly)
    {
      ChildStep(f, flat, t, i, marks, matchedOnly);
      result := BuildStaticallySkippedTasks(f, flat, t.children[i], children[i], result, matchedOnly);
      i := i + 1;
    }
  }

  /** What the loop needs to walk child `i` and to extend its invariant. */
  lemma ChildStep(f: Filters, flat: FlatTasks, t: Task, i: nat, marks: Marks, matched: bool)
    requires t.Parent? && i < |t.children| && Indexed(flat, t) && UniqueTitles(t)
    requires Titles(t) !! marks.Keys
    ensures Indexed(flat, t.children[i]) && UniqueTitles(t.children[i])
    ensures Titles(t.children[i]) !! (marks + ResolveChildren(f, t, i, matched)).Keys
    ensures (marks + ResolveChildren(f, t, i, matched)) + Resolve(f, t.children[i], matched)
         == marks + ResolveChildren(f, t, i + 1, matched)
  {
    IndexedChild(flat, t, i);
    ChildOfUnique(t, i);
    ChildTitlesContain(t, |t.children|, i);
    var before := ResolveChildren(f, t, i, matched);
    var added := Resolve(f, t.children[i], matched);
    assert (marks + before) + added == marks + (before + added);
  }

  // -------------------------------------------------------------------------
  // Properties of the marks

  lemma {:induction false} ResolveChildrenLookup(
    f: Filters, t: Task, i: nat, matched: bool, k: nat, x: string)
    requires t.Parent? && k < i <= |t.children| && UniqueTitles(t)
    requires x in Titles(t.children[k])
    ensures Lookup(ResolveChildren(f, t, i, matched), x) == Lookup(Resolve(f, t.children[k], matched), x)
    decreases i
  {
    if k < i - 1 {
      ResolveChildrenLookup(f, t, i - 1, matched, k, x);
      SiblingsApart(t, k, i - 1);
    } else {
      ChildOfUnique(t, k);
    }
  }

  /** The mark of the task at a path, stated from the titles on the path
      alone: nothing below a task `--skip` names; a task `--skip` names gets
      `skip`; a parent gets nothing else; a leaf gets `only` when `--only`
      is given and neither it nor an ancestor is listed, else `tag` when the
      tag filter excludes it. */
  ghost function ExpectedMark(f: Filters, t: Task, p: seq<nat>, ancestorOnly: bool): Option<Mark>
    requires ValidPath(t, p)
  {
    var ancestors := AncestorTitles(t, p);
    var node := At(t, p);
    if Meets(ancestors, f.skip) then None
    else if node.title in f.skip then Some(Skip)
    else if node.Parent? then None
    else LeafMark(f, node.tags, ancestorOnly || Meets(ancestors, f.only) || node.title in f.only)
  }

  lemma MeetsCons(x: string, xs: seq<string>, ys: seq<string>)
    ensures Meets([x] + xs, ys) <==> x in ys || Meets(xs, ys)
  {
    if x in ys {
      assert x in [x] + xs;
    }
    if Meets(xs, ys) {
      var y :| y in xs && y in ys;
      assert y in [x] + xs;
    }
  }

  /** The walk marks each task as its path dictates. */
  lemma {:induction false} ResolveByPath(f: Filters, t: Task, p: seq<nat>, ancestorOnly: bool)
    requires UniqueTitles(t) && ValidPath(t, p)
    ensures Lookup(Resolve(f, t, ancestorOnly), At(t, p).title) == ExpectedMark(f, t, p, ancestorOnly)
    decreases |p|
  {
    var matched := ancestorOnly || t.title in f.only;
    if p == [] {
      assert !Meets([], f.skip) && !Meets([], f.only);
    } else {
      var k := p[0];
      var c := t.children[k];
      var q := p[1..];
      var x := At(c, q).title;
      assert At(t, p) == At(c, q);
      assert AncestorTitles(t, p) == [t.title] + AncestorTitles(c, q);
      MeetsCons(t.title, AncestorTitles(c, q), f.skip);
      MeetsCons(t.title, AncestorTitles(c, q), f.only);
      ChildOfUnique(t, k);
      AtTitleInTitles(c, q);
      if !(|f.skip| > 0 && t.title in f.skip) {
        ResolveChildrenLookup(f, t, |t.children|, matched, k, x);
        ResolveByPath(f, c, q, matched);
      }
    }
  }

  /** `--skip` marks exactly the listed tasks that have no listed ancestor. */
  lemma SkipMarkIff(f: Filters, t: Task, p: seq<nat>)
    requires UniqueTitles(t) && ValidPath(t, p)
    ensures Lookup(Resolve(f, t, false), At(t, p).title) == Some(Skip)
        <==> At(t, p).title in f.skip && !Meets(AncestorTitles(t, p), f.skip)
  {
    ResolveByPath(f, t, p, false);
  }

  /** Nothing below a task `--skip` names is marked. */
  lemma NothingMarkedBelowSkip(f: Filters, t: Task, p: seq<nat>)
    requires UniqueTitles(t) && ValidPath(t, p)
    requires Meets(AncestorTitles(t, p), f.skip)
    ensures At(t, p).title !in Resolve(f, t, false)
  {
    ResolveByPath(f, t, p, false);
  }

  /** Parents are only ever marked `skip`. */
  lemma ParentsOnlyMarkedSkip(f: Filters, t: Task, p: seq<nat>)
    requires UniqueTitles(t) && ValidPath(t, p) && At(t, p).Parent?
    requires At(t, p).title in Resolve(f, t, false)
    ensures Resolve(f, t, false)[At(t, p).title] == Skip
  {
    ResolveByPath(f, t, p, false);
  }

  /** A leaf is marked `only` exactly when `--only` is given, neither the
      leaf nor an ancestor is listed in it, and `--skip` spares the leaf and
      its ancestors. */
  lemma OnlyMarkIff(f: Filters, t: Task, p: seq<nat>)
    requires UniqueTitles(t) && ValidPath(t, p) && !At(t, p).Parent?
    ensures Lookup(Resolve(f, t, false), At(t, p).title) == Some(Only)
        <==> |f.only| > 0
             && At(t, p).title !in f.only && !Meets(AncestorTitles(t, p), f.only)
             && At(t, p).title !in f.skip && !Meets(AncestorTitles(t, p), f.skip)
  {
    ResolveByPath(f, t, p, false);
  }

  /** A leaf is marked `tag` exactly when it is neither marked `skip` nor
      `only`, a tag filter is given, and none of the requested tags is its
      own; so a leaf without tags is always marked when a tag is requested. */
  lemma TagMarkIff(f: Filters, t: Task, p: seq<nat>)
    requires UniqueTitles(t) && ValidPath(t, p) && !At(t, p).Parent?
    ensures Lookup(Resolve(f, t, false), At(t, p).title) == Some(Tag)
        <==> At(t, p).title !in f.skip && !Meets(AncestorTitles(t, p), f.skip)
             && !(|f.only| > 0 && At(t, p).title !in f.only && !Meets(AncestorTitles(t, p), f.only))
             && |f.tag| > 0
             && forall g :: g in f.tag ==> g !in At(t, p).tags.GetOr([])
  {
    ResolveByPath(f, t, p, false);
  }

  /** `runTask` (src/tasks.ts:672): the walk from the root over the table
      `buildFlatTasks` made, starting from no marks. */
  method StaticallySkippedTasks(f: Filters, root: Task) returns (r: Result<Marks, string>)
    ensures r.Ok? <==> UniqueTitles(root)
    ensures r.Ok? ==> r.value == Resolve(f, root, false)
  {
    var flat := BuildFlatTasks(root, map[], None);
    if flat.Err? {
      return Err(flat.error);
    }
    IndexIsIndexed(root, None);
    assert flat.value == Index(root, None);
    var marks := BuildStaticallySkippedTasks(f, flat.value, root, root.title, map[], false);
    assert marks == Resolve(f, root, false);
    return Ok(marks);
  }
}
