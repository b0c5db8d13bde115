/** The older engine of src/run.ts, kept apart from the task engine of
    src/tasks.ts: tasks decide whether they are skipped while they run, a
    `required` regular task ignores the filters, untagged tasks escape the
    tag filter, and the slug table and tag list are filled by one pre-order
    walk over the tree. */
module LegacyRun {
  import opened Wrappers
  import opened StringLists
  import TaskTree
  import StaticSkip
  import Flatten
  import Commands
  import opened PlainObjects
  import Context
  import SkipRules

  /** The parts of the context the skip decisions read. */
  datatype LegacyContext = LegacyContext(
    dryRun: bool,
    debug: bool,
    only: seq<string>,
    skip: seq<string>,
    tag: seq<string>)

  /** A task's own `skip` property, given the whole context. */
  type LegacySkip = LegacyContext -> TaskTree.SkipResult

  datatype LegacyTask =
    | Command(title: string, tags: Option<seq<string>>, ownSkip: Option<LegacySkip>)
    | Regular(title: string, tags: Option<seq<string>>, ownSkip: Option<LegacySkip>, required: bool)
    | Parent(title: string, children: seq<LegacyTask>, ownSkip: Option<LegacySkip>, concurrent: bool)

  // -------------------------------------------------------------------------
  // Skip decisions

  /** `shouldSkipByOnlyOrTagOption`: the `--only` clause, or the `--tag`
      clause for a task that has tags. The contract states the two clauses;
      what they mean along a path of the tree is `OnlyClauseByPath`, and
      for a command task `CommandFollowsFilters`. */
  function ShouldSkipByOnlyOrTagOption(
    ancestorWhitelisted: bool, ctx: LegacyContext, tags: Option<seq<string>>, title: string): (skip: bool)
    ensures skip <==>
      ((!ancestorWhitelisted && |ctx.only| > 0 && title !in ctx.only)
       || (tags.Some? && |ctx.tag| > 0 && forall g :: g in ctx.tag ==> g !in tags.value))
    ensures tags.None? ==> (skip <==> !ancestorWhitelisted && |ctx.only| > 0 && title !in ctx.only)
  {
    (!ancestorWhitelisted && |ctx.only| > 0 && title !in ctx.only)
    || (tags.Some? && |ctx.tag| > 0 && !(exists g :: g in ctx.tag && g in tags.value))
  }

  /** The task's own predicate returned something truthy. */
  predicate OwnSkipTruthy(ownSkip: Option<LegacySkip>, ctx: LegacyContext)
  {
    ownSkip.Some? && ownSkip.value(ctx).Truthy()
  }

  /** The `skip` each kind of task hands to `createSkippableTask`. */
  function InnerSkip(ancestorWhitelisted: bool, t: LegacyTask, ctx: LegacyContext): (skipped: bool)
    ensures OwnSkipTruthy(t.ownSkip, ctx) ==> skipped
    ensures t.Parent? || (t.Regular? && t.required) ==> (skipped <==> OwnSkipTruthy(t.ownSkip, ctx))
    ensures t.Command? && !OwnSkipTruthy(t.ownSkip, ctx) ==>
      (skipped <==> ShouldSkipByOnlyOrTagOption(ancestorWhitelisted, ctx, t.tags, t.title))
  {
    match t
    case Command(title, tags, ownSkip) =>
      OwnSkipTruthy(ownSkip, ctx) || ShouldSkipByOnlyOrTagOption(ancestorWhitelisted, ctx, tags, title)
    case Regular(title, tags, ownSkip, required) =>
      OwnSkipTruthy(ownSkip, ctx)
      || (!required && (ctx.dryRun || ShouldSkipByOnlyOrTagOption(ancestorWhitelisted, ctx, tags, title)))
    case Parent(_, _, ownSkip, _) =>
      OwnSkipTruthy(ownSkip, ctx)
  }

  /** `createSkippableTask`: the inner `skip` first, then `--skip`. That
      `--skip` thereby wins for every kind of task is
      `SkipListAlwaysSkips`. */
  function SkippableSkip(inner: bool, title: string, ctx: LegacyContext): (skipped: bool)
    ensures skipped <==> inner || title in ctx.skip
  {
    if inner then true else title in ctx.skip
  }

  /** Whether the task built for `t` reports itself skipped. */
  function TaskSkipped(ancestorWhitelisted: bool, t: LegacyTask, ctx: LegacyContext): (skipped: bool)
    ensures skipped <==>
      OwnSkipTruthy(t.ownSkip, ctx) || t.title in ctx.skip
      || (t.Command? && ShouldSkipByOnlyOrTagOption(ancestorWhitelisted, ctx, t.tags, t.title))
      || (t.Regular? && !t.required
          && (ctx.dryRun || ShouldSkipByOnlyOrTagOption(ancestorWhitelisted, ctx, t.tags, t.title)))
  {
    SkippableSkip(InnerSkip(ancestorWhitelisted, t, ctx), t.title, ctx)
  }

  /** A task named by `--skip` is skipped, whatever its kind. */
  lemma SkipListAlwaysSkips(ancestorWhitelisted: bool, t: LegacyTask, ctx: LegacyContext)
    requires t.title in ctx.skip
    ensures TaskSkipped(ancestorWhitelisted, t, ctx)
  {
  }

  /** A required regular task answers only to its own predicate and to
      `--skip`: neither `--dry-run`, `--only` nor `--tag` skips it. */
  lemma RequiredIgnoresFilters(ancestorWhitelisted: bool, t: LegacyTask, ctx: LegacyContext)
    requires t.Regular? && t.required
    ensures TaskSkipped(ancestorWhitelisted, t, ctx) <==> OwnSkipTruthy(t.ownSkip, ctx) || t.title in ctx.skip
  {
  }

  /** A regular task that is not required is skipped in a dry run. */
  lemma DryRunSkipsOptionalRegular(ancestorWhitelisted: bool, t: LegacyTask, ctx: LegacyContext)
    requires t.Regular? && !t.required && ctx.dryRun
    ensures TaskSkipped(ancestorWhitelisted, t, ctx)
  {
  }

  /** A parent is skipped only by its own predicate or by `--skip`; the
      filters act on its leaves. */
  lemma ParentIgnoresFilters(ancestorWhitelisted: bool, t: LegacyTask, ctx: LegacyContext)
    requires t.Parent?
    ensures TaskSkipped(ancestorWhitelisted, t, ctx) <==> OwnSkipTruthy(t.ownSkip, ctx) || t.title in ctx.skip
  {
  }

  /** A command task with no predicate of its own, outside `--skip`, runs
      exactly when the filters let it through. */
  lemma CommandFollowsFilters(ancestorWhitelisted: bool, t: LegacyTask, ctx: LegacyContext)
    requires t.Command? && t.ownSkip.None? && t.title !in ctx.skip
    ensures TaskSkipped(ancestorWhitelisted, t, ctx)
      <==> ShouldSkipByOnlyOrTagOption(ancestorWhitelisted, ctx, t.tags, t.title)
  {
  }

  /** The two engines disagree on an untagged leaf under `--tag`: the task
      engine marks it "tag", this one lets it run. */
  lemma UntaggedLeafContrast(ctx: LegacyContext, title: string)
    requires |ctx.tag| > 0 && |ctx.only| == 0
    ensures !ShouldSkipByOnlyOrTagOption(false, ctx, None, title)
    ensures StaticSkip.LeafMark(StaticSkip.Filters(ctx.only, ctx.skip, ctx.tag), None, false)
      == Some(StaticSkip.Tag)
  {
    assert ctx.tag[0] in ctx.tag;
  }

  // -------------------------------------------------------------------------
  // Whitelisting by ancestors and concurrency

  /** What a parent passes down to its children. */
  function ChildWhitelisted(ancestorWhitelisted: bool, ctx: LegacyContext, title: string): (whitelisted: bool)
    ensures ancestorWhitelisted ==> whitelisted
    ensures title in ctx.only ==> whitelisted
    ensures whitelisted && !ancestorWhitelisted ==> title in ctx.only
  {
    ancestorWhitelisted || title in ctx.only
  }

  /** `concurrent && !context.debug`: the options of the children's list. */
  function RunsConcurrently(t: LegacyTask, ctx: LegacyContext): (concurrent: bool)
    requires t.Parent?
    ensures ctx.debug ==> !concurrent
    ensures !ctx.debug ==> concurrent == t.concurrent
  {
    t.concurrent && !ctx.debug
  }

  /** Both engines run a parent's children concurrently in the same cases
      when its `concurrent` setting is a flag: never under `debug`, otherwise
      exactly when the flag is set. */
  lemma ConcurrencyAgrees(t: LegacyTask, ctx: LegacyContext)
    requires t.Parent?
    ensures var snapshot := map["debug" := Context.Bool(ctx.debug)];
      Context.Truthy(SkipRules.ChildrenConcurrency(snapshot, Context.Bool(t.concurrent)))
        == RunsConcurrently(t, ctx)
  {
  }

  ghost predicate ValidPath(t: LegacyTask, p: seq<nat>)
    decreases |p|
  {
    p == [] || (t.Parent? && p[0] < |t.children| && ValidPath(t.children[p[0]], p[1..]))
  }

  ghost function At(t: LegacyTask, p: seq<nat>): LegacyTask
    requires ValidPath(t, p)
    decreases |p|
  {
    if p == [] then t else At(t.children[p[0]], p[1..])
  }

  ghost function AncestorTitles(t: LegacyTask, p: seq<nat>): seq<string>
    requires ValidPath(t, p)
    decreases |p|
  {
    if p == [] then [] else [t.title] + AncestorTitles(t.children[p[0]], p[1..])
  }

  /** The flag the task at `p` is built with, starting from `whitelisted` at
      the root. */
  ghost function WhitelistAt(t: LegacyTask, p: seq<nat>, ctx: LegacyContext, whitelisted: bool): bool
    requires ValidPath(t, p)
    decreases |p|
  {
    if p == [] then whitelisted
    else WhitelistAt(t.children[p[0]], p[1..], ctx, ChildWhitelisted(whitelisted, ctx, t.title))
  }

  /** A task is built as whitelisted exactly when one of its ancestors is
      named by `--only` (or the walk started whitelisted). */
  lemma {:induction false} WhitelistIffAncestorInOnly(
    t: LegacyTask, p: seq<nat>, ctx: LegacyContext, whitelisted: bool)
    requires ValidPath(t, p)
    ensures WhitelistAt(t, p, ctx, whitelisted) <==>
      whitelisted || exists a :: a in AncestorTitles(t, p) && a in ctx.only
    decreases |p|
  {
    if p != [] {
      var c := t.children[p[0]];
      WhitelistIffAncestorInOnly(c, p[1..], ctx, ChildWhitelisted(whitelisted, ctx, t.title));
      assert AncestorTitles(t, p) == [t.title] + AncestorTitles(c, p[1..]);
      if t.title in ctx.only {
        assert t.title in AncestorTitles(t, p);
      }
    }
  }

  /** Under `--only`, a leaf of the tree built from the root is filtered out
      exactly when neither it nor any ancestor is named. */
  lemma OnlyClauseByPath(t: LegacyTask, p: seq<nat>, ctx: LegacyContext)
    requires ValidPath(t, p) && !At(t, p).Parent? && At(t, p).tags.None?
    ensures ShouldSkipByOnlyOrTagOption(WhitelistAt(t, p, ctx, false), ctx, At(t, p).tags, At(t, p).title)
      <==> (|ctx.only| > 0 && At(t, p).title !in ctx.only
            && forall a :: a in AncestorTitles(t, p) ==> a !in ctx.only)
  {
    WhitelistIffAncestorInOnly(t, p, ctx, false);
  }

  // -------------------------------------------------------------------------
  // addAllTitleSlugsAndTags

  /** The titles of `t` in the order the walk visits them. */
  function PreOrder(t: LegacyTask): seq<string>
    decreases t, 1
  {
    [t.title] + (if t.Parent? then PreOrderChildren(t, |t.children|) else [])
  }

  function PreOrderChildren(t: LegacyTask, i: nat): seq<string>
    requires t.Parent? && i <= |t.children|
    decreases t, 0, i
  {
    if i == 0 then [] else PreOrderChildren(t, i - 1) + PreOrder(t.children[i - 1])
  }

  /** The tags of the leaves of `t`, in visiting order. */
  function LeafTags(t: LegacyTask): seq<string>
    decreases t, 1
  {
    if t.Parent? then LeafTagsChildren(t, |t.children|) else t.tags.GetOr([])
  }

  function LeafTagsChildren(t: LegacyTask, i: nat): seq<string>
    requires t.Parent? && i <= |t.children|
    decreases t, 0, i
  {
    if i == 0 then [] else LeafTagsChildren(t, i - 1) + LeafTags(t.children[i - 1])
  }

  /** The slug test of the walk, title after title: a slug is taken when the
      table holds a truthy (non-empty) title for it. */
  function SlugPass(titles: seq<string>, slugify: Commands.Slugify, m: map<string, string>)
    : Result<map<string, string>, string>
  {
    if titles == [] then Ok(m)
    else
      var slug := slugify(titles[0]);
      if slug in m && m[slug] != "" then Err(Commands.DuplicateSlugMessage(slug))
      else SlugPass(titles[1..], slugify, m[slug := titles[0]])
  }

  /** What the walk over `t` leaves behind, from the table `m` and the tag
      list `tags`. */
  function Collected(t: LegacyTask, slugify: Commands.Slugify, m: map<string, string>, tags: seq<string>)
    : Result<(map<string, string>, seq<string>), string>
  {
    match SlugPass(PreOrder(t), slugify, m)
    case Err(e) => Err(e)
    case Ok(m') => Ok((m', AppendNew(tags, LeafTags(t))))
  }

  /** The test over two runs of titles is the test over the first, then, if
      it passes, over the second. */
  lemma {:induction false} SlugPassAppend(
    a: seq<string>, b: seq<string>, slugify: Commands.Slugify, m: map<string, string>)
    ensures SlugPass(a + b, slugify, m) ==
      match SlugPass(a, slugify, m)
      case Err(e) => Err(e)
      case Ok(m') => SlugPass(b, slugify, m')
    decreases |a|
  {
    if a == [] {
      assert a + b == b;
    } else {
      assert (a + b)[0] == a[0] && (a + b)[1..] == a[1..] + b;
      var slug := slugify(a[0]);
      if !(slug in m && m[slug] != "") {
        SlugPassAppend(a[1..], b, slugify, m[slug := a[0]]);
      }
    }
  }

  /** Once the test fails on the first `i` children it fails the same way on
      all of them. */
  lemma {:induction false} ChildrenErrorPersists(
    t: LegacyTask, i: nat, j: nat, slugify: Commands.Slugify, m: map<string, string>)
    requires t.Parent? && i <= j <= |t.children|
    requires SlugPass(PreOrderChildren(t, i), slugify, m).Err?
    ensures SlugPass(PreOrderChildren(t, j), slugify, m) == SlugPass(PreOrderChildren(t, i), slugify, m)
    decreases j
  {
    if i < j {
      ChildrenErrorPersists(t, i, j - 1, slugify, m);
      SlugPassAppend(PreOrderChildren(t, j - 1), PreOrder(t.children[j - 1]), slugify, m);
    }
  }

  /** `addAllTitleSlugsAndTags`: records the slug of `t`, failing when the
      table already holds a truthy title for it, then walks the children of
      a parent, or adds the tags of a leaf that are not yet listed. */
  method AddAllTitleSlugsAndTags(
    t: LegacyTask, slugify: Commands.Slugify, slugToTitle: map<string, string>, tags: seq<string>)
    returns (r: Result<(map<string, string>, seq<string>), string>)
    ensures r == Collected(t, slugify, slugToTitle, tags)
    decreases t, 1
  {
    var slug := slugify(t.title);
    assert PreOrder(t)[0] == t.title;
    if slug in slugToTitle && slugToTitle[slug] != "" {
      r := Err(Commands.DuplicateSlugMessage(slug));
      return;
    }
    var m := slugToTitle[slug := t.title];
    assert SlugPass(PreOrder(t), slugify, slugToTitle) == SlugPass(PreOrder(t)[1..], slugify, m);
    if t.Parent? {
      r := AddChildren(t, slugify, m, tags);
      assert PreOrder(t)[1..] == PreOrderChildren(t, |t.children|);
    } else {
      var newTags := AddMissing(tags, t.tags.GetOr([]));
      r := Ok((m, newTags));
      assert PreOrder(t)[1..] == [];
    }
  }

  /** `task.children.forEach(...)`: the walk over each child in turn. */
  method AddChildren(
    t: LegacyTask, slugify: Commands.Slugify, m: map<string, string>, tags: seq<string>)
    returns (r: Result<(map<string, string>, seq<string>), string>)
    requires t.Parent?
    ensures r == match SlugPass(PreOrderChildren(t, |t.children|), slugify, m)
      case Err(e) => Err(e)
      case Ok(m') => Ok((m', AppendNew(tags, LeafTagsChildren(t, |t.children|))))
    decreases t, 0, |t.children| + 1
  {
    var curM := m;
    var curTags := tags;
    var i := 0;
    while i < |t.children|
      invariant i <= |t.children|
      invariant SlugPass(PreOrderChildren(t, i), slugify, m) == Ok(curM)
      invariant curTags == AppendNew(tags, LeafTagsChildren(t, i))
    {
      var c := AddChild(t, i, slugify, m, tags, curM, curTags);
      if c.Err? {
        ChildrenErrorPersists(t, i + 1, |t.children|, slugify, m);
        r := Err(c.error);
        return;
      }
      curM, curTags := c.value.0, c.value.1;
      i := i + 1;
    }
    r := Ok((curM, curTags));
  }

  /** One turn of the loop: child `i` is walked with what the first `i`
      children left behind. */
  method AddChild(
    t: LegacyTask, i: nat, slugify: Commands.Slugify, m: map<string, string>, tags: seq<string>,
    curM: map<string, string>, curTags: seq<string>)
    returns (r: Result<(map<string, string>, seq<string>), string>)
    requires t.Parent? && i < |t.children|
    requires SlugPass(PreOrderChildren(t, i), slugify, m) == Ok(curM)
    requires curTags == AppendNew(tags, LeafTagsChildren(t, i))
    ensures r.Err? ==> SlugPass(PreOrderChildren(t, i + 1), slugify, m) == Err(r.error)
    ensures r.Ok? ==> SlugPass(PreOrderChildren(t, i + 1), slugify, m) == Ok(r.value.0)
    ensures r.Ok? ==> r.value.1 == AppendNew(tags, LeafTagsChildren(t, i + 1))
    decreases t, 0, |t.children| - i
  {
    var child := t.children[i];
    r := AddAllTitleSlugsAndTags(child, slugify, curM, curTags);
    SlugPassAppend(PreOrderChildren(t, i), PreOrder(child), slugify, m);
    AppendNewConcat(tags, LeafTagsChildren(t, i), LeafTags(child));
  }

  // -------------------------------------------------------------------------
  // Facts about the walk

  /** The slugs of a list of titles. */
  function Slugs(titles: seq<string>, slugify: Commands.Slugify): (slugs: seq<string>)
    ensures |slugs| == |titles|
    ensures forall i :: 0 <= i < |titles| ==> slugs[i] == slugify(titles[i])
  {
    seq(|titles|, i requires 0 <= i < |titles| => slugify(titles[i]))
  }

  /** Some slug of the list is already a key of `m`. */
  ghost predicate HitsTable(slugs: seq<string>, m: map<string, string>)
  {
    exists j :: 0 <= j < |slugs| && slugs[j] in m
  }

  /** Some slug of the list repeats. */
  ghost predicate HasRepeat(slugs: seq<string>)
  {
    exists i, j :: 0 <= i < j < |slugs| && slugs[i] == slugs[j]
  }

  /** With non-empty titles, the test fails exactly when a slug is already
      in the table or two titles share a slug. */
  lemma {:induction false} SlugPassFailsIff(titles: seq<string>, slugify: Commands.Slugify, m: map<string, string>)
    requires forall x :: x in titles ==> x != ""
    requires forall k :: k in m ==> m[k] != ""
    ensures SlugPass(titles, slugify, m).Err? <==>
      HitsTable(Slugs(titles, slugify), m) || HasRepeat(Slugs(titles, slugify))
    decreases |titles|
  {
    if titles != [] {
      var s := Slugs(titles, slugify);
      var x := titles[0];
      var rest := titles[1..];
      var rs := Slugs(rest, slugify);
      assert forall k :: 0 <= k < |rs| ==> rs[k] == s[k + 1];
      if s[0] in m {
        assert HitsTable(s, m);
      } else {
        var m' := m[s[0] := x];
        assert x in titles;
        assert forall y :: y in rest ==> y in titles;
        SlugPassFailsIff(rest, slugify, m');
        assert s[1..] == rs;
        SlugsStep(s, m, x);
      }
    }
  }

  /** Moving the first slug into the table: the tail hits the grown table or
      repeats exactly when the whole list hits the table or repeats. */
  lemma SlugsStep(s: seq<string>, m: map<string, string>, x: string)
    requires |s| > 0 && s[0] !in m
    ensures HitsTable(s[1..], m[s[0] := x]) || HasRepeat(s[1..])
      <==> HitsTable(s, m) || HasRepeat(s)
  {
    var rs := s[1..];
    var m' := m[s[0] := x];
    if HitsTable(rs, m') {
      var j :| 0 <= j < |rs| && rs[j] in m';
      if rs[j] in m {
        assert s[j + 1] in m;
      } else {
        assert s[0] == s[j + 1];
      }
    }
    if HasRepeat(rs) {
      var i, j :| 0 <= i < j < |rs| && rs[i] == rs[j];
      assert s[i + 1] == s[j + 1];
    }
    if HitsTable(s, m) {
      var j :| 0 <= j < |s| && s[j] in m;
      assert rs[j - 1] in m';
    }
    if HasRepeat(s) {
      var i, j :| 0 <= i < j < |s| && s[i] == s[j];
      if i == 0 {
        assert rs[j - 1] in m';
      } else {
        assert rs[i - 1] == rs[j - 1];
      }
    }
  }

  /** Starting from an empty table, a tree whose titles are all non-empty
      is refused exactly when two of its titles share a slug. */
  lemma CollectedFailsIffSlugRepeats(t: LegacyTask, slugify: Commands.Slugify, tags: seq<string>)
    requires forall x :: x in PreOrder(t) ==> x != ""
    ensures Collected(t, slugify, map[], tags).Err? <==> HasRepeat(Slugs(PreOrder(t), slugify))
  {
    SlugPassFailsIff(PreOrder(t), slugify, map[]);
  }

  /** An empty title never blocks a later one: its entry is falsy, so a
      second task with the same slug passes the test. */
  lemma EmptyTitleNeverBlocks(slugify: Commands.Slugify, x: string)
    requires x != "" && slugify("") == slugify(x)
    ensures SlugPass(["", x], slugify, map[]).Ok?
    ensures HasRepeat(Slugs(["", x], slugify))
  {
    var s := Slugs(["", x], slugify);
    assert s[0] == s[1];
    assert ["", x][1..] == [x];
    var m := map[slugify("") := ""];
    assert SlugPass(["", x], slugify, map[]) == SlugPass([x], slugify, m);
    assert [x][1..] == [];
  }

  /** The tag list after the walk: still duplicate-free, still starting with
      the tags it had, and holding exactly those and the leaves' tags. */
  lemma CollectedTags(t: LegacyTask, slugify: Commands.Slugify, m: map<string, string>, tags: seq<string>)
    requires Distinct(tags) && Collected(t, slugify, m, tags).Ok?
    ensures var result := Collected(t, slugify, m, tags).value.1;
      Distinct(result)
      && Elements(result) == Elements(tags) + Elements(LeafTags(t))
      && |tags| <= |result| && result[..|tags|] == tags
  {
    AppendNewFacts(tags, LeafTags(t));
  }

  /** After a successful test every key of the table is a slug of the table
      it started from or of a title, and it leads to a title with that slug
      or to its first value. */
  lemma {:induction false} SlugPassTable(
    titles: seq<string>, slugify: Commands.Slugify, m: map<string, string>, k: string)
    requires SlugPass(titles, slugify, m).Ok?
    ensures k in SlugPass(titles, slugify, m).value <==> k in m || k in Slugs(titles, slugify)
    ensures k in SlugPass(titles, slugify, m).value ==>
      var v := SlugPass(titles, slugify, m).value[k];
      (v in titles && slugify(v) == k) || (k in m && v == m[k])
    decreases |titles|
  {
    if titles != [] {
      var slug := slugify(titles[0]);
      var rest := titles[1..];
      SlugPassTable(rest, slugify, m[slug := titles[0]], k);
      var s := Slugs(titles, slugify);
      var rs := Slugs(rest, slugify);
      assert s == [slug] + rs;
      assert titles == [titles[0]] + rest;
    }
  }

  /** Titles and slugs given on the command line come out of
      `coerceSlugToTitle` as titles of the tree (`slugify` turns the empty
      title into the empty slug). */
  lemma LegacyCoerceIntoTitles(
    t: LegacyTask, slugify: Commands.Slugify, elements: seq<string>, i: nat)
    requires slugify("") == ""
    requires Collected(t, slugify, map[], []).Ok?
    requires i < |elements|
    requires elements[i] in PreOrder(t) || elements[i] in Slugs(PreOrder(t), slugify)
    ensures Commands.CoerceSlugToTitle(Collected(t, slugify, map[], []).value.0, elements)[i] in PreOrder(t)
  {
    var table := Collected(t, slugify, map[], []).value.0;
    var e := elements[i];
    SlugPassTable(PreOrder(t), slugify, map[], e);
    var r := Commands.CoerceSlugToTitle(table, elements);
    assert r[i] == if e in table && table[e] != "" then table[e] else e;
  }

  // -------------------------------------------------------------------------
  // The slug test as written

  /** The test of src/run.ts:231 as written: reading a missing key of a plain
      `{}` falls through to `Object.prototype`, whose members are all truthy. */
  function SlugTruthyAsWritten(slugToTitle: map<string, string>, slug: string): (taken: bool)
    ensures slug in slugToTitle ==> (taken <==> slugToTitle[slug] != "")
    ensures slug !in slugToTitle ==> (taken <==> slug in ObjectPrototypeNames)
  {
    match ReadPlainObject(slugToTitle, slug)
    case Own(title) => title != ""
    case Inherited(_) => true
    case Absent => false
  }

  /** A lone task titled `Constructor` passes the slug test, yet the test as
      written refuses it, because its slug is `constructor`. */
  lemma LegacyConstructorRejectedAsWritten(slugify: Commands.Slugify)
    requires slugify("Constructor") == "constructor"
    ensures Collected(Regular("Constructor", None, None, false), slugify, map[], []).Ok?
    ensures SlugTruthyAsWritten(map[], slugify("Constructor"))
  {
    assert PreOrder(Regular("Constructor", None, None, false)) == ["Constructor"];
    assert ["Constructor"][1..] == [];
  }

  /** A lone task titled `toString` passes the slug test, as written too,
      since its slug is `tostring`. The corrected coercion turns
      `--only toString` into its title; the coercion of src/run.ts:258 as
      written turns it into `Object.prototype.toString`, which is no choice. */
  lemma LegacyToStringCoercedAsWritten(slugify: Commands.Slugify)
    requires slugify("toString") == "tostring"
    ensures Collected(Regular("toString", None, None, false), slugify, map[], []).Ok?
    ensures !SlugTruthyAsWritten(map[], slugify("toString"))
    ensures var table := Collected(Regular("toString", None, None, false), slugify, map[], []).value.0;
      Commands.CoerceSlugToTitle(table, ["toString"])[0] == "toString"
      && Commands.CoerceAsWritten(table, ["toString"])[0] == Commands.Member("toString")
  {
    assert PreOrder(Regular("toString", None, None, false)) == ["toString"];
    assert ["toString"][1..] == [];
    var table := Collected(Regular("toString", None, None, false), slugify, map[], []).value.0;
    assert table == map["tostring" := "toString"];
  }
}
