/** The `skip()` functions src/tasks.ts gives each kind of task, the parent
    rule "all children are skipped", the normalisation of a task's own skip
    result, and the output-line guard. */
module SkipRules {
  import opened Wrappers
  import opened Context
  import opened TaskTree
  import opened StaticSkip

  /** `getSkipReason`. */
  function SkipReason(option: SkippedBy): (reason: string)
    ensures reason != ""
  {
    "Skipped by --" + OptionName(option) + " option"
  }

  function OptionName(option: SkippedBy): string
  {
    match option
    case DryRun => "dryRun"
    case Only => "only"
    case Skip => "skip"
    case Tag => "tag"
  }

  /** Distinct options give distinct reasons. */
  lemma SkipReasonInjective(a: SkippedBy, b: SkippedBy)
    requires SkipReason(a) == SkipReason(b)
    ensures a == b
  {
    var prefix := "Skipped by --";
    assert SkipReason(a)[|prefix|] == OptionName(a)[0];
    assert SkipReason(b)[|prefix|] == OptionName(b)[0];
    if OptionName(a)[0] == 't' || OptionName(a)[0] == 'd' {
    } else {
      assert SkipReason(a)[|prefix| + 1] == OptionName(a)[1];
      assert SkipReason(b)[|prefix| + 1] == OptionName(b)[1];
    }
  }

  /** `shouldSkipByTaskProperty` after the call: a string is returned as it
      is, `true` becomes a message, anything else passes through. */
  function Normalize(r: SkipResult): (n: SkipResult)
    ensures n.Truthy() <==> r.Truthy()
    ensures n != Flag(true)
    ensures r.Message? ==> n == r
    ensures r == Flag(true) ==> n == Message("Tasked skipped itself")
    ensures !r.Message? && r != Flag(true) ==> n == r
  {
    if r == Flag(true) then Message("Tasked skipped itself") else r
  }

  lemma NormalizeIdempotent(r: SkipResult)
    ensures Normalize(Normalize(r)) == Normalize(r)
  {
  }

  /** A task's own predicate, applied to the user's part of the context; no
      predicate gives `undefined`. */
  function OwnSkip(context: Fields, skip: Option<UserSkip>): (r: SkipResult)
    ensures skip.None? ==> r == Unset
  {
    if skip.Some? then skip.value(GetUserContext(context)) else Unset
  }

  /** The predicate sees the user's part of the context only: changing an
      internal key (`dryRun`, `only`, `skip`, `secrets`, ...) cannot change
      its answer. */
  lemma OwnSkipIgnoresInternalKeys(context: Fields, skip: Option<UserSkip>, key: string, v: Value)
    requires key in InternalKeys
    ensures OwnSkip(context[key := v], skip) == OwnSkip(context, skip)
  {
    assert GetUserContext(context[key := v]) == GetUserContext(context);
  }

  /** JavaScript `a || b` on skip results. */
  function Or(a: SkipResult, b: SkipResult): (r: SkipResult)
    ensures r.Truthy() <==> a.Truthy() || b.Truthy()
    ensures a.Truthy() ==> r == a
  {
    if a.Truthy() then a else b
  }

  /** `skipByOnlyOrTagOptions`. */
  function OnlyOrTagReason(marks: Marks, title: string): (r: SkipResult)
    ensures r.Truthy() <==> Lookup(marks, title) == Some(Only) || Lookup(marks, title) == Some(Tag)
    ensures Lookup(marks, title) == Some(Only) ==> r == Message(SkipReason(Only))
    ensures Lookup(marks, title) == Some(Tag) ==> r == Message(SkipReason(Tag))
  {
    if Lookup(marks, title) == Some(Only) then Message(SkipReason(Only))
    else if Lookup(marks, title) == Some(Tag) then Message(SkipReason(Tag))
    else Flag(false)
  }

  /** The `skip()` `createSkippableTask` wraps around an inner one. */
  function SkippableSkip(marks: Marks, title: string, inner: SkipResult): (r: SkipResult)
    ensures r.Truthy() <==> Lookup(marks, title) == Some(Skip) || inner.Truthy()
    ensures Lookup(marks, title) == Some(Skip) ==> r == Message("Skipped by --skip option")
    ensures r != Flag(true)
  {
    if Lookup(marks, title) == Some(Skip) then Message(SkipReason(Skip))
    else Normalize(inner)
  }

  /** `getStaticParentTaskSkipReason`. */
  function StaticParentSkipReason(marks: Marks, t: Task): (r: Option<string>)
    requires t.Parent?
    ensures r.Some? <==> t.title in marks || AllChildrenSkipped(marks, t, |t.children|)
    ensures r.Some? ==> r.value != ""
    ensures t.title in marks ==> r == Some(SkipReason(marks[t.title]))
    ensures t.title !in marks && AllChildrenSkipped(marks, t, |t.children|) ==> r == Some("All children are skipped")
    decreases t, 1
  {
    if t.title in marks then Some(SkipReason(marks[t.title]))
    else if AllChildrenSkipped(marks, t, |t.children|) then Some("All children are skipped")
    else None
  }

  /** The `every` over the first `i` children. */
  predicate AllChildrenSkipped(marks: Marks, t: Task, i: nat)
    requires t.Parent? && i <= |t.children|
    decreases t, 0, i
  {
    i == 0 || (AllChildrenSkipped(marks, t, i - 1) && StaticallySkipped(marks, t.children[i - 1]))
  }

  /** The test applied to each child. */
  predicate StaticallySkipped(marks: Marks, t: Task)
    decreases t, 2
  {
    if t.Parent? then StaticParentSkipReason(marks, t).Some? else t.title in marks
  }

  /** The skip of a command task (src/tasks.ts:249-255, 370-371). */
  function CommandSkip(context: Fields, marks: Marks, t: Task): (r: SkipResult)
    requires t.Command?
    ensures r != Flag(true)
    ensures t.title in marks ==> r == Message(SkipReason(marks[t.title]))
    ensures t.title !in marks ==> r == Normalize(OwnSkip(context, t.skip))
  {
    SkippableSkip(marks, t.title,
      Or(OnlyOrTagReason(marks, t.title), Normalize(OwnSkip(context, t.skip))))
  }

  /** The skip of a regular task (src/tasks.ts:395-406): a dry run skips it
      before anything else. */
  function RegularSkip(context: Fields, marks: Marks, t: Task): (r: SkipResult)
    requires t.Regular?
    ensures r != Flag(true)
    ensures IsDryRun(context) && Lookup(marks, t.title) != Some(Skip) ==>
      r == Message(SkipReason(DryRun))
    ensures t.title in marks && (!IsDryRun(context) || marks[t.title] == Skip) ==>
      r == Message(SkipReason(marks[t.title]))
    ensures t.title !in marks && !IsDryRun(context) ==> r == Normalize(OwnSkip(context, t.skip))
  {
    SkippableSkip(marks, t.title,
      if IsDryRun(context) then Message(SkipReason(DryRun))
      else Or(OnlyOrTagReason(marks, t.title), Normalize(OwnSkip(context, t.skip))))
  }

  /** The skip of a parent task (src/tasks.ts:451-469). */
  function ParentSkip(context: Fields, marks: Marks, t: Task): (r: SkipResult)
    requires t.Parent?
    ensures StaticParentSkipReason(marks, t).Some? ==>
      r == Message(StaticParentSkipReason(marks, t).value)
    ensures StaticParentSkipReason(marks, t).None? ==> r == Normalize(OwnSkip(context, t.skip))
  {
    SkippableSkip(marks, t.title,
      match StaticParentSkipReason(marks, t)
      case Some(reason) => Message(reason)
      case None => OwnSkip(context, t.skip))
  }

  /** The skip of any task, by `createListrTask`'s dispatch. */
  function TaskSkip(context: Fields, marks: Marks, t: Task): (r: SkipResult)
    ensures r.Truthy() <==>
      StaticallySkipped(marks, t) || (t.Regular? && IsDryRun(context)) || OwnSkip(context, t.skip).Truthy()
    ensures r != Flag(true)
  {
    match t
    case Command(_, _, _) => CommandSkip(context, marks, t)
    case Regular(_, _, _) => RegularSkip(context, marks, t)
    case Parent(_, _, _) => ParentSkip(context, marks, t)
  }

  /** A `skip` mark wins over everything, whatever the context and the
      task's own predicate. */
  lemma SkipMarkWins(context: Fields, marks: Marks, t: Task)
    requires Lookup(marks, t.title) == Some(Skip)
    ensures TaskSkip(context, marks, t) == Message("Skipped by --skip option")
  {
  }

  /** Every statically marked task is skipped. */
  lemma MarkedTaskSkipped(context: Fields, marks: Marks, t: Task)
    requires t.title in marks
    ensures TaskSkip(context, marks, t).Truthy()
  {
  }

  /** A leaf's skip is truthy exactly when it is marked, or (for a regular
      task) the run is dry, or its own predicate says so. */
  lemma LeafSkipIff(context: Fields, marks: Marks, t: Task)
    requires !t.Parent?
    ensures TaskSkip(context, marks, t).Truthy() <==>
      t.title in marks || (t.Regular? && IsDryRun(context)) || OwnSkip(context, t.skip).Truthy()
  {
  }

  /** `only` and `tag` marks are reported before the task's own predicate is
      consulted, and a dry run before them for a regular task. */
  lemma LeafReasonOrder(context: Fields, marks: Marks, t: Task)
    requires !t.Parent?
    ensures Lookup(marks, t.title) == Some(Only) && !(t.Regular? && IsDryRun(context)) ==>
      TaskSkip(context, marks, t) == Message("Skipped by --only option")
    ensures Lookup(marks, t.title) == Some(Tag) && !(t.Regular? && IsDryRun(context)) ==>
      TaskSkip(context, marks, t) == Message("Skipped by --tag option")
    ensures t.Regular? && IsDryRun(context) && Lookup(marks, t.title) != Some(Skip) ==>
      TaskSkip(context, marks, t) == Message("Skipped by --dryRun option")
    ensures t.title !in marks && !(t.Regular? && IsDryRun(context)) ==>
      TaskSkip(context, marks, t) == Normalize(OwnSkip(context, t.skip))
  {
  }

  /** A parent is skipped exactly when it is statically skipped or its own
      predicate says so. */
  lemma ParentSkipIff(context: Fields, marks: Marks, t: Task)
    requires t.Parent?
    ensures TaskSkip(context, marks, t).Truthy() <==>
      StaticallySkipped(marks, t) || OwnSkip(context, t.skip).Truthy()
  {
  }

  // -------------------------------------------------------------------------
  // "All children are skipped", stated over paths

  /** Some task on the path `p` from `t`, `t` and the end included, is marked. */
  ghost predicate HitsMark(marks: Marks, t: Task, p: seq<nat>)
    requires ValidPath(t, p)
    decreases |p|
  {
    t.title in marks || (p != [] && HitsMark(marks, t.children[p[0]], p[1..]))
  }

  /** Every path from `t` to a leaf passes a marked task. */
  ghost predicate Covered(marks: Marks, t: Task)
  {
    forall p :: ValidPath(t, p) && !At(t, p).Parent? ==> HitsMark(marks, t, p)
  }

  lemma {:induction false} AllChildrenSkippedIff(marks: Marks, t: Task, i: nat)
    requires t.Parent? && i <= |t.children|
    ensures AllChildrenSkipped(marks, t, i) <==>
      forall k :: 0 <= k < i ==> StaticallySkipped(marks, t.children[k])
  {
    if i > 0 {
      AllChildrenSkippedIff(marks, t, i - 1);
      assert AllChildrenSkipped(marks, t, i) ==
        (AllChildrenSkipped(marks, t, i - 1) && StaticallySkipped(marks, t.children[i - 1]));
    }
  }

  /** A task is statically skipped exactly when every path from it to a
      leaf passes a marked task: the parent rule never hides a leaf that
      would otherwise run. */
  lemma {:induction false} StaticallySkippedIffCovered(marks: Marks, t: Task)
    ensures StaticallySkipped(marks, t) <==> Covered(marks, t)
    decreases t
  {
    if !t.Parent? {
      assert ValidPath(t, []) && At(t, []) == t;
    } else if t.title in marks {
    } else {
      forall k | 0 <= k < |t.children|
        ensures StaticallySkipped(marks, t.children[k]) <==> Covered(marks, t.children[k])
      {
        StaticallySkippedIffCovered(marks, t.children[k]);
      }
      AllChildrenSkippedIff(marks, t, |t.children|);
      if Covered(marks, t) {
        forall k | 0 <= k < |t.children| ensures Covered(marks, t.children[k]) {
          CoveredChild(marks, t, k);
        }
      } else {
        var p :| ValidPath(t, p) && !At(t, p).Parent? && !HitsMark(marks, t, p);
        assert p != [];
        var c := t.children[p[0]];
        assert ValidPath(c, p[1..]) && At(c, p[1..]) == At(t, p) && !HitsMark(marks, c, p[1..]);
        assert !Covered(marks, c);
      }
    }
  }

  lemma CoveredChild(marks: Marks, t: Task, k: nat)
    requires t.Parent? && k < |t.children| && t.title !in marks && Covered(marks, t)
    ensures Covered(marks, t.children[k])
  {
    var c := t.children[k];
    forall q | ValidPath(c, q) && !At(c, q).Parent? ensures HitsMark(marks, c, q) {
      var p := [k] + q;
      assert p[1..] == q;
      assert ValidPath(t, p) && At(t, p) == At(c, q);
      assert HitsMark(marks, t, p);
    }
  }

  /** A parent whose subtree holds an unmarked path to a leaf is not
      statically skipped, and then its reason is its own predicate's. */
  lemma OpenLeafKeepsParent(context: Fields, marks: Marks, t: Task, p: seq<nat>)
    requires t.Parent? && ValidPath(t, p) && !At(t, p).Parent? && !HitsMark(marks, t, p)
    ensures ParentSkip(context, marks, t) == Normalize(OwnSkip(context, t.skip))
  {
    StaticallySkippedIffCovered(marks, t);
  }

  // -------------------------------------------------------------------------
  // Output lines and titles

  /** The test `/\r?\n/` performs: a line feed, possibly after a carriage
      return, somewhere in the line. */
  predicate MatchesLineBreak(line: string)
  {
    exists i :: 0 <= i < |line| &&
      (line[i] == '\n' || (line[i] == '\r' && i + 1 < |line| && line[i + 1] == '\n'))
  }

  /** The pattern matches exactly the lines holding a line feed; a lone
      carriage return passes. */
  lemma LineBreakIffLineFeed(line: string)
    ensures MatchesLineBreak(line) <==> '\n' in line
  {
    if MatchesLineBreak(line) {
      var i :| 0 <= i < |line| &&
        (line[i] == '\n' || (line[i] == '\r' && i + 1 < |line| && line[i + 1] == '\n'));
      if line[i] != '\n' {
        assert line[i + 1] == '\n';
      }
    }
    if '\n' in line {
      var i :| 0 <= i < |line| && line[i] == '\n';
      assert MatchesLineBreak(line);
    }
  }

  /** `createOutputLine`: the line shown, or the error thrown. */
  function OutputLine(line: string): (r: Result<string, string>)
    ensures r.Ok? <==> '\n' !in line
    ensures r.Ok? ==> r.value == line
    ensures r.Err? ==> r.error == "Output line cannot contain line break:\n\n: " + line
  {
    LineBreakIffLineFeed(line);
    if MatchesLineBreak(line) then Err("Output line cannot contain line break:\n\n: " + line)
    else Ok(line)
  }

  /** `addDetailsToTaskTitle`: the title and the details can be read back. */
  function AddDetailsToTaskTitle(title: string, details: string): (r: string)
    ensures |r| == |title| + |details| + 3
    ensures r[..|title|] == title && r[|title| + 2..|r| - 1] == details
    ensures r[|title|..|title| + 2] == " (" && r[|r| - 1] == ')'
  {
    title + " (" + details + ")"
  }

  /** What a command task does once its command is known
      (src/tasks.ts:319-326): on a dry run its title shows the rendered
      command and it is skipped; otherwise the command runs. */
  datatype CommandOutcome =
    | ShownDry(title: string, reason: string)
    | Execute

  function CommandOutcomeOf(dryRun: bool, title: string, commandString: string): (r: CommandOutcome)
    ensures r.ShownDry? <==> dryRun
    ensures r.ShownDry? ==> r.reason == "Skipped by --dryRun option"
    ensures r.ShownDry? ==> r.title == AddDetailsToTaskTitle(title, "$ " + commandString)
  {
    if dryRun then ShownDry(AddDetailsToTaskTitle(title, "$ " + commandString), SkipReason(DryRun))
    else Execute
  }

  // -------------------------------------------------------------------------
  // Concurrency of a parent's children

  /** `!debug && task.concurrent` (src/tasks.ts:484), the `concurrent`
      option of the children's list: `false` under `debug`, otherwise the
      task's own setting, a flag or a number, or undefined when absent. */
  function ChildrenConcurrency(snapshot: Fields, concurrent: Value): (r: Value)
    ensures Truthy(r) <==> !IsDebug(snapshot) && Truthy(concurrent)
    ensures IsDebug(snapshot) ==> r == Bool(false)
    ensures !IsDebug(snapshot) ==> r == concurrent
  {
    var debug := if "debug" in snapshot then snapshot["debug"] else Undefined;
    if Truthy(debug) then Bool(false) else concurrent
  }
}
