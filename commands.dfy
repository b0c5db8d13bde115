/** The internal command-line options of src/commands.ts: the slug → title
    table with its duplicate check, the `--only`/`--skip` title choices, the
    `--tag` choices, the defaults, and the coercion of slugs to titles. */
module Commands {
  import opened Wrappers
  import opened Ordering
  import opened Flatten
  import opened StringLists
  import opened PlainObjects

  /** `slugify(title.toLowerCase())`, a foreign call. */
  type Slugify = string -> string

  /** One `[title, taskNode]` pair of `Object.entries(flatTasks)`. */
  type Entry = (string, FlatTask)

  /** The keys of an object are pairwise different. */
  predicate DistinctTitles(entries: seq<Entry>)
  {
    forall i, j :: 0 <= i < j < |entries| ==> entries[i].0 != entries[j].0
  }

  /** The slug of the `i`-th entry. */
  function SlugAt(entries: seq<Entry>, slugify: Slugify, i: nat): string
    requires i < |entries|
  {
    slugify(entries[i].0)
  }

  /** Two of the first `n` entries have the same slug. */
  ghost predicate SlugClash(entries: seq<Entry>, slugify: Slugify, n: nat)
    requires n <= |entries|
  {
    exists i, j :: 0 <= i < j < n && SlugAt(entries, slugify, i) == SlugAt(entries, slugify, j)
  }

  /** The slug → title table after the first `n` entries. */
  function SlugMap(entries: seq<Entry>, slugify: Slugify, n: nat): (m: map<string, string>)
    requires n <= |entries|
  {
    if n == 0 then map[]
    else SlugMap(entries, slugify, n - 1)[SlugAt(entries, slugify, n - 1) := entries[n - 1].0]
  }

  /** The titles of the first `n` entries, in order. */
  function TitleList(entries: seq<Entry>, n: nat): (titles: seq<string>)
    requires n <= |entries|
    ensures |titles| == n
    ensures forall i :: 0 <= i < n ==> titles[i] == entries[i].0
  {
    if n == 0 then [] else TitleList(entries, n - 1) + [entries[n - 1].0]
  }

  /** Every tag declared by the first `n` entries; an entry without tags
      declares none. */
  function TagUnion(entries: seq<Entry>, n: nat): set<string>
    requires n <= |entries|
  {
    if n == 0 then {} else TagUnion(entries, n - 1) + Elements(entries[n - 1].1.tags.GetOr([]))
  }

  function DuplicateSlugMessage(slug: string): string
  {
    "Two tasks have the same title slug: " + slug
  }

  /** What `getInternalOptions` sets up for `debug`, `dryRun`, `only`, `skip`
      and `tag`; the descriptions are left out. */
  datatype InternalOptions = InternalOptions(
    debugDefault: bool,
    dryRunDefault: bool,
    onlyChoices: seq<string>,
    onlyDefault: seq<string>,
    skipChoices: seq<string>,
    skipDefault: seq<string>,
    tagChoices: seq<string>,
    tagDefault: seq<string>,
    slugToTitle: map<string, string>)

  // -------------------------------------------------------------------------
  // Facts about the specification functions

  /** A slug is in the table exactly when one of the first `n` entries has it. */
  lemma {:induction false} SlugMapKeys(entries: seq<Entry>, slugify: Slugify, n: nat, slug: string)
    requires n <= |entries|
    ensures slug in SlugMap(entries, slugify, n) <==>
      exists i :: 0 <= i < n && SlugAt(entries, slugify, i) == slug
  {
    if n > 0 {
      SlugMapKeys(entries, slugify, n - 1, slug);
    }
  }

  /** Without a clash each entry's slug leads back to its title. */
  lemma {:induction false} SlugMapLookup(entries: seq<Entry>, slugify: Slugify, n: nat, k: nat)
    requires k < n <= |entries| && !SlugClash(entries, slugify, n)
    ensures SlugAt(entries, slugify, k) in SlugMap(entries, slugify, n)
    ensures SlugMap(entries, slugify, n)[SlugAt(entries, slugify, k)] == entries[k].0
  {
    if k < n - 1 {
      ClashGrows(entries, slugify, n - 1, n);
      SlugMapLookup(entries, slugify, n - 1, k);
      assert SlugAt(entries, slugify, k) != SlugAt(entries, slugify, n - 1);
    }
  }

  /** A clash among the first `m` entries is one among the first `n >= m`. */
  lemma ClashGrows(entries: seq<Entry>, slugify: Slugify, m: nat, n: nat)
    requires m <= n <= |entries|
    ensures SlugClash(entries, slugify, m) ==> SlugClash(entries, slugify, n)
  {
  }

  /** Every value of the table is the title of an entry with that slug. */
  lemma {:induction false} SlugMapValues(entries: seq<Entry>, slugify: Slugify, n: nat, slug: string)
    returns (k: nat)
    requires n <= |entries| && slug in SlugMap(entries, slugify, n)
    ensures k < n && SlugAt(entries, slugify, k) == slug
    ensures SlugMap(entries, slugify, n)[slug] == entries[k].0
  {
    if slug == SlugAt(entries, slugify, n - 1) {
      k := n - 1;
    } else {
      k := SlugMapValues(entries, slugify, n - 1, slug);
    }
  }

  /** Adding one entry to a clash-free prefix makes a clash exactly when its
      slug is already in the table. */
  lemma ClashStep(entries: seq<Entry>, slugify: Slugify, n: nat)
    requires n < |entries| && !SlugClash(entries, slugify, n)
    ensures SlugClash(entries, slugify, n + 1) <==> SlugAt(entries, slugify, n) in SlugMap(entries, slugify, n)
  {
    SlugMapKeys(entries, slugify, n, SlugAt(entries, slugify, n));
    if SlugClash(entries, slugify, n + 1) {
      var i, j :| 0 <= i < j < n + 1 && SlugAt(entries, slugify, i) == SlugAt(entries, slugify, j);
      assert j == n;
    }
  }

  /** The entry that an entry's slug collides with, when the prefix before
      it has no clash. */
  lemma EarlierSlug(entries: seq<Entry>, slugify: Slugify, n: nat) returns (i: nat)
    requires n < |entries| && !SlugClash(entries, slugify, n)
    requires SlugAt(entries, slugify, n) in SlugMap(entries, slugify, n)
    ensures i < n && SlugAt(entries, slugify, i) == SlugAt(entries, slugify, n)
  {
    SlugMapKeys(entries, slugify, n, SlugAt(entries, slugify, n));
    i :| 0 <= i < n && SlugAt(entries, slugify, i) == SlugAt(entries, slugify, n);
  }

  // -------------------------------------------------------------------------
  // getInternalOptions

  /** `getInternalOptions`: walks the entries in order, failing on the first
      slug that repeats, and otherwise offers the sorted titles for `--only`
      and `--skip` and the sorted, duplicate-free tags for `--tag`. */
  method GetInternalOptions(entries: seq<Entry>, slugify: Slugify, interactive: bool)
    returns (r: Result<InternalOptions, string>)
    requires DistinctTitles(entries)
    ensures r.Err? <==> SlugClash(entries, slugify, |entries|)
    ensures r.Err? ==> exists i, j :: (0 <= i < j < |entries|
      && SlugAt(entries, slugify, i) == SlugAt(entries, slugify, j)
      && !SlugClash(entries, slugify, j)
      && r.error == DuplicateSlugMessage(SlugAt(entries, slugify, j)))
    ensures r.Ok? ==> r.value.slugToTitle == SlugMap(entries, slugify, |entries|)
    ensures r.Ok? ==> (r.value.onlyChoices == r.value.skipChoices
      && Sorted(r.value.onlyChoices)
      && multiset(r.value.onlyChoices) == multiset(TitleList(entries, |entries|)))
    ensures r.Ok? ==> (Sorted(r.value.tagChoices) && Distinct(r.value.tagChoices)
      && Elements(r.value.tagChoices) == TagUnion(entries, |entries|))
    ensures r.Ok? ==> (r.value.debugDefault == !interactive && !r.value.dryRunDefault
      && r.value.onlyDefault == [] && r.value.skipDefault == [] && r.value.tagDefault == [])
  {
    var slugToTitle: map<string, string> := map[];
    var titles: seq<string> := [];
    var tags: seq<string> := [];
    var n := 0;
    while n < |entries|
      invariant n <= |entries|
      invariant !SlugClash(entries, slugify, n)
      invariant slugToTitle == SlugMap(entries, slugify, n)
      invariant titles == TitleList(entries, n)
      invariant Distinct(tags) && Elements(tags) == TagUnion(entries, n)
    {
      var title := entries[n].0;
      var slug := slugify(title);
      ClashStep(entries, slugify, n);
      if slug in slugToTitle {
        r := Err(DuplicateSlugMessage(slug));
        var i := EarlierSlug(entries, slugify, n);
        return;
      }
      slugToTitle := slugToTitle[slug := title];
      titles := titles + [title];
      AppendNewFacts(tags, entries[n].1.tags.GetOr([]));
      tags := AddMissing(tags, entries[n].1.tags.GetOr([]));
      n := n + 1;
    }
    var availableTitles := Sort(titles);
    var availableTags := Sort(tags);
    PermutationKeepsElements(tags, availableTags);
    r := Ok(InternalOptions(
      !interactive, false,
      availableTitles, [],
      availableTitles, [],
      availableTags, [],
      slugToTitle));
  }

  // -------------------------------------------------------------------------
  // coerceSlugToTitle

  /** `coerceSlugToTitle` (src/commands.ts:78-79), reading the table's own
      keys only: an element that is a slug with a non-empty title becomes
      that title; anything else stays. The source reads a plain `{}`, which
      differs on the inherited names (`CoerceAsWritten`); the lemmas below
      are about this corrected reading. */
  function CoerceSlugToTitle(slugToTitle: map<string, string>, elements: seq<string>): (r: seq<string>)
    ensures |r| == |elements|
    ensures forall i :: 0 <= i < |elements| ==>
      r[i] == elements[i] || (elements[i] in slugToTitle && r[i] == slugToTitle[elements[i]])
  {
    seq(|elements|, i requires 0 <= i < |elements| =>
      if elements[i] in slugToTitle && slugToTitle[elements[i]] != "" then slugToTitle[elements[i]]
      else elements[i])
  }

  /** The slug of a task with a non-empty title is coerced to that title. */
  lemma CoerceKnownSlug(entries: seq<Entry>, slugify: Slugify, elements: seq<string>, i: nat, k: nat)
    requires !SlugClash(entries, slugify, |entries|)
    requires i < |elements| && k < |entries|
    requires elements[i] == SlugAt(entries, slugify, k) && entries[k].0 != ""
    ensures CoerceSlugToTitle(SlugMap(entries, slugify, |entries|), elements)[i] == entries[k].0
  {
    SlugMapLookup(entries, slugify, |entries|, k);
  }

  /** An element that is no task's slug is left as it is. */
  lemma CoerceUnknown(entries: seq<Entry>, slugify: Slugify, elements: seq<string>, i: nat)
    requires i < |elements|
    requires forall k :: 0 <= k < |entries| ==> SlugAt(entries, slugify, k) != elements[i]
    ensures CoerceSlugToTitle(SlugMap(entries, slugify, |entries|), elements)[i] == elements[i]
  {
    SlugMapKeys(entries, slugify, |entries|, elements[i]);
  }

  /** Some task has the slug `e`. */
  ghost predicate SlugMapHas(entries: seq<Entry>, slugify: Slugify, e: string)
  {
    exists k :: 0 <= k < |entries| && SlugAt(entries, slugify, k) == e
  }

  /** Titles and slugs given on the command line all come out as titles, so
      they are among the `--only`/`--skip` choices (`slugify` turns the
      empty title into the empty slug). */
  lemma CoerceIntoTitles(entries: seq<Entry>, slugify: Slugify, elements: seq<string>, i: nat)
    requires slugify("") == ""
    requires i < |elements|
    requires elements[i] in TitleList(entries, |entries|) || SlugMapHas(entries, slugify, elements[i])
    ensures CoerceSlugToTitle(SlugMap(entries, slugify, |entries|), elements)[i]
      in TitleList(entries, |entries|)
  {
    var m := SlugMap(entries, slugify, |entries|);
    var e := elements[i];
    var r := CoerceSlugToTitle(m, elements);
    assert r[i] == if e in m && m[e] != "" then m[e] else e;
    if e in m {
      var k := SlugMapValues(entries, slugify, |entries|, e);
      assert TitleList(entries, |entries|)[k] == m[e];
    } else {
      SlugMapKeys(entries, slugify, |entries|, e);
    }
  }

  // -------------------------------------------------------------------------
  // The duplicate-slug guard and the coercion as written

  /** The guard of src/commands.ts:63 as written is `InPlainObject`: the
      table is a plain `{}`, so `in` also sees the inherited names. One task
      titled `Constructor` passes the title guard even as written, and no two
      tasks share its slug, yet the slug guard as written rejects it,
      because its slug is `constructor`. */
  lemma CapitalisedConstructorRejectedAsWritten(slugify: Slugify)
    requires slugify("Constructor") == "constructor"
    ensures var entries: seq<Entry> := [("Constructor", FlatTask(None, None, None))];
      var empty: FlatTasks := map[];
      var table: map<string, string> := map[];
      !InPlainObject(empty, "Constructor")
      && !SlugClash(entries, slugify, |entries|)
      && InPlainObject(table, SlugAt(entries, slugify, 0))
  {
  }

  /** An element after coercion as written: a string, or a member inherited
      from `Object.prototype` (a function, never one of the choices). */
  datatype Coerced = Text(text: string) | Member(name: string)

  /** `slugToTitle[element] || element` on a table created as `{}`: an
      inherited name that is not an own key reads the inherited member,
      which is truthy, so it replaces the element. Everywhere else this is
      `CoerceSlugToTitle`. */
  function CoerceAsWritten(slugToTitle: map<string, string>, elements: seq<string>): (r: seq<Coerced>)
    ensures |r| == |elements|
    ensures forall i :: 0 <= i < |elements| ==>
      (r[i].Member? <==> elements[i] !in slugToTitle && elements[i] in ObjectPrototypeNames)
    ensures forall i :: 0 <= i < |elements| ==>
      r[i].Text? ==> r[i].text == CoerceSlugToTitle(slugToTitle, elements)[i]
  {
    seq(|elements|, i requires 0 <= i < |elements| =>
      match ReadPlainObject(slugToTitle, elements[i])
      case Own(title) => Text(if title != "" then title else elements[i])
      case Inherited(name) => Member(name)
      case Absent => Text(elements[i]))
  }

  /** A task titled `toString`: its slug `tostring` raises no clash, and the
      corrected coercion turns `--only toString` into its title, one of the
      choices. As written, the coercion turns it into
      `Object.prototype.toString`, which is no choice. The title guard of
      src/tasks.ts:139 as written refuses this title before, so the input
      reaches src/commands.ts:79 only once that guard reads own keys. */
  lemma ToStringCoercedAsWritten(slugify: Slugify)
    requires slugify("toString") == "tostring"
    ensures var entries: seq<Entry> := [("toString", FlatTask(None, None, None))];
      var table := SlugMap(entries, slugify, |entries|);
      var empty: FlatTasks := map[];
      InPlainObject(empty, "toString")
      && !SlugClash(entries, slugify, |entries|)
      && CoerceSlugToTitle(table, ["toString"])[0] in TitleList(entries, |entries|)
      && CoerceAsWritten(table, ["toString"])[0] == Member("toString")
  {
    var entries: seq<Entry> := [("toString", FlatTask(None, None, None))];
    var table := SlugMap(entries, slugify, |entries|);
    SlugMapKeys(entries, slugify, |entries|, "toString");
    assert "toString" !in table;
    assert TitleList(entries, |entries|)[0] == "toString";
  }
}
