/** The run context of src/context.ts: a record of named values that mixes
    the scheduler's internal fields (filters, dry-run flag, secrets, yargs'
    positional artefacts) with the user's own fields; the holder that owns
    one mutable snapshot of it; and the redaction of secrets. */
module Context {
  import opened Wrappers
  import opened Strings

  /** A JavaScript value stored in the context. Numbers appear only as
      opaque payloads here, so an integer stands for them; `Other` stands for
      any object or function, identified abstractly. */
  datatype Value =
    | Undefined
    | Bool(b: bool)
    | Num(n: int)
    | Str(s: string)
    | Strs(items: seq<string>)
    | Other(id: nat)

  /** JavaScript truthiness of a value (arrays and objects are truthy). */
  predicate Truthy(v: Value)
  {
    match v
    case Undefined => false
    case Bool(b) => b
    case Num(n) => n != 0
    case Str(s) => s != ""
    case Strs(_) => true
    case Other(_) => true
  }

  type Fields = map<string, Value>

  /** The keys `getUserContext` destructures away. */
  const InternalKeys: set<string> :=
    {"$0", "_", "dry-run", "dryRun", "from", "only", "secrets", "skip", "tag", "until"}

  /** The keys `add` may never change: the internal ones and `debug`. */
  const ProtectedKeys: set<string> := InternalKeys + {"debug"}

  /** `getUserContext`: the context without its internal fields. */
  function GetUserContext(context: Fields): (user: Fields)
    ensures user.Keys == context.Keys - InternalKeys
    ensures forall k :: k in user ==> user[k] == context[k]
  {
    context - InternalKeys
  }

  /** The snapshot `add` produces: the added fields, stripped of the internal
      ones and of `debug`, written over the current ones. */
  function Merge(current: Fields, added: Fields): (merged: Fields)
    ensures merged.Keys == current.Keys + (added.Keys - ProtectedKeys)
    ensures forall k :: k in added && k !in ProtectedKeys ==> merged[k] == added[k]
    ensures forall k :: k in current && (k !in added || k in ProtectedKeys) ==> merged[k] == current[k]
  {
    current + (GetUserContext(added) - {"debug"})
  }

  /** `initialContext.secrets || []` for a context whose `secrets` field, when
      present, is an array of strings. */
  function InitialSecrets(initial: Fields): seq<string>
  {
    if "secrets" in initial && initial["secrets"].Strs? then initial["secrets"].items else []
  }

  /** `createContextHolder`: the closure over `let context` becomes an object
      whose fields hold the snapshot; `secrets` is kept apart from the other
      fields so that the snapshot always carries it as an array. */
  class ContextHolder {
    var fields: Fields
    var secrets: seq<string>

    ghost predicate Valid()
      reads this
    {
      "secrets" !in fields
    }

    /** `get()`: the current snapshot, `secrets` included. */
    function Get(): (snapshot: Fields)
      reads this
      requires Valid()
      ensures snapshot.Keys == fields.Keys + {"secrets"}
      ensures snapshot["secrets"] == Strs(secrets)
      ensures forall k :: k in fields ==> snapshot[k] == fields[k]
    {
      fields["secrets" := Strs(secrets)]
    }

    constructor (initial: Fields)
      ensures Valid()
      ensures fields == initial - {"secrets"} && secrets == InitialSecrets(initial)
    {
      fields := initial - {"secrets"};
      secrets := InitialSecrets(initial);
    }

    /** `add(addedContext)`. */
    method Add(added: Fields)
      requires Valid()
      modifies this
      ensures Valid()
      ensures fields == Merge(old(fields), added) && secrets == old(secrets)
    {
      fields := Merge(fields, added);
    }

    /** `addSecret(secret)`: appended at the end, nothing else changes. */
    method AddSecret(secret: string)
      requires Valid()
      modifies this
      ensures Valid()
      ensures secrets == old(secrets) + [secret] && fields == old(fields)
    {
      secrets := secrets + [secret];
    }

    /** `copy()`: a new holder seeded from the current snapshot. */
    method Copy() returns (copy: ContextHolder)
      requires Valid()
      ensures fresh(copy) && copy.Valid()
      ensures copy.Get() == Get()
    {
      copy := new ContextHolder(Get());
      assert Get() - {"secrets"} == fields;
    }
  }

  /** Whether a snapshot asks for a dry run (`context.dryRun` truthy). */
  predicate IsDryRun(snapshot: Fields)
  {
    "dryRun" in snapshot && Truthy(snapshot["dryRun"])
  }

  /** Whether a snapshot asks for debugging (`context.debug` truthy). */
  predicate IsDebug(snapshot: Fields)
  {
    "debug" in snapshot && Truthy(snapshot["debug"])
  }

  /** The context side of a parent task's body (src/tasks.ts:471-472,
      488-572 and 574-601). The parent copies its holder. When it declares
      `addContext` and the run is not dry, the secrets `addContext` reports
      are registered one by one, then the context it returns is merged.
      When it declares `background` and the run is not dry, the groups
      captured from the started process's output are merged after that (in
      a dry run the command is only shown, so nothing is captured).
      `addContext` is given by its outcome, the secrets then the returned
      fields, and `background` by the captured groups. The holder the
      parent was given is left as it was. */
  method ParentContext(
    holder: ContextHolder, addContext: Option<(seq<string>, Fields)>, background: Option<Fields>)
    returns (own: ContextHolder)
    requires holder.Valid()
    ensures fresh(own) && own.Valid() && holder.Valid()
    ensures holder.Get() == old(holder.Get())
    ensures (addContext.None? && background.None?) || IsDryRun(holder.Get()) ==>
      own.Get() == holder.Get()
    ensures !IsDryRun(holder.Get()) ==>
      var withAdded := if addContext.Some? then Merge(holder.fields, addContext.value.1) else holder.fields;
      own.fields == (if background.Some? then Merge(withAdded, background.value) else withAdded)
    ensures !IsDryRun(holder.Get()) ==>
      own.secrets == holder.secrets + (if addContext.Some? then addContext.value.0 else [])
  {
    own := holder.Copy();
    var dryRun := IsDryRun(own.Get());
    if addContext.Some? && !dryRun {
      var (addedSecrets, added) := addContext.value;
      for i := 0 to |addedSecrets|
        invariant own.Valid() && fresh(own)
        invariant own.fields == holder.fields
        invariant own.secrets == holder.secrets + addedSecrets[..i]
      {
        own.AddSecret(addedSecrets[i]);
      }
      assert addedSecrets[..|addedSecrets|] == addedSecrets;
      own.Add(added);
    }
    if background.Some? && !dryRun {
      own.Add(background.value);
    }
  }

  /** After `copy`, what is done to either holder is invisible to the other:
      the copy starts equal to the original, then each side adds its own
      fields and secret. */
  method CopiesAreIndependent(
    original: ContextHolder,
    toCopy: Fields, copySecret: string,
    toOriginal: Fields, originalSecret: string)
    returns (copy: ContextHolder)
    requires original.Valid()
    modifies original
    ensures fresh(copy) && copy.Valid() && original.Valid()
    ensures original.fields == Merge(old(original.fields), toOriginal)
    ensures original.secrets == old(original.secrets) + [originalSecret]
    ensures copy.fields == Merge(old(original.fields), toCopy)
    ensures copy.secrets == old(original.secrets) + [copySecret]
  {
    copy := original.Copy();
    assert copy.fields == original.fields && copy.secrets == original.secrets;
    copy.Add(toCopy);
    copy.AddSecret(copySecret);
    original.Add(toOriginal);
    original.AddSecret(originalSecret);
  }

  // -----------------------------------------------------------------------
  // hideSecrets

  /** `"*".repeat(Math.min(20, secret.length))`. */
  function Mask(secret: string): (mask: string)
    ensures |mask| == if |secret| < 20 then |secret| else 20
    ensures forall i :: 0 <= i < |mask| ==> mask[i] == '*'
  {
    Stars(if |secret| < 20 then |secret| else 20)
  }

  /** One step of the loop: `text.split(secret).join(mask)`. */
  function HideSecret(text: string, secret: string): string
  {
    Join(Split(text, secret), Mask(secret))
  }

  /** The text after the loop has masked each secret in list order. */
  function Redacted(secrets: seq<string>, text: string): string
  {
    if secrets == [] then text else Redacted(secrets[1..], HideSecret(text, secrets[0]))
  }

  /** `hideSecrets`. */
  method HideSecrets(secrets: seq<string>, text: string) returns (safeText: string)
    ensures safeText == Redacted(secrets, text)
  {
    safeText := text;
    for i := 0 to |secrets|
      invariant Redacted(secrets[i..], safeText) == Redacted(secrets, text)
    {
      assert secrets[i..][1..] == secrets[i + 1..];
      safeText := HideSecret(safeText, secrets[i]);
    }
  }

  /** An empty secret leaves the text unchanged. */
  lemma EmptySecretIsNoOp(text: string)
    ensures HideSecret(text, "") == text
  {
    JoinSingleCharacters(text);
  }

  /** A non-empty secret is replaced, left to right and without overlap. */
  lemma HideSecretReplacesAll(text: string, secret: string)
    requires secret != ""
    ensures HideSecret(text, secret) == ReplaceAll(text, secret, Mask(secret))
  {
    SplitJoinIsReplaceAll(text, secret, Mask(secret));
  }

  /** Masking never brings back a non-empty string without asterisks. */
  lemma {:induction false} RedactionKeepsAbsent(secrets: seq<string>, text: string, s: string)
    requires s != "" && StarFree(s) && !Occurs(text, s)
    ensures !Occurs(Redacted(secrets, text), s)
  {
    if secrets != [] {
      var next := HideSecret(text, secrets[0]);
      if secrets[0] == "" {
        EmptySecretIsNoOp(text);
      } else {
        HideSecretReplacesAll(text, secrets[0]);
        if Occurs(next, s) {
          ReplaceCreatesNoOccurrence(text, secrets[0], |Mask(secrets[0])|, s);
        }
      }
      RedactionKeepsAbsent(secrets[1..], next, s);
    }
  }

  /** No secret that is non-empty and has no asterisk survives redaction. */
  lemma {:induction false} RedactedHidesSecrets(secrets: seq<string>, text: string, i: nat)
    requires i < |secrets| && secrets[i] != "" && StarFree(secrets[i])
    ensures !Occurs(Redacted(secrets, text), secrets[i])
  {
    var next := HideSecret(text, secrets[0]);
    if i == 0 {
      HideSecretReplacesAll(text, secrets[0]);
      ReplaceRemovesPattern(text, secrets[0], |Mask(secrets[0])|);
      RedactionKeepsAbsent(secrets[1..], next, secrets[0]);
    } else {
      RedactedHidesSecrets(secrets[1..], next, i - 1);
    }
  }

  /** A secret containing an asterisk can survive: masking `y` in `xy`
      produces the earlier secret `x*`. */
  lemma StarredSecretCanSurvive()
    ensures Redacted(["x*", "y"], "xy") == "x*"
    ensures Occurs(Redacted(["x*", "y"], "xy"), "x*")
  {
    var xy: string := "xy";
    assert xy[1..] == "y" && [xy[0]] == "x";
    assert xy[..2][1] == 'y' && "x*"[1] == '*';
    assert xy[..2] != "x*";
    assert SplitOn("y", "x*") == ["y"];
    assert SplitOn(xy, "x*") == [[xy[0]] + "y"] + [];
    assert [xy[0]] + "y" == xy;
    assert SplitOn("xy", "x*") == ["xy"];
    assert HideSecret("xy", "x*") == "xy";
    var y: string := "y";
    assert y[..1] == "y" && y[1..] == "";
    assert SplitOn("", "y") == [""];
    assert SplitOn(y, "y") == [""] + SplitOn("", "y");
    assert SplitOn("y", "y") == ["", ""];
    assert xy[..1][0] == 'x' && "y"[0] == 'y';
    assert xy[..1] != "y";
    assert SplitOn(xy, "y") == [[xy[0]] + ""] + [""];
    assert [xy[0]] + "" == "x";
    assert SplitOn("xy", "y") == ["x", ""];
    assert Mask("y") == "*";
    assert HideSecret("xy", "y") == "x*";
    assert ["x*", "y"][1..] == ["y"];
    assert Redacted(["y"], "xy") == Redacted([], "x*");
    assert IsPrefix("x*", "x*");
  }
}
