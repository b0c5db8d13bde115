/** The JavaScript string operations the core relies on, on `seq<char>`:
    `Array.prototype.join`, `String.prototype.split` with a string separator,
    the replace-all that `text.split(pattern).join(replacement)` performs, and
    substring occurrence. */
module Strings {

  /** `parts.join(sep)`. */
  function Join(parts: seq<string>, sep: string): string
  {
    if |parts| == 0 then ""
    else if |parts| == 1 then parts[0]
    else parts[0] + sep + Join(parts[1..], sep)
  }

  /** `text.split(sep)` for a non-empty separator: the pieces between the
      non-overlapping occurrences of `sep`, found left to right. */
  function SplitOn(text: string, sep: string): (parts: seq<string>)
    requires sep != ""
    ensures |parts| >= 1
    decreases |text|
  {
    if |text| < |sep| then [text]
    else if text[..|sep|] == sep then [""] + SplitOn(text[|sep|..], sep)
    else
      var rest := SplitOn(text[1..], sep);
      [[text[0]] + rest[0]] + rest[1..]
  }

  /** `text.split(sep)`: the empty separator splits into single characters. */
  function Split(text: string, sep: string): seq<string>
  {
    if sep == "" then seq(|text|, i requires 0 <= i < |text| => [text[i]])
    else SplitOn(text, sep)
  }

  /** Every non-overlapping occurrence of `pat`, scanning left to right,
      replaced by `rep`. */
  function ReplaceAll(text: string, pat: string, rep: string): string
    requires pat != ""
    decreases |text|
  {
    if |text| < |pat| then text
    else if text[..|pat|] == pat then rep + ReplaceAll(text[|pat|..], pat, rep)
    else [text[0]] + ReplaceAll(text[1..], pat, rep)
  }

  predicate IsPrefix(s: string, text: string)
  {
    |s| <= |text| && text[..|s|] == s
  }

  /** `text.includes(s)`. */
  predicate Occurs(text: string, s: string)
    decreases |text|
  {
    IsPrefix(s, text) || (|text| > 0 && Occurs(text[1..], s))
  }

  /** `"*".repeat(n)`. */
  function Stars(n: nat): (r: string)
    ensures |r| == n && forall i :: 0 <= i < n ==> r[i] == '*'
  {
    seq(n, _ => '*')
  }

  predicate StarFree(s: string)
  {
    '*' !in s
  }

  // ---------------------------------------------------------------------
  // split followed by join

  lemma {:induction false} JoinSingleCharacters(text: string)
    ensures Join(Split(text, ""), "") == text
    decreases |text|
  {
    var parts := Split(text, "");
    if |text| > 1 {
      JoinSingleCharacters(text[1..]);
      var tail := Split(text[1..], "");
      assert |parts[1..]| == |tail|;
      forall i | 0 <= i < |tail| ensures parts[1..][i] == tail[i] {
        assert text[1..][i] == text[i + 1];
      }
      assert parts[1..] == tail;
      assert parts[0] == [text[0]];
      assert text == [text[0]] + text[1..];
    } else if |text| == 1 {
      assert parts[0] == [text[0]] && text == [text[0]];
    }
  }

  lemma {:induction false} JoinConsHead(a: string, b: string, rest: seq<string>, sep: string)
    ensures Join([a + b] + rest, sep) == a + Join([b] + rest, sep)
  {
    if |rest| > 0 {
      assert ([a + b] + rest)[1..] == rest;
      assert ([b] + rest)[1..] == rest;
    }
  }

  /** Splitting on a non-empty pattern and joining with `rep` is the
      left-to-right replace-all. */
  lemma {:induction false} SplitJoinIsReplaceAll(text: string, pat: string, rep: string)
    requires pat != ""
    ensures Join(SplitOn(text, pat), rep) == ReplaceAll(text, pat, rep)
    decreases |text|
  {
    if |text| < |pat| {
      assert SplitOn(text, pat) == [text];
    } else if text[..|pat|] == pat {
      var rest := SplitOn(text[|pat|..], pat);
      assert SplitOn(text, pat) == [""] + rest;
      SplitJoinIsReplaceAll(text[|pat|..], pat, rep);
      assert ([""] + rest)[1..] == rest;
      assert Join([""] + rest, rep) == "" + rep + Join(rest, rep);
      assert ReplaceAll(text, pat, rep) == rep + ReplaceAll(text[|pat|..], pat, rep);
    } else {
      var rest := SplitOn(text[1..], pat);
      assert SplitOn(text, pat) == [[text[0]] + rest[0]] + rest[1..];
      SplitJoinIsReplaceAll(text[1..], pat, rep);
      JoinConsHead([text[0]], rest[0], rest[1..], rep);
      assert [rest[0]] + rest[1..] == rest;
      assert ReplaceAll(text, pat, rep) == [text[0]] + ReplaceAll(text[1..], pat, rep);
    }
  }

  /** A text without the separator's first character splits into itself. */
  lemma {:induction false} SplitWithoutSeparator(x: string, sep: string)
    requires sep != "" && sep[0] !in x
    ensures SplitOn(x, sep) == [x]
    decreases |x|
  {
    if |x| >= |sep| {
      SplitWithoutSeparator(x[1..], sep);
      assert x == [x[0]] + x[1..];
    }
  }

  /** The first separator after a text free of its first character ends the
      first piece. */
  lemma {:induction false} SplitAtFirstSeparator(x: string, sep: string, rest: string)
    requires sep != "" && sep[0] !in x
    ensures SplitOn(x + sep + rest, sep) == [x] + SplitOn(rest, sep)
    decreases |x|
  {
    var t := x + sep + rest;
    if |x| == 0 {
      assert t == sep + rest;
      assert t[..|sep|] == sep;
      assert t[|sep|..] == rest;
    } else {
      assert t[0] == x[0] != sep[0];
      assert t[..|sep|] != sep;
      assert t[1..] == x[1..] + sep + rest;
      SplitAtFirstSeparator(x[1..], sep, rest);
      assert x == [x[0]] + x[1..];
    }
  }

  /** Joining pieces that never contain the separator's first character and
      splitting again gives the pieces back. */
  lemma {:induction false} SplitJoinRoundTrip(parts: seq<string>, sep: string)
    requires sep != "" && |parts| >= 1
    requires forall i :: 0 <= i < |parts| ==> sep[0] !in parts[i]
    ensures SplitOn(Join(parts, sep), sep) == parts
  {
    if |parts| == 1 {
      SplitWithoutSeparator(parts[0], sep);
    } else {
      SplitJoinRoundTrip(parts[1..], sep);
      SplitAtFirstSeparator(parts[0], sep, Join(parts[1..], sep));
      assert [parts[0]] + parts[1..] == parts;
    }
  }

  // ---------------------------------------------------------------------
  // occurrence through a replace-all by asterisks

  lemma {:induction false} OccursFits(text: string, s: string)
    requires Occurs(text, s)
    ensures |s| <= |text|
    decreases |text|
  {
    if !IsPrefix(s, text) {
      OccursFits(text[1..], s);
    }
  }

  lemma {:induction false} OccursInSuffix(text: string, j: nat, s: string)
    requires j <= |text| && Occurs(text[j..], s)
    ensures Occurs(text, s)
    decreases j
  {
    if j > 0 {
      assert text[1..][j - 1..] == text[j..];
      OccursInSuffix(text[1..], j - 1, s);
    }
  }

  lemma {:induction false} OccursPastStars(n: nat, x: string, s: string)
    requires s != "" && StarFree(s)
    requires Occurs(Stars(n) + x, s)
    ensures Occurs(x, s)
    decreases n
  {
    var t := Stars(n) + x;
    if n == 0 {
      assert t == x;
    } else {
      assert t[0] == '*' && s[0] in s;
      assert !IsPrefix(s, t);
      assert t[1..] == Stars(n - 1) + x;
      OccursPastStars(n - 1, x, s);
    }
  }

  lemma ReplacedHead(text: string, pat: string, n: nat)
    requires pat != "" && n >= 1 && |text| >= |pat|
    ensures |ReplaceAll(text, pat, Stars(n))| > 0
    ensures ReplaceAll(text, pat, Stars(n))[0] == if text[..|pat|] == pat then '*' else text[0]
  {
  }

  /** A prefix without asterisks of the replaced text is a prefix of the
      original text. */
  lemma {:induction false} StarFreePrefixSurvives(text: string, pat: string, n: nat, u: string)
    requires pat != "" && n >= 1 && StarFree(u)
    requires IsPrefix(u, ReplaceAll(text, pat, Stars(n)))
    ensures IsPrefix(u, text)
    decreases |text|
  {
    var r := ReplaceAll(text, pat, Stars(n));
    if |text| >= |pat| && u != "" {
      ReplacedHead(text, pat, n);
      assert u[0] == r[0] && u[0] in u;
      assert text[..|pat|] != pat;
      assert r == [text[0]] + ReplaceAll(text[1..], pat, Stars(n));
      assert u[1..] == r[1..][..|u| - 1];
      StarFreePrefixSurvives(text[1..], pat, n, u[1..]);
      assert u == [u[0]] + u[1..];
    }
  }

  /** Masking one pattern by asterisks creates no occurrence of a string that
      has no asterisk. */
  lemma {:induction false} ReplaceCreatesNoOccurrence(text: string, pat: string, n: nat, s: string)
    requires pat != "" && n >= 1 && s != "" && StarFree(s)
    requires Occurs(ReplaceAll(text, pat, Stars(n)), s)
    ensures Occurs(text, s)
    decreases |text|
  {
    var r := ReplaceAll(text, pat, Stars(n));
    if |text| < |pat| {
    } else if text[..|pat|] == pat {
      OccursPastStars(n, ReplaceAll(text[|pat|..], pat, Stars(n)), s);
      ReplaceCreatesNoOccurrence(text[|pat|..], pat, n, s);
      OccursInSuffix(text, |pat|, s);
    } else if IsPrefix(s, r) {
      StarFreePrefixSurvives(text, pat, n, s);
    } else {
      assert r[1..] == ReplaceAll(text[1..], pat, Stars(n));
      ReplaceCreatesNoOccurrence(text[1..], pat, n, s);
    }
  }

  /** Masking a pattern that has no asterisk removes every occurrence of it. */
  lemma {:induction false} ReplaceRemovesPattern(text: string, pat: string, n: nat)
    requires pat != "" && n >= 1 && StarFree(pat)
    ensures !Occurs(ReplaceAll(text, pat, Stars(n)), pat)
    decreases |text|
  {
    var r := ReplaceAll(text, pat, Stars(n));
    if |text| < |pat| {
      if Occurs(r, pat) { OccursFits(r, pat); }
    } else if text[..|pat|] == pat {
      ReplaceRemovesPattern(text[|pat|..], pat, n);
      if Occurs(r, pat) {
        OccursPastStars(n, ReplaceAll(text[|pat|..], pat, Stars(n)), pat);
      }
    } else {
      ReplaceRemovesPattern(text[1..], pat, n);
      assert r[1..] == ReplaceAll(text[1..], pat, Stars(n));
      if IsPrefix(pat, r) {
        StarFreePrefixSurvives(text, pat, n, pat);
      }
    }
  }

  lemma {:induction false} ReplaceAbsentIsIdentity(text: string, pat: string, rep: string)
    requires pat != "" && !Occurs(text, pat)
    ensures ReplaceAll(text, pat, rep) == text
    decreases |text|
  {
    if |text| >= |pat| {
      assert text[..|pat|] != pat;
      ReplaceAbsentIsIdentity(text[1..], pat, rep);
      assert text == [text[0]] + text[1..];
    }
  }
}
