/**
 * How a registered pattern is stored and how it is turned into the anchored
 * expression handed to the regular-expression engine
 * (`Router::prepareRoute` and `Router::patternMatches`).
 */
module Patterns {
  import opened Wrappers
  import opened PhpStrings

  /** The stored form of a pattern: one leading slash and the pattern without its outer slashes. */
  function NormalizePattern(p: string): (r: string)
    ensures |r| > 0 && r[0] == '/'
    ensures |r| > 1 ==> r[1] != '/' && r[|r| - 1] != '/'
  {
    TrimSlashFree(p);
    "/" + TrimSlashes(p)
  }

  /** Normalising a stored pattern again changes nothing. */
  lemma NormalizeIdempotent(p: string)
    ensures NormalizePattern(NormalizePattern(p)) == NormalizePattern(p)
  {
    var t := TrimSlashes(p);
    TrimSlashFree(p);
    assert "/" + t + [] == NormalizePattern(p);
    TrimUnique("/", t, []);
  }

  /**
   * A pattern is left as it is exactly when it is already in stored form:
   * the root `/`, or a slash followed by text that does not start or end
   * with a slash.
   */
  lemma NormalizeFixpointIff(p: string)
    ensures NormalizePattern(p) == p <==> |p| > 0 && p[0] == '/' && SlashFreeEnds(p[1..])
  {
    TrimSlashFree(p);
    if |p| > 0 && p[0] == '/' && SlashFreeEnds(p[1..]) {
      assert "/" + p[1..] + [] == p;
      TrimUnique("/", p[1..], []);
    }
  }

  /** Extra slashes around a pattern never change its stored form. */
  lemma NormalizeIgnoresOuterSlashes(a: string, p: string, b: string)
    requires AllSlashes(a) && AllSlashes(b)
    ensures NormalizePattern(a + p + b) == NormalizePattern(p)
  {
    var i, j := TrimSplits(p);
    TrimSlashFree(p);
    var t, x, y := p[i..j], a + p[..i], p[j..] + b;
    RegroupAround(a, p, b, i, j);
    SlashesConcat(a, p[..i]);
    SlashesConcat(p[j..], b);
    TrimUnique(x, t, y);
  }

  lemma RegroupAround(a: string, p: string, b: string, i: nat, j: nat)
    requires i <= j <= |p|
    ensures a + p + b == (a + p[..i]) + p[i..j] + (p[j..] + b)
  {
    assert p[..j] == p[..i] + p[i..j];
    assert p == p[..j] + p[j..];
  }

  lemma SlashesConcat(x: string, y: string)
    requires AllSlashes(x) && AllSlashes(y)
    ensures AllSlashes(x + y)
  {
  }

  /** The five fixed placeholders, in the order they are substituted. */
  const FixedTokens: seq<string> :=
    ["{_NUMBERS_UNSIGNED_}", "{_NUMBERS_}", "{_LETTERS_}", "{_INT_}", "{_INT_UNSIGNED_}"]

  /** The capturing fragment each fixed placeholder stands for. */
  const FixedFragments: seq<string> :=
    ["([0-9]+)", "(\\-?[0-9]+)", "(\\p{L}+)", "(0|\\-?[1-9][0-9]{0,})", "(0|[1-9][0-9]{0,})"]

  /** The generic group every remaining `/{...}` placeholder becomes. */
  const GenericGroup: string := "/(.*?)"

  /**
   * The index of the first `}` at or after `k`, provided no newline comes
   * before it (the lazy `.*?` of `#\/{(.*?)}#` does not cross a newline).
   */
  function CloseBrace(s: string, k: nat): (r: Option<nat>)
    requires k <= |s|
    ensures r.Some? ==> k <= r.value < |s| && s[r.value] == '}'
    ensures r.Some? ==> forall i :: k <= i < r.value ==> s[i] != '}' && s[i] != '\n'
    ensures r.None? ==> forall j :: k <= j < |s| && s[j] == '}' ==> exists i :: k <= i < j && s[i] == '\n'
    decreases |s| - k
  {
    if k == |s| then None
    else if s[k] == '}' then Some(k)
    else if s[k] == '\n' then None
    else CloseBrace(s, k + 1)
  }

  /** The nearest `}` on the same line is the one `CloseBrace` finds. */
  lemma {:induction false} CloseBraceAt(s: string, k: nat, j: nat)
    requires k <= j < |s| && s[j] == '}'
    requires forall i :: k <= i < j ==> s[i] != '}' && s[i] != '\n'
    ensures CloseBrace(s, k) == Some(j)
    decreases j - k
  {
    if k < j {
      CloseBraceAt(s, k + 1, j);
    }
  }

  /**
   * `preg_replace('#\/{(.*?)}#', '/(.*?)', $s)`: scanning left to right,
   * each `/{` that is closed by a `}` on the same line is replaced, up to
   * and including the nearest such `}`, by the generic group.
   */
  function GenericGroups(s: string): (r: string)
    decreases |s|
  {
    if |s| < 2 then s
    else if s[0] == '/' && s[1] == '{' then
      match CloseBrace(s, 2)
      case Some(j) => GenericGroup + GenericGroups(s[j + 1..])
      case None => [s[0]] + GenericGroups(s[1..])
    else [s[0]] + GenericGroups(s[1..])
  }

  /** `s` has no opening brace. */
  predicate BraceFree(s: string) {
    forall i :: 0 <= i < |s| ==> s[i] != '{'
  }

  /** Text without an opening brace passes the generic rewrite unchanged. */
  lemma {:induction false} GenericGroupsBraceFree(s: string)
    requires BraceFree(s)
    ensures GenericGroups(s) == s
    decreases |s|
  {
    if |s| >= 2 {
      GenericGroupsBraceFree(s[1..]);
      assert s == [s[0]] + s[1..];
    }
  }

  /**
   * Brace-free text followed by one `/{name}` placeholder: the text is kept,
   * the placeholder becomes the generic group, whatever characters its name
   * holds (other than `}` and a newline), and the rest is rewritten in turn.
   */
  lemma {:induction false} GenericGroupsPlaceholder(a: string, name: string, b: string)
    requires BraceFree(a)
    requires forall i :: 0 <= i < |name| ==> name[i] != '}' && name[i] != '\n'
    ensures GenericGroups(a + "/{" + name + "}" + b) == a + GenericGroup + GenericGroups(b)
    decreases |a|
  {
    var s := a + "/{" + name + "}" + b;
    if a == [] {
      assert s == "/{" + name + "}" + b;
      GenericGroupsHead(name, b);
    } else {
      var t := a[1..] + "/{" + name + "}" + b;
      assert s[1..] == t;
      GenericGroupsPlaceholder(a[1..], name, b);
      assert s[1] == (if |a| == 1 then '/' else a[1]);
      assert s[1] != '{';
      assert GenericGroups(s) == [s[0]] + GenericGroups(t);
      assert [a[0]] + (a[1..] + GenericGroup + GenericGroups(b)) == a + GenericGroup + GenericGroups(b) by {
        assert a == [a[0]] + a[1..];
      }
    }
  }

  /** A leading `/{name}` placeholder becomes the generic group. */
  lemma GenericGroupsHead(name: string, b: string)
    requires forall i :: 0 <= i < |name| ==> name[i] != '}' && name[i] != '\n'
    ensures GenericGroups("/{" + name + "}" + b) == GenericGroup + GenericGroups(b)
  {
    var s := "/{" + name + "}" + b;
    assert s[0] == '/' && s[1] == '{';
    assert s[2 + |name|] == '}';
    forall i | 2 <= i < 2 + |name| ensures s[i] != '}' && s[i] != '\n' {
      assert s[i] == name[i - 2];
    }
    CloseBraceAt(s, 2, 2 + |name|);
    assert s[2 + |name| + 1..] == b;
  }

  /** The expression `patternMatches` matches the path against (delimiters and the `u` flag aside). */
  function Compile(p: string): (r: string)
    ensures |r| >= 2 && r[0] == '^' && r[|r| - 1] == '$'
  {
    "^" + GenericGroups(ReplaceEach(p, FixedTokens, FixedFragments)) + "$"
  }

  /** A pattern without placeholders is matched literally, anchored at both ends. */
  lemma CompileBraceFree(p: string)
    requires BraceFree(p)
    ensures Compile(p) == "^" + p + "$"
  {
    forall k, i | 0 <= k < |FixedTokens| && 0 <= i < |p| ensures p[i] != FixedTokens[k][0] {
      assert FixedTokens[k][0] == '{';
    }
    ReplaceEachAbsent(p, FixedTokens, FixedFragments);
    GenericGroupsBraceFree(p);
  }
  /** No `/` in `s` is directly followed by `{`, so the generic rewrite has nothing to do. */
  predicate NoSlashBrace(s: string) {
    forall i :: 0 <= i < |s| - 1 && s[i] == '/' ==> s[i + 1] != '{'
  }

  lemma {:induction false} GenericGroupsNoSlashBrace(s: string)
    requires NoSlashBrace(s)
    ensures GenericGroups(s) == s
    decreases |s|
  {
    if |s| >= 2 {
      assert NoSlashBrace(s[1..]) by {
        forall i | 0 <= i < |s[1..]| - 1 && s[1..][i] == '/' ensures s[1..][i + 1] != '{' {
          assert s[1..][i] == s[i + 1] && s[1..][i + 1] == s[i + 2];
        }
      }
      GenericGroupsNoSlashBrace(s[1..]);
      assert s == [s[0]] + s[1..];
    }
  }

  /** Every `{` in `s` is followed by something other than `_`, so no fixed placeholder starts in `s`. */
  predicate NoFixedStart(s: string) {
    forall i :: 0 <= i < |s| - 1 && s[i] == '{' ==> s[i + 1] != '_'
  }

  /** A placeholder token: `{`, one or more characters that are not braces, `}`. */
  predicate BraceToken(t: string) {
    |t| >= 3 && t[0] == '{' && t[|t| - 1] == '}'
    && forall i :: 0 < i < |t| - 1 ==> t[i] != '{' && t[i] != '}'
  }

  /** A fixed placeholder: a token whose text starts with `_`. */
  predicate WellFormedToken(t: string) {
    BraceToken(t) && t[1] == '_'
  }

  /** The fixed placeholders are five distinct well-formed tokens, one per fragment. */
  lemma FixedTokensWellFormed()
    ensures |FixedTokens| == |FixedFragments| == 5
    ensures forall k :: 0 <= k < 5 ==> WellFormedToken(FixedTokens[k])
    ensures forall j, k :: 0 <= j < k < 5 ==> FixedTokens[j] != FixedTokens[k]
  {
    assert FixedTokens[0][10] != FixedTokens[1][10];
    assert FixedTokens[0][2] != FixedTokens[2][2];
    assert FixedTokens[0][2] != FixedTokens[3][2];
    assert FixedTokens[0][2] != FixedTokens[4][2];
    assert FixedTokens[1][2] != FixedTokens[2][2];
    assert FixedTokens[1][2] != FixedTokens[3][2];
    assert FixedTokens[1][2] != FixedTokens[4][2];
    assert FixedTokens[2][2] != FixedTokens[3][2];
    assert FixedTokens[2][2] != FixedTokens[4][2];
    assert |FixedTokens[3]| != |FixedTokens[4]|;
  }

  /**
   * Every fragment is a parenthesised group in which no fixed placeholder
   * and no `/{` can start, so substituting it creates no new placeholder.
   */
  lemma FixedFragmentsClean()
    ensures |FixedFragments| == 5
    ensures forall k :: 0 <= k < 5 ==> FixedFragments[k] != [] && FixedFragments[k][0] == '('
    ensures forall k :: 0 <= k < 5 ==> FixedFragments[k][|FixedFragments[k]| - 1] == ')'
    ensures forall k :: 0 <= k < 5 ==> NoFixedStart(FixedFragments[k]) && NoSlashBrace(FixedFragments[k])
  {
    forall k | 0 <= k < 5
      ensures FixedFragments[k] != [] && FixedFragments[k][0] == '('
      ensures FixedFragments[k][|FixedFragments[k]| - 1] == ')'
      ensures NoFixedStart(FixedFragments[k]) && NoSlashBrace(FixedFragments[k])
    {
      FragmentClean(k);
    }
  }

  lemma FragmentClean(k: nat)
    requires k < 5
    ensures FixedFragments[k] != [] && FixedFragments[k][0] == '('
    ensures FixedFragments[k][|FixedFragments[k]| - 1] == ')'
    ensures NoFixedStart(FixedFragments[k]) && NoSlashBrace(FixedFragments[k])
  {
    var f := FixedFragments[k];
    assert f[0] == '(' && f[|f| - 1] == ')';
    NoMarksClean(f);
  }

  /** Text without `_` and `/` can start neither a fixed placeholder nor a `/{`. */
  lemma NoMarksClean(f: string)
    requires forall i :: 0 <= i < |f| ==> f[i] != '_' && f[i] != '/'
    ensures NoFixedStart(f) && NoSlashBrace(f)
  {
  }

  /** A token cannot start with a different one: they differ before either closes. */
  lemma TokenNotPrefix(tj: string, tk: string, b: string)
    requires BraceToken(tj) && BraceToken(tk) && tj != tk
    requires |tj| <= |tk + b|
    ensures (tk + b)[..|tj|] != tj
  {
    if |tj| < |tk| {
      assert (tk + b)[..|tj|][|tj| - 1] == tk[|tj| - 1] != '}';
    } else if |tj| > |tk| {
      assert (tk + b)[..|tj|][|tk| - 1] == '}' != tj[|tk| - 1];
    } else {
      assert (tk + b)[..|tj|] == tk;
    }
  }

  /** A text starting with `{` does not occur where the text has no `{`. */
  lemma BraceStartAbsentAt(s: string, t: string, i: nat)
    requires |t| > 0 && t[0] == '{' && i + |t| <= |s| && s[i] != '{'
    ensures !OccursAt(s, t, i)
  {
    assert s[i..i + |t|][0] == s[i];
  }

  /** A token occurs only where it is written: not inside a different one. */
  lemma OtherTokenAbsent(a: string, tk: string, b: string, tj: string)
    requires BraceFree(a) && BraceFree(b)
    requires BraceToken(tj) && BraceToken(tk) && tj != tk
    ensures !Contains(a + tk + b, tj)
  {
    var s := a + tk + b;
    var n := |a| + |tk|;
    forall i | 0 <= i < |a| && i + |tj| <= |s| ensures !OccursAt(s, tj, i) {
      assert s[i] == a[i];
      BraceStartAbsentAt(s, tj, i);
    }
    if |a| + |tj| <= |s| {
      assert s[|a|..|a| + |tj|] == (tk + b)[..|tj|];
      TokenNotPrefix(tj, tk, b);
    }
    forall i | |a| < i < n && i + |tj| <= |s| ensures !OccursAt(s, tj, i) {
      assert s[i] == tk[i - |a|];
      BraceStartAbsentAt(s, tj, i);
    }
    forall i | n <= i && i + |tj| <= |s| ensures !OccursAt(s, tj, i) {
      assert s[i] == b[i - n];
      BraceStartAbsentAt(s, tj, i);
    }
  }

  /** Text in which no fixed placeholder can start contains none of them. */
  lemma NoFixedStartAbsent(s: string, t: string)
    requires NoFixedStart(s) && WellFormedToken(t)
    ensures !Contains(s, t)
  {
    forall i | 0 <= i && i + |t| <= |s| ensures !OccursAt(s, t, i) {
      assert s[i..i + |t|][0] == s[i] && s[i..i + |t|][1] == s[i + 1];
    }
  }

  /** `str_replace` with arrays when exactly one search string, the `k`-th, ever occurs. */
  lemma {:induction false} ReplaceEachOneHit(x: string, y: string, searches: seq<string>, reps: seq<string>, k: nat)
    requires |searches| == |reps| && k < |searches|
    requires forall j :: 0 <= j < k ==> !Contains(x, searches[j])
    requires ReplaceAll(x, searches[k], reps[k]) == y
    requires forall j :: k < j < |searches| ==> !Contains(y, searches[j])
    ensures ReplaceEach(x, searches, reps) == y
    decreases k
  {
    if k == 0 {
      forall j | 0 <= j < |searches[1..]| ensures !Contains(y, searches[1..][j]) {
        assert searches[1..][j] == searches[j + 1];
      }
      ReplaceEachAbsentAll(y, searches[1..], reps[1..]);
    } else {
      ReplaceAllAbsent(x, searches[0], reps[0]);
      ReplaceEachOneHit(x, y, searches[1..], reps[1..], k - 1);
    }
  }

  /** `str_replace` with arrays when none of the search strings occurs. */
  lemma {:induction false} ReplaceEachAbsentAll(s: string, searches: seq<string>, reps: seq<string>)
    requires |searches| == |reps|
    requires forall j :: 0 <= j < |searches| ==> !Contains(s, searches[j])
    ensures ReplaceEach(s, searches, reps) == s
    decreases |searches|
  {
    if searches != [] {
      ReplaceAllAbsent(s, searches[0], reps[0]);
      ReplaceEachAbsentAll(s, searches[1..], reps[1..]);
    }
  }

  lemma ConcatNoFixedStart(a: string, f: string, b: string)
    requires BraceFree(a) && NoFixedStart(f) && NoFixedStart(b)
    requires f != [] && f[|f| - 1] != '{'
    ensures NoFixedStart(a + f + b)
  {
    var s := a + f + b;
    forall i | 0 <= i < |s| - 1 ensures s[i] == '{' ==> s[i + 1] != '_' {
      if i < |a| {
        assert s[i] == a[i];
      } else if i < |a| + |f| - 1 {
        assert s[i] == f[i - |a|] && s[i + 1] == f[i - |a| + 1];
      } else if i == |a| + |f| - 1 {
        assert s[i] == f[|f| - 1];
      } else {
        assert s[i] == b[i - |a| - |f|] && s[i + 1] == b[i + 1 - |a| - |f|];
      }
    }
  }

  lemma ConcatNoSlashBrace(a: string, f: string, b: string)
    requires BraceFree(a) && BraceFree(b) && NoSlashBrace(f)
    requires f != [] && f[0] != '{'
    ensures NoSlashBrace(a + f + b)
  {
    var s := a + f + b;
    forall i | 0 <= i < |s| - 1 ensures s[i] == '/' ==> s[i + 1] != '{' {
      if i < |a| - 1 {
        assert s[i + 1] == a[i + 1];
      } else if i == |a| - 1 {
        assert s[i + 1] == f[0];
      } else if i < |a| + |f| - 1 {
        assert s[i] == f[i - |a|] && s[i + 1] == f[i - |a| + 1];
      } else {
        assert s[i + 1] == b[i + 1 - |a| - |f|];
      }
    }
  }

  /**
   * One fixed placeholder in otherwise placeholder-free text becomes its
   * own fragment, and the longer `{_INT_UNSIGNED_}` is never taken for
   * `{_INT_}`.
   */
  lemma CompileFixedToken(a: string, k: nat, b: string)
    requires BraceFree(a) && BraceFree(b) && k < |FixedTokens|
    ensures Compile(a + FixedTokens[k] + b) == "^" + (a + FixedFragments[k] + b) + "$"
  {
    FixedFragmentsClean();
    var y := a + FixedFragments[k] + b;
    ReplaceFixedToken(a, k, b);
    ConcatNoSlashBrace(a, FixedFragments[k], b);
    GenericGroupsNoSlashBrace(y);
    CompileVia(a + FixedTokens[k] + b, y);
  }

  /** `Compile` is the generic rewrite of the fixed substitution, anchored. */
  lemma CompileVia(p: string, y: string)
    requires ReplaceEach(p, FixedTokens, FixedFragments) == y
    ensures Compile(p) == "^" + GenericGroups(y) + "$"
  {
  }

  /** The one occurrence of a placeholder between brace-free texts is replaced. */
  lemma ReplaceSingleHit(a: string, t: string, f: string, b: string)
    requires BraceFree(a) && BraceFree(b) && |t| > 0 && t[0] == '{'
    ensures ReplaceAll(a + t + b, t, f) == a + f + b
  {
    FirstCharAbsent(b, t);
    ReplaceHitBefore(a, t, f, b);
  }

  /** A placeholder after brace-free text is replaced there, and the text behind it has no further occurrence. */
  lemma ReplaceHitBefore(a: string, t: string, f: string, b: string)
    requires BraceFree(a) && |t| > 0 && t[0] == '{' && !Contains(b, t)
    ensures ReplaceAll(a + t + b, t, f) == a + f + b
  {
    assert a + t + b == a + (t + b);
    ReplaceAllSkip(a, t + b, t, f);
    assert (t + b)[..|t|] == t && (t + b)[|t|..] == b;
    ReplaceAllAbsent(b, t, f);
    assert a + (f + b) == a + f + b;
  }

  lemma ReplaceFixedToken(a: string, k: nat, b: string)
    requires BraceFree(a) && BraceFree(b) && k < |FixedTokens|
    ensures ReplaceEach(a + FixedTokens[k] + b, FixedTokens, FixedFragments) == a + FixedFragments[k] + b
  {
    FixedTokensWellFormed();
    FixedFragmentsClean();
    var tk, fk := FixedTokens[k], FixedFragments[k];
    var x := a + tk + b;
    var y := a + fk + b;
    forall j | 0 <= j < k ensures !Contains(x, FixedTokens[j]) {
      OtherTokenAbsent(a, tk, b, FixedTokens[j]);
    }
    ReplaceSingleHit(a, tk, fk, b);
    ConcatNoFixedStart(a, fk, b);
    forall j | k < j < |FixedTokens| ensures !Contains(y, FixedTokens[j]) {
      NoFixedStartAbsent(y, FixedTokens[j]);
    }
    ReplaceEachOneHit(x, y, FixedTokens, FixedFragments, k);
  }

  /**
   * A pattern made of brace-free literal pieces and `/{name}` placeholders:
   * `lits[0] /{names[0]} lits[1] ... /{names[n-1]} lits[n]`.
   */
  function WithPlaceholders(lits: seq<string>, names: seq<string>): string
    requires |lits| == |names| + 1
    decreases |names|
  {
    if names == [] then lits[0]
    else lits[0] + "/{" + names[0] + "}" + WithPlaceholders(lits[1..], names[1..])
  }

  /** The same literal pieces with every placeholder replaced by the generic group. */
  function WithGroups(lits: seq<string>, n: nat): string
    requires |lits| == n + 1
    decreases n
  {
    if n == 0 then lits[0] else lits[0] + GenericGroup + WithGroups(lits[1..], n - 1)
  }

  /** The names a generic placeholder may carry: anything but braces, a newline, or a leading `_`. */
  predicate PlainName(name: string) {
    (name == [] || name[0] != '_')
    && forall i :: 0 <= i < |name| ==> name[i] != '{' && name[i] != '}' && name[i] != '\n'
  }

  lemma {:induction false} WithPlaceholdersNoFixedStart(lits: seq<string>, names: seq<string>)
    requires |lits| == |names| + 1
    requires forall i :: 0 <= i < |lits| ==> BraceFree(lits[i])
    requires forall i :: 0 <= i < |names| ==> PlainName(names[i])
    ensures NoFixedStart(WithPlaceholders(lits, names))
    decreases |names|
  {
    if names != [] {
      var rest := WithPlaceholders(lits[1..], names[1..]);
      WithPlaceholdersNoFixedStart(lits[1..], names[1..]);
      var s := WithPlaceholders(lits, names);
      var a, n := lits[0], names[0];
      assert s == a + "/{" + n + "}" + rest;
      forall i | 0 <= i < |s| - 1 ensures s[i] == '{' ==> s[i + 1] != '_' {
        if i < |a| {
          assert s[i] == a[i];
        } else if i == |a| {
          assert s[i] == '/';
        } else if i == |a| + 1 {
          assert s[i + 1] == if n == [] then '}' else n[0];
        } else if i < |a| + 2 + |n| {
          assert s[i] == n[i - |a| - 2];
        } else if i == |a| + 2 + |n| {
          assert s[i] == '}';
        } else {
          assert s[i] == rest[i - |a| - 3 - |n|] && s[i + 1] == rest[i - |a| - 2 - |n|];
        }
      }
    }
  }

  lemma {:induction false} WithPlaceholdersGeneric(lits: seq<string>, names: seq<string>)
    requires |lits| == |names| + 1
    requires forall i :: 0 <= i < |lits| ==> BraceFree(lits[i])
    requires forall i :: 0 <= i < |names| ==> PlainName(names[i])
    ensures GenericGroups(WithPlaceholders(lits, names)) == WithGroups(lits, |names|)
    decreases |names|
  {
    if names == [] {
      GenericGroupsBraceFree(lits[0]);
    } else {
      var rest := WithPlaceholders(lits[1..], names[1..]);
      assert WithPlaceholders(lits, names) == lits[0] + "/{" + names[0] + "}" + rest;
      GenericGroupsPlaceholder(lits[0], names[0], rest);
      WithPlaceholdersGeneric(lits[1..], names[1..]);
    }
  }

  /**
   * Every generic `/{name}` placeholder, whatever characters its name uses,
   * compiles to the lazy group `/(.*?)`, and the literal text around the
   * placeholders is kept.
   */
  lemma CompileGenericPlaceholders(lits: seq<string>, names: seq<string>)
    requires |lits| == |names| + 1
    requires forall i :: 0 <= i < |lits| ==> BraceFree(lits[i])
    requires forall i :: 0 <= i < |names| ==> PlainName(names[i])
    ensures Compile(WithPlaceholders(lits, names)) == "^" + WithGroups(lits, |names|) + "$"
  {
    var s := WithPlaceholders(lits, names);
    FixedTokensWellFormed();
    WithPlaceholdersNoFixedStart(lits, names);
    forall j | 0 <= j < |FixedTokens| ensures !Contains(s, FixedTokens[j]) {
      NoFixedStartAbsent(s, FixedTokens[j]);
    }
    ReplaceEachAbsentAll(s, FixedTokens, FixedFragments);
    WithPlaceholdersGeneric(lits, names);
  }

  /**
   * A pattern with neither a fixed placeholder nor a `/{` is a raw regular
   * expression and is only anchored; its other braces, such as the `{4}`
   * of `\d{4}`, are left to the regex engine.
   */
  lemma CompileRaw(p: string)
    requires NoFixedStart(p) && NoSlashBrace(p)
    ensures Compile(p) == "^" + p + "$"
  {
    FixedTokensWellFormed();
    forall j | 0 <= j < |FixedTokens| ensures !Contains(p, FixedTokens[j]) {
      NoFixedStartAbsent(p, FixedTokens[j]);
    }
    ReplaceEachAbsentAll(p, FixedTokens, FixedFragments);
    GenericGroupsNoSlashBrace(p);
  }

  /**
   * Text after which the generic rewrite goes on unchanged: no `/{` starts
   * in it and it does not end with a slash.
   */
  lemma {:induction false} GenericGroupsPrefix(x: string, y: string)
    requires NoSlashBrace(x) && (x == [] || x[|x| - 1] != '/')
    ensures GenericGroups(x + y) == x + GenericGroups(y)
    decreases |x|
  {
    if x != [] {
      var s := x + y;
      if |s| < 2 {
        assert s == x && y == [];
      } else {
        assert s[0] == x[0];
        assert x[0] == '/' ==> s[1] != '{' by {
          if x[0] == '/' {
            assert |x| > 1 && s[1] == x[1];
          }
        }
        assert s[1..] == x[1..] + y;
        assert NoSlashBrace(x[1..]) by {
          forall i | 0 <= i < |x[1..]| - 1 && x[1..][i] == '/' ensures x[1..][i + 1] != '{' {
            assert x[1..][i] == x[i + 1] && x[1..][i + 1] == x[i + 2];
          }
        }
        assert GenericGroups(s) == [s[0]] + GenericGroups(s[1..]);
        GenericGroupsPrefix(x[1..], y);
        assert x == [x[0]] + x[1..];
      }
    } else {
      assert x + y == y;
    }
  }

  /** A text starting `{_` does not occur where the text is neither `{` nor `{_`. */
  lemma FixedStartAbsentAt(s: string, tj: string, i: nat)
    requires |tj| >= 2 && tj[0] == '{' && tj[1] == '_' && i + |tj| <= |s|
    requires s[i] != '{' || s[i + 1] != '_'
    ensures !OccursAt(s, tj, i)
  {
    assert s[i..i + |tj|][0] == s[i] && s[i..i + |tj|][1] == s[i + 1];
  }

  /** A fixed placeholder is absent from brace-free text followed by a different token and text where no `{_` starts. */
  lemma FixedTokenAbsentBeside(a: string, tk: string, w: string, tj: string)
    requires BraceFree(a) && NoFixedStart(w)
    requires BraceToken(tk) && WellFormedToken(tj) && tj != tk
    ensures !Contains(a + tk + w, tj)
  {
    var s := a + tk + w;
    var n := |a| + |tk|;
    forall i | 0 <= i < |a| && i + |tj| <= |s| ensures !OccursAt(s, tj, i) {
      assert s[i] == a[i];
      FixedStartAbsentAt(s, tj, i);
    }
    if |a| + |tj| <= |s| {
      assert s[|a|..|a| + |tj|] == (tk + w)[..|tj|];
      TokenNotPrefix(tj, tk, w);
    }
    forall i | |a| < i < n && i + |tj| <= |s| ensures !OccursAt(s, tj, i) {
      assert s[i] == tk[i - |a|];
      FixedStartAbsentAt(s, tj, i);
    }
    forall i | n <= i && i + |tj| <= |s| ensures !OccursAt(s, tj, i) {
      assert s[i] == w[i - n] && s[i + 1] == w[i + 1 - n];
      FixedStartAbsentAt(s, tj, i);
    }
  }

  /** The fixed substitution on brace-free text, one fixed placeholder and text where no fixed placeholder starts. */
  lemma ReplaceFixedTokenBefore(a: string, k: nat, w: string)
    requires BraceFree(a) && NoFixedStart(w) && k < |FixedTokens|
    ensures ReplaceEach(a + FixedTokens[k] + w, FixedTokens, FixedFragments) == a + FixedFragments[k] + w
  {
    FixedTokensWellFormed();
    FixedFragmentsClean();
    var tk, fk := FixedTokens[k], FixedFragments[k];
    var x := a + tk + w;
    var y := a + fk + w;
    forall j | 0 <= j < k ensures !Contains(x, FixedTokens[j]) {
      FixedTokenAbsentBeside(a, tk, w, FixedTokens[j]);
    }
    NoFixedStartAbsent(w, tk);
    ReplaceHitBefore(a, tk, fk, w);
    ConcatNoFixedStart(a, fk, w);
    forall j | k < j < |FixedTokens| ensures !Contains(y, FixedTokens[j]) {
      NoFixedStartAbsent(y, FixedTokens[j]);
    }
    ReplaceEachOneHit(x, y, FixedTokens, FixedFragments, k);
  }

  /**
   * A fixed placeholder followed by generic `/{name}` placeholders: the
   * fixed one becomes its own fragment and each generic one the lazy group.
   */
  lemma CompileFixedThenPlaceholders(a: string, k: nat, lits: seq<string>, names: seq<string>)
    requires BraceFree(a) && k < |FixedTokens|
    requires |lits| == |names| + 1
    requires forall i :: 0 <= i < |lits| ==> BraceFree(lits[i])
    requires forall i :: 0 <= i < |names| ==> PlainName(names[i])
    ensures Compile(a + FixedTokens[k] + WithPlaceholders(lits, names))
         == "^" + (a + FixedFragments[k] + WithGroups(lits, |names|)) + "$"
  {
    var w := WithPlaceholders(lits, names);
    var fk := FixedFragments[k];
    WithPlaceholdersNoFixedStart(lits, names);
    ReplaceFixedTokenBefore(a, k, w);
    FixedFragmentsClean();
    ConcatNoSlashBrace(a, fk, []);
    assert a + fk + [] == a + fk;
    GenericGroupsPrefix(a + fk, w);
    WithPlaceholdersGeneric(lits, names);
    CompileVia(a + FixedTokens[k] + w, a + fk + w);
  }
}
