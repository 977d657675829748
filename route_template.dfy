/**
 * `RouteAbstract`: a route declared as a class, holding its handler and
 * middleware, with `route(...$params)` filling the `{name}` placeholders of
 * the class's pattern to build a URL.
 */
module RouteTemplate {
  import opened Wrappers
  import opened PhpStrings
  import opened Patterns
  import Dispatch

  // ---------------------------------------------------------------------
  // Placeholder tokens: matches of `\{[^\{\}]+\}`
  // ---------------------------------------------------------------------

  predicate IsBrace(c: char) {
    c == '{' || c == '}'
  }

  /** A token occupies `s[i..j]`. */
  predicate TokenAt(s: string, i: int, j: int) {
    0 <= i <= j <= |s| && BraceToken(s[i..j])
  }

  /** Some part of `s` is a token. */
  ghost predicate HasToken(s: string) {
    exists i, j :: TokenAt(s, i, j)
  }

  /** The first brace at or after `i`, or `|s|` when there is none. */
  function NextBrace(s: string, i: nat): (j: nat)
    requires i <= |s|
    ensures i <= j <= |s| && (j < |s| ==> IsBrace(s[j]))
    ensures forall k :: i <= k < j ==> !IsBrace(s[k])
    decreases |s| - i
  {
    if i == |s| || IsBrace(s[i]) then i else NextBrace(s, i + 1)
  }

  /** The length of the token at the start of `s`, or 0 when none starts there. */
  function TokenLength(s: string): (n: nat)
    ensures n <= |s|
  {
    if s != [] && s[0] == '{' then
      var j := NextBrace(s, 1);
      if 1 < j < |s| && s[j] == '}' then j + 1 else 0
    else 0
  }

  lemma TokenLengthToken(s: string)
    requires TokenLength(s) > 0
    ensures BraceToken(s[..TokenLength(s)])
  {
  }

  /** A token at the start of `s` is the one `TokenLength` finds. */
  lemma TokenLengthOf(t: string, b: string)
    requires BraceToken(t)
    ensures TokenLength(t + b) == |t|
  {
    var s := t + b;
    forall k | 1 <= k < |t| - 1 ensures !IsBrace(s[k]) {
      assert s[k] == t[k];
    }
    assert s[|t| - 1] == '}';
    NextBraceAt(s, 1, |t| - 1);
  }

  /** The first brace at or after `i` is at `j`. */
  lemma {:induction false} NextBraceAt(s: string, i: nat, j: nat)
    requires i <= j < |s| && IsBrace(s[j])
    requires forall k :: i <= k < j ==> !IsBrace(s[k])
    ensures NextBrace(s, i) == j
    decreases j - i
  {
    if i < j {
      NextBraceAt(s, i + 1, j);
    }
  }

  /**
   * `preg_match_all('#\{[^\{\}]+\}#', $p)`: the tokens of `p` left to
   * right. After a token the scan resumes behind it; elsewhere it moves on
   * by one character.
   */
  function Tokens(s: string): (ts: seq<string>)
    decreases |s|
  {
    if s == [] then []
    else
      var n := TokenLength(s);
      if n > 0 then [s[..n]] + Tokens(s[n..]) else Tokens(s[1..])
  }

  /** Every token found is a token and a part of the text. */
  lemma TokensAreTokens(s: string)
    ensures forall k :: 0 <= k < |Tokens(s)| ==> BraceToken(Tokens(s)[k]) && Contains(s, Tokens(s)[k])
  {
    forall k | 0 <= k < |Tokens(s)| ensures BraceToken(Tokens(s)[k]) && Contains(s, Tokens(s)[k]) {
      TokenIsBraceToken(s, k);
      var i := TokenIsPart(s, k);
    }
  }

  /** The scan after its first step. */
  lemma TokensStep(s: string)
    requires s != []
    ensures TokenLength(s) > 0 ==> Tokens(s) == [s[..TokenLength(s)]] + Tokens(s[TokenLength(s)..])
    ensures TokenLength(s) == 0 ==> Tokens(s) == Tokens(s[1..])
  {
  }

  lemma {:induction false} TokenIsBraceToken(s: string, k: nat)
    requires k < |Tokens(s)|
    ensures BraceToken(Tokens(s)[k])
    decreases |s|
  {
    TokensStep(s);
    var n := TokenLength(s);
    var t := Tokens(s)[k];
    if n > 0 && k == 0 {
      assert t == s[..n];
      TokenLengthToken(s);
    } else {
      var rest := s[if n > 0 then n else 1..];
      var k' := if n > 0 then k - 1 else k;
      assert t == Tokens(rest)[k'];
      TokenIsBraceToken(rest, k');
    }
  }

  /** Where the token at position `k` of the scan occurs in the text. */
  lemma {:induction false} TokenIsPart(s: string, k: nat) returns (i: nat)
    requires k < |Tokens(s)|
    ensures OccursAt(s, Tokens(s)[k], i)
    decreases |s|
  {
    TokensStep(s);
    var n := TokenLength(s);
    var t := Tokens(s)[k];
    if n > 0 && k == 0 {
      assert t == s[..n];
      i := 0;
    } else {
      var m := if n > 0 then n else 1;
      var rest := s[m..];
      var k' := if n > 0 then k - 1 else k;
      assert t == Tokens(rest)[k'];
      var j := TokenIsPart(rest, k');
      OccursShift(s, m, t, j);
      i := m + j;
    }
  }

  /** Every token written in the text is found by the scan. */
  lemma TokenFound(s: string, i: nat, j: nat)
    requires i <= j <= |s| && BraceToken(s[i..j])
    ensures s[i..j] in Tokens(s)
  {
    var k := TokenFoundAt(s, i, j);
  }

  /** The scan finds exactly the tokens that occur in the text. */
  lemma TokensExactly(s: string, t: string)
    ensures t in Tokens(s) <==> BraceToken(t) && Contains(s, t)
  {
    TokensAreTokens(s);
    if BraceToken(t) && Contains(s, t) {
      var i :| OccursAt(s, t, i);
      TokenFound(s, i, i + |t|);
    }
  }

  /** The position in the scan of the token written at `s[i..j]`. */
  lemma {:induction false} TokenFoundAt(s: string, i: nat, j: nat) returns (k: nat)
    requires i <= j <= |s| && BraceToken(s[i..j])
    ensures k < |Tokens(s)| && Tokens(s)[k] == s[i..j]
    decreases |s|
  {
    TokensStep(s);
    var n := TokenLength(s);
    var t := s[i..j];
    if i == 0 {
      TokenAtStart(s, j);
      k := 0;
    } else {
      var m := if n == 0 then 1 else n;
      if n > 0 {
        TokenNotInsideFirst(s, i, j);
      }
      SliceShift(s, m, i, j);
      var k' := TokenFoundAt(s[m..], i - m, j - m);
      k := if n == 0 then k' else k' + 1;
      assert Tokens(s[m..])[k'] == t;
    }
  }

  /** A token at the start of `s` is the first one found. */
  lemma TokenAtStart(s: string, j: nat)
    requires j <= |s| && BraceToken(s[..j])
    ensures TokenLength(s) == j && Tokens(s) != [] && Tokens(s)[0] == s[..j]
  {
    assert s == s[..j] + s[j..];
    TokenLengthOf(s[..j], s[j..]);
    TokensStep(s);
  }

  /** No token starts inside the token found at the start of `s`. */
  lemma TokenNotInsideFirst(s: string, i: nat, j: nat)
    requires 0 < i <= j <= |s| && BraceToken(s[i..j]) && TokenLength(s) > 0
    ensures TokenLength(s) <= i
  {
    var n := TokenLength(s);
    TokenLengthToken(s);
    assert s[i] == s[i..j][0] == '{';
    forall k | 0 < k < n ensures s[k] != '{' {
      assert s[k] == s[..n][k];
    }
  }

  lemma SliceShift(s: string, m: nat, i: nat, j: nat)
    requires m <= i <= j <= |s|
    ensures s[m..][i - m..j - m] == s[i..j]
  {
  }

  lemma OccursShift(s: string, m: nat, t: string, j: nat)
    requires m <= |s| && OccursAt(s[m..], t, j)
    ensures OccursAt(s, t, m + j)
  {
    assert s[m + j..m + j + |t|] == s[m..][j..j + |t|];
  }

  /** The scan finds no token exactly when no part of the text is one. */
  lemma {:induction false} TokensNoneIff(s: string)
    ensures Tokens(s) == [] <==> !HasToken(s)
    decreases |s|
  {
    if HasToken(s) {
      if Tokens(s) == [] {
        var i, j :| TokenAt(s, i, j);
        NoTokenFound(s, i, j);
      }
    } else if Tokens(s) != [] {
      TokensAreTokens(s);
      var t := Tokens(s)[0];
      var i :| OccursAt(s, t, i);
      assert TokenAt(s, i, i + |t|);
    }
  }

  lemma {:induction false} NoTokenFound(s: string, i: int, j: int)
    requires TokenAt(s, i, j)
    ensures Tokens(s) != []
    decreases |s|
  {
    if i == 0 {
      assert s[..j] == s[i..j];
      TokenLengthOf(s[..j], s[j..]);
      assert s[..j] + s[j..] == s;
    } else if TokenLength(s) == 0 {
      assert s[1..][i - 1..j - 1] == s[i..j];
      NoTokenFound(s[1..], i - 1, j - 1);
    }
  }

  /** A prefix that opens no brace contributes no token. */
  lemma {:induction false} TokensSkip(x: string, y: string)
    requires BraceFree(x)
    ensures Tokens(x + y) == Tokens(y)
    decreases |x|
  {
    if x != [] {
      assert (x + y)[0] == x[0];
      assert (x + y)[1..] == x[1..] + y;
      TokensSkip(x[1..], y);
    } else {
      assert x + y == y;
    }
  }

  /** A token followed by text that opens no brace is the only token. */
  lemma TokensOfToken(t: string, b: string)
    requires BraceToken(t) && BraceFree(b)
    ensures Tokens(t + b) == [t]
  {
    TokenLengthOf(t, b);
    assert (t + b)[..|t|] == t;
    assert (t + b)[|t|..] == b;
    TokensSkip(b, []);
    assert b + [] == b;
  }

  // ---------------------------------------------------------------------
  // Parameters and filling
  // ---------------------------------------------------------------------

  /** A parameter of `route`: a string or an integer. */
  datatype Scalar = Str(s: string) | Int(i: int)

  /** `strval`. */
  function Strval(x: Scalar): (r: string)
    ensures x.Str? ==> r == x.s
    ensures x.Int? ==> |r| > 0 && (r[0] == '-' <==> x.i < 0)
  {
    match x
    case Str(s) => s
    case Int(i) => IntToString(i)
  }

  /** The decimal text of a non-negative integer parameter reads back as that integer. */
  lemma StrvalNat(n: nat)
    ensures DecimalValue(Strval(Int(n))) == n
  {
    NatToStringValue(n);
  }

  /** `array_map('strval', ...)`. */
  function Strvals(xs: seq<Scalar>): (r: seq<string>)
    ensures |r| == |xs| && forall k :: 0 <= k < |xs| ==> r[k] == Strval(xs[k])
  {
    seq(|xs|, k requires 0 <= k < |xs| => Strval(xs[k]))
  }

  function Min(a: int, b: int): int {
    if a < b then a else b
  }

  /**
   * The filling step of `route`: without parameters or without tokens the
   * pattern comes back as it is; otherwise the first parameters, one per
   * token, are converted to strings and each token in turn is replaced
   * everywhere, a token without a parameter by `''`.
   */
  function FillTemplate(p: string, params: seq<Scalar>): string {
    if params == [] then p
    else
      var ts := Tokens(p);
      if ts == [] then p else ReplaceEach(p, ts, Strvals(params[..Min(|params|, |ts|)]))
  }

  /** A pattern without any token is returned unchanged, whatever the parameters. */
  lemma FillWithoutTokens(p: string, params: seq<Scalar>)
    requires !HasToken(p)
    ensures FillTemplate(p, params) == p
  {
    TokensNoneIff(p);
  }

  lemma BraceFreeConcat(x: string, y: string)
    requires BraceFree(x) && BraceFree(y)
    ensures BraceFree(x + y)
  {
    forall i | 0 <= i < |x + y| ensures (x + y)[i] != '{' {
      if i >= |x| {
        assert (x + y)[i] == y[i - |x|];
      }
    }
  }

  lemma Assoc5(a: string, b: string, c: string, d: string, e: string)
    ensures a + b + c + d + e == a + (b + (c + (d + e)))
  {
    Dispatch.ConcatAssoc(a + b + c, d, e);
    Dispatch.ConcatAssoc(a + b, c, d + e);
    Dispatch.ConcatAssoc(a, b, c + (d + e));
  }

  /** Text that opens no brace holds no token to replace. */
  lemma ReplaceInBraceFree(s: string, t: string, v: string)
    requires BraceToken(t) && BraceFree(s)
    ensures ReplaceAll(s, t, v) == s
  {
    FirstCharAbsent(s, t);
    ReplaceAllAbsent(s, t, v);
  }

  lemma ReplaceAtStart(t: string, b: string, v: string)
    requires |t| > 0
    ensures ReplaceAll(t + b, t, v) == v + ReplaceAll(b, t, v)
  {
    assert (t + b)[..|t|] == t;
    assert (t + b)[|t|..] == b;
  }

  /** `ReplaceSingleHit` with the text grouped to the right. */
  lemma ReplaceOnly(a: string, t: string, b: string, v: string)
    requires BraceToken(t) && BraceFree(a) && BraceFree(b)
    ensures ReplaceAll(a + (t + b), t, v) == a + (v + b)
  {
    ReplaceSingleHit(a, t, v, b);
    Dispatch.ConcatAssoc(a, t, b);
    Dispatch.ConcatAssoc(a, v, b);
  }

  lemma ReplaceEachOne(s: string, t: string, vs: seq<string>)
    requires |vs| == 1
    ensures ReplaceEach(s, [t], vs) == ReplaceAll(s, t, vs[0])
  {
    assert [t][1..] == [];
  }

  lemma ReplaceEachTwo(s: string, t1: string, t2: string, vs: seq<string>)
    requires 1 <= |vs| <= 2
    ensures ReplaceEach(s, [t1, t2], vs) ==
      ReplaceAll(ReplaceAll(s, t1, vs[0]), t2, if |vs| == 2 then vs[1] else "")
  {
    assert [t1, t2][1..] == [t2];
    assert [t2][1..] == [];
    var s1 := ReplaceAll(s, t1, vs[0]);
    var rest := vs[1..];
    assert ReplaceEach(s, [t1, t2], vs) == ReplaceEach(s1, [t2], rest);
    var rep := if rest == [] then "" else rest[0];
    assert ReplaceEach(s1, [t2], rest) == ReplaceEach(ReplaceAll(s1, t2, rep), [], if rest == [] then [] else rest[1..]);
  }

  /** The values used for a pattern with `n` tokens: one per token, as far as the parameters go. */
  lemma UsedValues(params: seq<Scalar>, n: nat) returns (vs: seq<string>)
    requires |params| >= 1
    ensures vs == Strvals(params[..Min(|params|, n)])
    ensures |vs| == Min(|params|, n)
    ensures forall k :: 0 <= k < |vs| ==> vs[k] == Strval(params[k])
  {
    vs := Strvals(params[..Min(|params|, n)]);
  }

  /**
   * One token between brace-free text: it is replaced by the first
   * parameter, and further parameters are ignored.
   */
  lemma FillOneToken(a: string, t: string, b: string, x: Scalar, rest: seq<Scalar>)
    requires BraceToken(t) && BraceFree(a) && BraceFree(b)
    ensures FillTemplate(a + t + b, [x] + rest) == a + Strval(x) + b
  {
    var p := a + t + b;
    Dispatch.ConcatAssoc(a, t, b);
    TokensSkip(a, t + b);
    TokensOfToken(t, b);
    var vs := UsedValues([x] + rest, 1);
    ReplaceEachOne(p, t, vs);
    ReplaceOnly(a, t, b, Strval(x));
    Dispatch.ConcatAssoc(a, Strval(x), b);
  }

  /** Two tokens between brace-free text are found in order. */
  lemma TokensOfTwo(a: string, t1: string, m: string, t2: string, b: string)
    requires BraceToken(t1) && BraceToken(t2) && BraceFree(a) && BraceFree(m) && BraceFree(b)
    ensures Tokens(a + (t1 + (m + (t2 + b)))) == [t1, t2]
  {
    var tail := m + (t2 + b);
    TokensSkip(a, t1 + tail);
    TokenLengthOf(t1, tail);
    assert (t1 + tail)[..|t1|] == t1;
    assert (t1 + tail)[|t1|..] == tail;
    TokensSkip(m, t2 + b);
    TokensOfToken(t2, b);
  }

  /** Replacing a token leaves a different token, and brace-free text after it, alone. */
  lemma OtherTokenSkipped(t1: string, t2: string, b: string, v: string)
    requires BraceToken(t1) && BraceToken(t2) && t1 != t2 && BraceFree(b)
    ensures ReplaceAll(t2 + b, t1, v) == t2 + b
  {
    OtherTokenAbsent([], t2, b, t1);
    assert [] + t2 + b == t2 + b;
    ReplaceAllAbsent(t2 + b, t1, v);
  }

  /** Replacing the first of two different tokens. */
  lemma ReplaceFirstOfTwo(a: string, t1: string, m: string, t2: string, b: string, v: string)
    requires BraceToken(t1) && BraceToken(t2) && t1 != t2
    requires BraceFree(a) && BraceFree(m) && BraceFree(b)
    ensures ReplaceAll(a + (t1 + (m + (t2 + b))), t1, v) == a + (v + (m + (t2 + b)))
  {
    ReplaceAllSkip(a, t1 + (m + (t2 + b)), t1, v);
    ReplaceAtStart(t1, m + (t2 + b), v);
    ReplaceAllSkip(m, t2 + b, t1, v);
    OtherTokenSkipped(t1, t2, b, v);
  }

  /**
   * Two different tokens between brace-free text: the first is replaced by
   * the first parameter, the second by the second parameter or by `''`
   * when only one was given. (The first value must open no brace, or it
   * could itself contain the second token.)
   */
  lemma FillTwoTokens(a: string, t1: string, m: string, t2: string, b: string, params: seq<Scalar>)
    requires BraceToken(t1) && BraceToken(t2) && t1 != t2
    requires BraceFree(a) && BraceFree(m) && BraceFree(b)
    requires |params| >= 1 && BraceFree(Strval(params[0]))
    ensures FillTemplate(a + t1 + m + t2 + b, params) ==
      a + Strval(params[0]) + m + (if |params| >= 2 then Strval(params[1]) else "") + b
  {
    var p := a + (t1 + (m + (t2 + b)));
    Assoc5(a, t1, m, t2, b);
    TokensOfTwo(a, t1, m, t2, b);
    var vs := UsedValues(params, 2);
    ReplaceEachTwo(p, t1, t2, vs);
    var v1 := Strval(params[0]);
    var v2 := if |vs| == 2 then vs[1] else "";
    ReplaceFirstOfTwo(a, t1, m, t2, b, v1);
    var x := a + (v1 + m);
    Dispatch.ConcatAssoc(v1, m, t2 + b);
    Dispatch.ConcatAssoc(a, v1 + m, t2 + b);
    assert a + (v1 + (m + (t2 + b))) == x + (t2 + b);
    BraceFreeConcat(v1, m);
    BraceFreeConcat(a, v1 + m);
    ReplaceOnly(x, t2, b, v2);
    Dispatch.ConcatAssoc(v1, m, v2 + b);
    Dispatch.ConcatAssoc(a, v1 + m, v2 + b);
    Assoc5(a, v1, m, v2, b);
  }

  /** Replacing a token that appears twice. */
  lemma ReplaceRepeated(a: string, t: string, m: string, b: string, v: string)
    requires BraceToken(t) && BraceFree(a) && BraceFree(m) && BraceFree(b)
    ensures ReplaceAll(a + (t + (m + (t + b))), t, v) == a + (v + (m + (v + b)))
  {
    ReplaceAllSkip(a, t + (m + (t + b)), t, v);
    ReplaceAtStart(t, m + (t + b), v);
    ReplaceOnly(m, t, b, v);
  }

  /**
   * A token that appears twice is found twice, and the first replacement
   * already fills both places with the first parameter: the second
   * parameter is never used.
   */
  lemma FillRepeatedToken(a: string, t: string, m: string, b: string, params: seq<Scalar>)
    requires BraceToken(t) && BraceFree(a) && BraceFree(m) && BraceFree(b)
    requires |params| >= 1 && BraceFree(Strval(params[0]))
    ensures FillTemplate(a + t + m + t + b, params) == a + Strval(params[0]) + m + Strval(params[0]) + b
  {
    var p := a + (t + (m + (t + b)));
    Assoc5(a, t, m, t, b);
    TokensOfTwo(a, t, m, t, b);
    var vs := UsedValues(params, 2);
    ReplaceEachTwo(p, t, t, vs);
    var v := Strval(params[0]);
    ReplaceRepeated(a, t, m, b, v);
    var q := a + (v + (m + (v + b)));
    BraceFreeConcat(v, b);
    BraceFreeConcat(m, v + b);
    BraceFreeConcat(v, m + (v + b));
    BraceFreeConcat(a, v + (m + (v + b)));
    ReplaceInBraceFree(q, t, if |vs| == 2 then vs[1] else "");
    Assoc5(a, v, m, v, b);
  }

  // ---------------------------------------------------------------------
  // The class
  // ---------------------------------------------------------------------

  /** `RouteAbstract::PATTERN`: `null` on the base class. */
  const BasePattern: Option<string> := None

  function OrEmpty(p: Option<string>): string {
    if p.Some? then p.value else ""
  }

  /**
   * A route class. `declaredMethod` and `declaredPattern` are the values a
   * subclass gives its `METHOD` and `PATTERN` constants.
   */
  class RouteAbstract {
    var handle: Option<Dispatch.Handler>
    var middleware: Option<Dispatch.Handler>
    const declaredMethod: Option<string>
    const declaredPattern: Option<string>

    /** `make()`: a route with neither handler nor middleware. */
    constructor Make(declaredMethod: Option<string>, declaredPattern: Option<string>)
      ensures handle == None && middleware == None
      ensures this.declaredMethod == declaredMethod && this.declaredPattern == declaredPattern
    {
      handle := None;
      middleware := None;
      this.declaredMethod := declaredMethod;
      this.declaredPattern := declaredPattern;
    }

    method SetHandle(h: Dispatch.Handler)
      modifies this
      ensures handle == Some(h) && middleware == old(middleware)
    {
      handle := Some(h);
    }

    method SetMiddleware(h: Dispatch.Handler)
      modifies this
      ensures middleware == Some(h) && handle == old(handle)
    {
      middleware := Some(h);
    }

    function GetHandle(): (h: Option<Dispatch.Handler>)
      reads this
      ensures h == handle
    {
      handle
    }

    function GetMiddleware(): (h: Option<Dispatch.Handler>)
      reads this
      ensures h == middleware
    {
      middleware
    }

    /**
     * `route(...$params)` as written: the pattern is read as
     * `self::PATTERN`, the base class's `null`, so every route class builds
     * the empty URL.
     */
    function Route(params: seq<Scalar>): (r: string)
      ensures r == ""
    {
      assert !HasToken(OrEmpty(BasePattern));
      FillWithoutTokens(OrEmpty(BasePattern), params);
      FillTemplate(OrEmpty(BasePattern), params)
    }

    /**
     * `route(...$params)` reading the route class's own pattern
     * (`static::PATTERN`): without parameters, or for a pattern without
     * tokens, it is the pattern itself (`''` when there is none).
     */
    function RouteWithPattern(params: seq<Scalar>): (r: string)
      ensures params == [] || !HasToken(OrEmpty(declaredPattern)) ==> r == OrEmpty(declaredPattern)
    {
      TokensNoneIff(OrEmpty(declaredPattern));
      FillTemplate(OrEmpty(declaredPattern), params)
    }
  }

  /** Setting the handler and then reading it back gives the handler set; the middleware is untouched. */
  method SetThenGetHandle(o: RouteAbstract, h: Dispatch.Handler) returns (got: Option<Dispatch.Handler>)
    modifies o
    ensures got == Some(h) && o.GetMiddleware() == old(o.GetMiddleware())
  {
    o.SetHandle(h);
    got := o.GetHandle();
  }

  /** Likewise for the middleware. */
  method SetThenGetMiddleware(o: RouteAbstract, h: Dispatch.Handler) returns (got: Option<Dispatch.Handler>)
    modifies o
    ensures got == Some(h) && o.GetHandle() == old(o.GetHandle())
  {
    o.SetMiddleware(h);
    got := o.GetMiddleware();
  }

  /**
   * The as-written `route` loses any declared pattern: for a route class
   * with a non-empty pattern, even the call without parameters (which
   * should give the pattern back) gives `''`.
   */
  lemma RouteIgnoresPattern(o: RouteAbstract, p: string)
    requires o.declaredPattern == Some(p) && p != ""
    ensures o.Route([]) != o.RouteWithPattern([])
    ensures o.RouteWithPattern([]) == p
  {
  }

  /** With a pattern of one token, the corrected `route` fills it with the first parameter. */
  lemma RouteWithPatternOneToken(o: RouteAbstract, a: string, t: string, b: string, x: Scalar, rest: seq<Scalar>)
    requires o.declaredPattern == Some(a + t + b)
    requires BraceToken(t) && BraceFree(a) && BraceFree(b)
    ensures o.RouteWithPattern([x] + rest) == a + Strval(x) + b
  {
    FillOneToken(a, t, b, x, rest);
  }
}
