/**
 * The dispatch engine of `Router`, as values: registration of an entry
 * (`prepareRoute`), handler identity (`exec`), one pass of `handle` over a
 * list of entries, and the whole of `run`. The class `Routing.Router`
 * performs these steps on its fields and is proved to agree with them.
 */
module Dispatch {
  import opened Wrappers
  import opened PhpStrings
  import opened Patterns
  import opened Methods
  import opened Extraction

  /** A handler: a closure (told apart by a number) or a class name, optionally `Class@method`. */
  datatype Handler = Closure(id: nat) | Named(name: string)

  /** A registered entry `['p' => pattern, 'h' => handler]`. */
  datatype Entry = Entry(pattern: string, handler: Handler)

  /** What the router reads of the request: its method and its path. */
  datatype Request = Request(httpMethod: string, path: string)

  /**
   * The regex engine: a compiled pattern and a path give the offset
   * captures of the match, whole match first, or `None` when there is no
   * match.
   */
  type Matcher = (string, string) -> Option<seq<Capture>>

  /** A parameter transform set with `setHandleParamsMiddleware` or `setHandleParamsController`. */
  type Transform = (Params, Request) -> Params

  /** What the router does that can be observed: invoking a handler or a callback. */
  datatype Event =
    | Exec(handler: Handler, params: Params)
    | NotFound(callback: nat)
    | Completed(callback: nat)

  // ---------------------------------------------------------------------
  // Registration
  // ---------------------------------------------------------------------

  /**
   * `prepareRoute`: the entry to store for a registration, or `None` when
   * the request method is not admitted by the method list.
   */
  function PrepareRoute(requestMethod: string, methods: string, pattern: string, handler: Handler): (r: Option<Entry>)
    ensures r.Some? <==> Accepts(requestMethod, methods)
    ensures r.Some? ==> r.value.pattern == NormalizePattern(pattern) && r.value.handler == handler
  {
    var m := EffectiveMethod(requestMethod);
    if m == "" || !Contains(PrepareMethod(methods), m) then None
    else Some(Entry(NormalizePattern(pattern), handler))
  }

  /** The entries `route` adds to the middleware list: the same entry once per extra handler. */
  function WithHandlers(e: Entry, handlers: seq<Handler>): (r: seq<Entry>)
    ensures |r| == |handlers|
    ensures forall k :: 0 <= k < |r| ==> r[k].pattern == e.pattern && r[k].handler == handlers[k]
  {
    if handlers == [] then [] else [e.(handler := handlers[0])] + WithHandlers(e, handlers[1..])
  }

  /** Adding one more handler adds one more entry at the end. */
  lemma WithHandlersSnoc(e: Entry, handlers: seq<Handler>, h: Handler)
    ensures WithHandlers(e, handlers + [h]) == WithHandlers(e, handlers) + [e.(handler := h)]
  {
    var l, r := WithHandlers(e, handlers + [h]), WithHandlers(e, handlers) + [e.(handler := h)];
    assert |l| == |r|;
    forall k | 0 <= k < |l| ensures l[k] == r[k] {
      assert (handlers + [h])[k] == if k < |handlers| then handlers[k] else h;
    }
  }

  /** The entries for one more handler of a list. */
  lemma WithHandlersPrefix(e: Entry, handlers: seq<Handler>, i: nat)
    requires i < |handlers|
    ensures WithHandlers(e, handlers[..i + 1]) == WithHandlers(e, handlers[..i]) + [e.(handler := handlers[i])]
  {
    assert handlers[..i + 1] == handlers[..i] + [handlers[i]];
    WithHandlersSnoc(e, handlers[..i], handlers[i]);
  }

  // ---------------------------------------------------------------------
  // Handler identity
  // ---------------------------------------------------------------------

  /** The part of `s` before the first `c`, or all of `s` when there is none. */
  function Before(s: string, c: char): (r: string)
    ensures |r| <= |s| && r == s[..|r|]
    ensures c !in r
    ensures |r| < |s| ==> s[|r|] == c
  {
    if s == [] || s[0] == c then [] else [s[0]] + Before(s[1..], c)
  }

  /** `str_contains($s, $c)` for a one-character needle is membership. */
  lemma ContainsChar(s: string, c: char)
    ensures Contains(s, [c]) <==> c in s
  {
    if c in s {
      var i :| 0 <= i < |s| && s[i] == c;
      assert s[i..i + 1] == [c];
      assert OccursAt(s, [c], i);
    } else {
      forall i | 0 <= i && i + 1 <= |s| ensures !OccursAt(s, [c], i) {
        assert s[i..i + 1][0] == s[i];
      }
    }
  }

  /**
   * The class name `exec` records: `Closure` for a closure, the part before
   * the first `@` for `Class@method`, the whole name otherwise.
   */
  function ClassHandle(h: Handler): string {
    match h
    case Closure(_) => "Closure"
    case Named(name) => if Contains(name, "@") then Before(name, '@') else name
  }

  /**
   * A named handler's class is the longest `@`-free prefix of its name:
   * the name is the class, or the class followed by `@` and the rest.
   */
  lemma ClassHandleNamed(name: string)
    ensures var c := ClassHandle(Named(name));
      '@' !in c && (name == c || (|c| < |name| && name[..|c| + 1] == c + "@"))
    ensures '@' !in name ==> ClassHandle(Named(name)) == name
  {
    ContainsChar(name, '@');
    var c := ClassHandle(Named(name));
    if '@' in name {
      assert name[..|c| + 1] == name[..|c|] + [name[|c|]];
    }
  }

  /** A closure's class is recorded as `Closure`. */
  lemma ClassHandleClosure(id: nat)
    ensures ClassHandle(Closure(id)) == "Closure"
  {
  }

  // ---------------------------------------------------------------------
  // One pass of `handle`
  // ---------------------------------------------------------------------

  /** What a pass reads and does not change: the request, the regex engine and the transform `exec` applies. */
  datatype Env = Env(request: Request, matcher: Matcher, transform: Option<Transform>)

  /**
   * The state of a pass: the number of handlers run so far, the `$params`
   * variable (unset until the first match), the cache, the recorded class
   * and the events so far.
   */
  datatype Scan = Scan(handled: nat, params: Option<Params>, cache: map<string, Params>,
                       classHandle: Option<string>, trace: seq<Event>)

  /** The result of matching a stored pattern against the request path. */
  function MatchOf(env: Env, pattern: string): Option<seq<Capture>> {
    env.matcher(Compile(pattern), env.request.path)
  }

  /** The parameters a successful match of `pattern` yields. */
  function OwnParams(env: Env, pattern: string): (params: Params)
    requires MatchOf(env, pattern).Some?
    ensures |MatchOf(env, pattern).value| > 0 ==> |params| == |MatchOf(env, pattern).value| - 1
  {
    Extract(DropWhole(MatchOf(env, pattern).value))
  }

  /** The parameters after the transform, when one is set. */
  function Apply(t: Option<Transform>, params: Params, request: Request): Params {
    if t.Some? then t.value(params, request) else params
  }

  /**
   * Every cached pattern matches the request path, and its cached
   * parameters are the ones that match yields.
   */
  predicate Coherent(env: Env, cache: map<string, Params>) {
    forall p :: p in cache ==> MatchOf(env, p).Some? && cache[p] == OwnParams(env, p)
  }

  /** Running the handler of a matched entry with the current `$params`. */
  function Fire(env: Env, isController: bool, s: Scan, e: Entry): Scan
    requires s.params.Some?
  {
    s.(handled := s.handled + 1,
       cache := if isController then map[] else s.cache,
       classHandle := Some(ClassHandle(e.handler)),
       trace := s.trace + [Exec(e.handler, Apply(env.transform, s.params.value, env.request))])
  }

  /** The fields of the scan after a handler runs, one by one. */
  lemma FireFields(env: Env, isController: bool, s: Scan, e: Entry)
    requires s.params.Some?
    ensures Fire(env, isController, s, e) ==
      Scan(s.handled + 1, s.params, if isController then map[] else s.cache,
           Some(ClassHandle(e.handler)), s.trace + [Exec(e.handler, Apply(env.transform, s.params.value, env.request))])
  {
  }

  /**
   * One iteration of the loop of `handle`: a cached pattern counts as a
   * match and sets `$params` from the cache; otherwise the pattern is
   * matched, and a match computes and caches `$params` only while
   * `$params` is still unset. The flag says whether the entry matched.
   */
  function Step(env: Env, isController: bool, s: Scan, e: Entry): (Scan, bool) {
    if e.pattern in s.cache then
      (Fire(env, isController, s.(params := Some(s.cache[e.pattern])), e), true)
    else
      match MatchOf(env, e.pattern)
      case None => (s, false)
      case Some(m) =>
        if s.params.None? then
          var ps := Extract(DropWhole(m));
          (Fire(env, isController, s.(params := Some(ps), cache := s.cache[e.pattern := ps]), e), true)
        else
          (Fire(env, isController, s, e), true)
  }

  /**
   * `handle`: the entries are tried in order; the controller pass stops
   * after the first match. Also returns the entries not visited, which are
   * the ones left in the list `handle` was given.
   */
  function Pass(env: Env, isController: bool, s: Scan, es: seq<Entry>): (Scan, seq<Entry>)
    decreases |es|
  {
    if es == [] then (s, [])
    else
      var (s1, hit) := Step(env, isController, s, es[0]);
      if hit && isController then (s1, es[1..]) else Pass(env, isController, s1, es[1..])
  }

  /**
   * The parameters an entry that matches is run with: its cached
   * parameters, else those of an earlier match in the same pass (the
   * variable `$params` is never reset), else its own.
   */
  function UsedParams(env: Env, s: Scan, e: Entry): Params
    requires e.pattern in s.cache || MatchOf(env, e.pattern).Some?
  {
    if e.pattern in s.cache then s.cache[e.pattern]
    else if s.params.Some? then s.params.value
    else OwnParams(env, e.pattern)
  }

  /**
   * One step: an entry matches exactly when its pattern is cached or the
   * regex engine matches it; a miss changes nothing; a match runs the
   * entry's handler once with `UsedParams`, counts it, records its class
   * and, in the controller pass, empties the cache.
   */
  lemma StepOutcome(env: Env, isController: bool, s: Scan, e: Entry)
    ensures var (s1, hit) := Step(env, isController, s, e);
      (hit <==> e.pattern in s.cache || MatchOf(env, e.pattern).Some?) &&
      (!hit ==> s1 == s) &&
      (hit ==> s1.handled == s.handled + 1 &&
               s1.trace == s.trace + [Exec(e.handler, Apply(env.transform, UsedParams(env, s, e), env.request))] &&
               s1.classHandle == Some(ClassHandle(e.handler)) &&
               s1.params.Some? &&
               (isController ==> s1.cache == map[]))
  {
  }

  /** A cached pattern is never given to the regex engine: the step is the same whatever the engine. */
  lemma CacheHitIgnoresMatcher(env: Env, other: Matcher, isController: bool, s: Scan, e: Entry)
    requires e.pattern in s.cache
    ensures Step(env, isController, s, e) == Step(env.(matcher := other), isController, s, e)
  {
  }

  /** The first match of a pass that is not cached stores its parameters under its pattern. */
  lemma FreshMatchCached(env: Env, s: Scan, e: Entry)
    requires e.pattern !in s.cache && MatchOf(env, e.pattern).Some? && s.params.None?
    ensures Step(env, false, s, e).0.cache == s.cache[e.pattern := OwnParams(env, e.pattern)]
    ensures Step(env, false, s, e).0.params == Some(OwnParams(env, e.pattern))
  {
  }

  /**
   * A later match in the same pass that is not cached runs with the
   * parameters of the earlier match, and nothing is cached for it.
   */
  lemma LaterMatchReusesParams(env: Env, isController: bool, s: Scan, e: Entry, earlier: Params)
    requires e.pattern !in s.cache && MatchOf(env, e.pattern).Some? && s.params == Some(earlier)
    ensures Step(env, isController, s, e).0.trace ==
      s.trace + [Exec(e.handler, Apply(env.transform, earlier, env.request))]
    ensures !isController ==> Step(env, isController, s, e).0.cache == s.cache
  {
  }

  /** A coherent cache stays coherent, and then a cached pattern is exactly a matching one. */
  lemma StepCoherent(env: Env, isController: bool, s: Scan, e: Entry)
    requires Coherent(env, s.cache)
    ensures Coherent(env, Step(env, isController, s, e).0.cache)
    ensures Step(env, isController, s, e).1 <==> MatchOf(env, e.pattern).Some?
  {
    var s1 := Step(env, isController, s, e).0;
    if e.pattern !in s.cache && MatchOf(env, e.pattern).Some? && s.params.None? && !isController {
      forall p | p in s1.cache ensures MatchOf(env, p).Some? && s1.cache[p] == OwnParams(env, p) {
        if p != e.pattern {
          assert p in s.cache;
        }
      }
    }
  }

  /** Whether a cache is coherent does not depend on the parameter transform. */
  lemma CoherentTransformFree(env: Env, t: Option<Transform>, cache: map<string, Params>)
    ensures Coherent(env, cache) <==> Coherent(env.(transform := t), cache)
  {
    forall p ensures MatchOf(env, p) == MatchOf(env.(transform := t), p) { }
  }

  /** A pass keeps a coherent cache coherent. */
  lemma {:induction false} PassCoherent(env: Env, isController: bool, s: Scan, es: seq<Entry>)
    requires Coherent(env, s.cache)
    ensures Coherent(env, Pass(env, isController, s, es).0.cache)
    decreases |es|
  {
    if es != [] {
      StepCoherent(env, isController, s, es[0]);
      var (s1, hit) := Step(env, isController, s, es[0]);
      if !(hit && isController) {
        PassCoherent(env, isController, s1, es[1..]);
      }
    }
  }

  /** The handlers of the `Exec` events of a trace, in order. */
  function ExecHandlers(trace: seq<Event>): (hs: seq<Handler>)
    ensures |hs| <= |trace|
  {
    if trace == [] then []
    else ExecHandlers(trace[..|trace| - 1]) + (if trace[|trace| - 1].Exec? then [trace[|trace| - 1].handler] else [])
  }

  /** Appending an event adds its handler when it is an `Exec` event. */
  lemma ExecHandlersSnoc(trace: seq<Event>, ev: Event)
    ensures ExecHandlers(trace + [ev]) == ExecHandlers(trace) + (if ev.Exec? then [ev.handler] else [])
  {
    assert (trace + [ev])[..|trace + [ev]| - 1] == trace;
  }

  /** The handlers of the entries whose pattern matches the request path, in order. */
  function MatchingHandlers(env: Env, es: seq<Entry>): (hs: seq<Handler>)
    ensures |hs| <= |es|
  {
    if es == [] then [] else
      (if MatchOf(env, es[0].pattern).Some? then [es[0].handler] else []) + MatchingHandlers(env, es[1..])
  }

  /** Some entry's pattern matches the request path. */
  predicate AnyMatch(env: Env, es: seq<Entry>) {
    exists k :: 0 <= k < |es| && MatchOf(env, es[k].pattern).Some?
  }

  /** A pass only appends `Exec` events to the trace. */
  lemma {:induction false} PassAppendsExecs(env: Env, isController: bool, s: Scan, es: seq<Entry>)
    ensures ExecsAfter(s.trace, Pass(env, isController, s, es).0.trace)
    decreases |es|
  {
    if es == [] {
      ExecsAfterRefl(s.trace);
    } else {
      StepOutcome(env, isController, s, es[0]);
      var (s1, hit) := Step(env, isController, s, es[0]);
      if hit {
        ExecsAfterSnoc(s.trace, Exec(es[0].handler, Apply(env.transform, UsedParams(env, s, es[0]), env.request)));
      } else {
        ExecsAfterRefl(s.trace);
      }
      if !(hit && isController) {
        PassAppendsExecs(env, isController, s1, es[1..]);
        ExecsAfterTrans(s.trace, s1.trace, Pass(env, isController, s1, es[1..]).0.trace);
      }
    }
  }

  lemma ExecsAfterRefl(t: seq<Event>)
    ensures ExecsAfter(t, t)
  {
    assert t[..|t|] == t;
  }

  lemma ExecsAfterSnoc(t: seq<Event>, ev: Event)
    requires ev.Exec?
    ensures ExecsAfter(t, t + [ev])
  {
    assert (t + [ev])[..|t|] == t;
  }

  lemma ConcatAssoc<T>(a: seq<T>, b: seq<T>, c: seq<T>)
    ensures a + b + c == a + (b + c)
  {
  }

  /** A step counts the entry and appends its handler exactly when the entry matched. */
  lemma StepCounts(env: Env, isController: bool, s: Scan, e: Entry)
    ensures var (s1, hit) := Step(env, isController, s, e);
      s1.handled == s.handled + (if hit then 1 else 0) &&
      ExecHandlers(s1.trace) == ExecHandlers(s.trace) + (if hit then [e.handler] else [])
  {
    StepOutcome(env, isController, s, e);
    var (s1, hit) := Step(env, isController, s, e);
    if hit {
      ExecHandlersSnoc(s.trace, Exec(e.handler, Apply(env.transform, UsedParams(env, s, e), env.request)));
    } else {
      assert ExecHandlers(s.trace) + [] == ExecHandlers(s.trace);
    }
  }

  /**
   * The middleware pass runs the handler of every matching entry, in
   * order, counts them, visits the whole list and keeps the cache coherent.
   */
  lemma {:induction false} MiddlewarePass(env: Env, s: Scan, es: seq<Entry>)
    requires Coherent(env, s.cache)
    ensures var r := Pass(env, false, s, es);
      r.1 == [] && Coherent(env, r.0.cache) &&
      r.0.handled == s.handled + |MatchingHandlers(env, es)| &&
      ExecHandlers(r.0.trace) == ExecHandlers(s.trace) + MatchingHandlers(env, es)
    decreases |es|
  {
    if es != [] {
      StepCoherent(env, false, s, es[0]);
      StepCounts(env, false, s, es[0]);
      var s1 := Step(env, false, s, es[0]).0;
      assert Pass(env, false, s, es) == Pass(env, false, s1, es[1..]);
      MiddlewarePass(env, s1, es[1..]);
      var head := if MatchOf(env, es[0].pattern).Some? then [es[0].handler] else [];
      var rest := MatchingHandlers(env, es[1..]);
      assert MatchingHandlers(env, es) == head + rest;
      ConcatAssoc(ExecHandlers(s.trace), head, rest);
    }
  }

  /**
   * The controller pass with nothing matching runs nothing and changes
   * nothing, and visits the whole list.
   */
  lemma {:induction false} ControllerPassNoMatch(env: Env, s: Scan, es: seq<Entry>)
    requires Coherent(env, s.cache)
    requires !AnyMatch(env, es)
    ensures Pass(env, true, s, es) == (s, [])
    decreases |es|
  {
    if es != [] {
      StepCoherent(env, true, s, es[0]);
      StepOutcome(env, true, s, es[0]);
      assert !MatchOf(env, es[0].pattern).Some?;
      assert !AnyMatch(env, es[1..]) by {
        forall k | 0 <= k < |es[1..]| ensures !MatchOf(env, es[1..][k].pattern).Some? {
          assert es[1..][k] == es[k + 1];
        }
      }
      ControllerPassNoMatch(env, s, es[1..]);
    }
  }

  /**
   * The controller pass runs exactly the first matching entry, with that
   * entry's own parameters, empties the cache, and leaves the entries after
   * it unvisited.
   */
  lemma {:induction false} ControllerPassFirstMatch(env: Env, s: Scan, es: seq<Entry>, k: nat)
    requires Coherent(env, s.cache) && s.params.None?
    requires k < |es| && MatchOf(env, es[k].pattern).Some?
    requires forall j :: 0 <= j < k ==> MatchOf(env, es[j].pattern).None?
    ensures var ps := OwnParams(env, es[k].pattern);
      Pass(env, true, s, es) ==
        (s.(handled := s.handled + 1, params := Some(ps), cache := map[],
            classHandle := Some(ClassHandle(es[k].handler)),
            trace := s.trace + [Exec(es[k].handler, Apply(env.transform, ps, env.request))]),
         es[k + 1..])
    decreases k
  {
    StepCoherent(env, true, s, es[0]);
    StepOutcome(env, true, s, es[0]);
    if k > 0 {
      assert MatchOf(env, es[0].pattern).None?;
      forall j | 0 <= j < k - 1 ensures MatchOf(env, es[1..][j].pattern).None? {
        assert es[1..][j] == es[j + 1];
      }
      ControllerPassFirstMatch(env, s, es[1..], k - 1);
      assert es[1..][k - 1 + 1..] == es[k + 1..];
    }
  }

  /** The controller pass runs one handler when some entry matches and none otherwise. */
  lemma ControllerPassCount(env: Env, s: Scan, es: seq<Entry>)
    requires Coherent(env, s.cache) && s.params.None?
    ensures Pass(env, true, s, es).0.handled == s.handled + (if AnyMatch(env, es) then 1 else 0)
    ensures ExecHandlers(Pass(env, true, s, es).0.trace) ==
      ExecHandlers(s.trace) + (if AnyMatch(env, es) then [es[FirstMatch(env, es)].handler] else [])
    ensures AnyMatch(env, es) ==> Pass(env, true, s, es).0.cache == map[]
    ensures !AnyMatch(env, es) ==> Pass(env, true, s, es).0 == s
  {
    if AnyMatch(env, es) {
      var k := FirstMatch(env, es);
      ControllerPassFirstMatch(env, s, es, k);
      var t := Pass(env, true, s, es).0.trace;
      assert t[..|t| - 1] == s.trace;
    } else {
      ControllerPassNoMatch(env, s, es);
    }
  }

  /** The index of the first matching entry. */
  function FirstMatch(env: Env, es: seq<Entry>): (k: nat)
    requires AnyMatch(env, es)
    ensures k < |es| && MatchOf(env, es[k].pattern).Some?
    ensures forall j :: 0 <= j < k ==> MatchOf(env, es[j].pattern).None?
  {
    if MatchOf(env, es[0].pattern).Some? then 0
    else
      AnyMatchTail(env, es);
      var k := FirstMatch(env, es[1..]);
      NoMatchBeforeShift(env, es, k);
      1 + k
  }

  /** The first match of the tail, shifted by one, is the first match of the list. */
  lemma NoMatchBeforeShift(env: Env, es: seq<Entry>, k: nat)
    requires 0 < |es| && MatchOf(env, es[0].pattern).None?
    requires k < |es[1..]| && MatchOf(env, es[1..][k].pattern).Some?
    requires forall j :: 0 <= j < k ==> MatchOf(env, es[1..][j].pattern).None?
    ensures 1 + k < |es| && MatchOf(env, es[1 + k].pattern).Some?
    ensures forall j :: 0 <= j < 1 + k ==> MatchOf(env, es[j].pattern).None?
  {
    var ms := seq(|es|, i requires 0 <= i < |es| => MatchOf(env, es[i].pattern));
    var tail := es[1..];
    assert tail[k] == es[1 + k];
    forall j | 0 < j < 1 + k ensures ms[j].None? {
      assert tail[j - 1] == es[j];
    }
    assert forall j :: 0 <= j < 1 + k ==> ms[j] == MatchOf(env, es[j].pattern);
  }

  /** A match that is not at the head is in the tail. */
  lemma AnyMatchTail(env: Env, es: seq<Entry>)
    requires AnyMatch(env, es) && MatchOf(env, es[0].pattern).None?
    ensures AnyMatch(env, es[1..])
  {
    var k :| 0 <= k < |es| && MatchOf(env, es[k].pattern).Some?;
    assert es[1..][k - 1] == es[k];
  }

  // ---------------------------------------------------------------------
  // `run`
  // ---------------------------------------------------------------------

  /** What `run` reads and does not change. */
  datatype Config = Config(request: Request, matcher: Matcher, notFound: Option<nat>,
                           paramsMiddleware: Option<Transform>, paramsController: Option<Transform>)

  /** What `run` changes. */
  datatype State = State(routes: seq<Entry>, middleware: seq<Entry>, cache: map<string, Params>,
                         numHandledMiddleware: Option<nat>, classHandle: Option<string>, trace: seq<Event>)

  /**
   * The transform `exec` applies: the middleware one while no middleware
   * pass has finished on this router, the controller one afterwards.
   */
  function CurrentTransform(cfg: Config, numHandledMiddleware: Option<nat>): Option<Transform> {
    if numHandledMiddleware.None? then cfg.paramsMiddleware else cfg.paramsController
  }

  /** `getNumHundledMiddleware`: the recorded count, 0 before any run. */
  function HandledMiddlewareCount(numHandledMiddleware: Option<nat>): nat {
    if numHandledMiddleware.Some? then numHandledMiddleware.value else 0
  }

  /** The environment of a pass run under `numHandledMiddleware`. */
  function EnvOf(cfg: Config, numHandledMiddleware: Option<nat>): Env {
    Env(cfg.request, cfg.matcher, CurrentTransform(cfg, numHandledMiddleware))
  }

  /** The callback `run` invokes after the passes: the 404 callback when no route ran, else the completion callback. */
  function Epilogue(handled: nat, notFound: Option<nat>, callback: Option<nat>): seq<Event> {
    if handled == 0 then (if notFound.Some? then [NotFound(notFound.value)] else [])
    else (if callback.Some? then [Completed(callback.value)] else [])
  }

  /** At most one callback runs: the 404 callback exactly when nothing ran and it is set, the completion callback exactly when something ran and it is given. */
  lemma EpilogueExclusive(handled: nat, notFound: Option<nat>, callback: Option<nat>)
    ensures |Epilogue(handled, notFound, callback)| <= 1
    ensures forall id: nat :: NotFound(id) in Epilogue(handled, notFound, callback) <==> handled == 0 && notFound == Some(id)
    ensures forall id: nat :: Completed(id) in Epilogue(handled, notFound, callback) <==> handled > 0 && callback == Some(id)
  {
  }

  /** The middleware pass of `run`, or no change when there is no middleware. */
  function MiddlewareStage(cfg: Config, st: State): Scan {
    var s := Scan(0, None, st.cache, st.classHandle, st.trace);
    if st.middleware != [] then Pass(EnvOf(cfg, st.numHandledMiddleware), false, s, st.middleware).0 else s
  }

  /** The controller pass of `run`, after the middleware pass, or no change when there are no routes. */
  function ControllerStage(cfg: Config, st: State): Scan {
    var mw := MiddlewareStage(cfg, st);
    var s := Scan(0, None, mw.cache, mw.classHandle, mw.trace);
    if st.routes != [] then Pass(EnvOf(cfg, Some(mw.handled)), true, s, st.routes).0 else s
  }

  /** The router's state after the middleware block of `run`. */
  function AfterMiddleware(cfg: Config, st: State): State {
    var mw := MiddlewareStage(cfg, st);
    st.(middleware := [], cache := mw.cache, numHandledMiddleware := Some(mw.handled),
        classHandle := mw.classHandle, trace := mw.trace)
  }

  /** The controller pass of `run` from the state `st2` the middleware block left. */
  function ControllerScan(cfg: Config, st2: State): Scan {
    var s := Scan(0, None, st2.cache, st2.classHandle, st2.trace);
    if st2.routes != [] then Pass(EnvOf(cfg, st2.numHandledMiddleware), true, s, st2.routes).0 else s
  }

  /** The controller stage is the controller pass from the state the middleware block leaves. */
  lemma ControllerStageAfter(cfg: Config, st: State)
    ensures ControllerStage(cfg, st) == ControllerScan(cfg, AfterMiddleware(cfg, st))
  {
  }

  /** `run(callback)`: both passes, then the 404 or completion callback; both lists end empty. */
  function RunOutcome(cfg: Config, st: State, callback: Option<nat>): State {
    var mw := MiddlewareStage(cfg, st);
    var ct := ControllerStage(cfg, st);
    State([], [], ct.cache, Some(mw.handled), ct.classHandle, ct.trace + Epilogue(ct.handled, cfg.notFound, callback))
  }

  /** After `run` both lists are empty and the middleware count is recorded, so later runs use the controller transform. */
  lemma RunClearsLists(cfg: Config, st: State, callback: Option<nat>)
    ensures RunOutcome(cfg, st, callback).routes == [] && RunOutcome(cfg, st, callback).middleware == []
    ensures RunOutcome(cfg, st, callback).numHandledMiddleware.Some?
    ensures CurrentTransform(cfg, RunOutcome(cfg, st, callback).numHandledMiddleware) == cfg.paramsController
  {
  }

  /**
   * The middleware pass of `run` on a coherent cache: every matching
   * middleware runs, in order, and is counted; only `Exec` events are
   * added and the cache stays coherent.
   */
  lemma MiddlewareStageOutcome(cfg: Config, st: State)
    requires Coherent(EnvOf(cfg, None), st.cache)
    ensures var mw := MiddlewareStage(cfg, st);
      var envM := EnvOf(cfg, st.numHandledMiddleware);
      mw.handled == |MatchingHandlers(envM, st.middleware)| &&
      ExecHandlers(mw.trace) == ExecHandlers(st.trace) + MatchingHandlers(envM, st.middleware) &&
      Coherent(EnvOf(cfg, None), mw.cache) &&
      ExecsAfter(st.trace, mw.trace)
  {
    var envM := EnvOf(cfg, st.numHandledMiddleware);
    var s0 := Scan(0, None, st.cache, st.classHandle, st.trace);
    if st.middleware != [] {
      MiddlewarePass(envM, s0, st.middleware);
      PassAppendsExecs(envM, false, s0, st.middleware);
    } else {
      assert ExecHandlers(st.trace) + [] == ExecHandlers(st.trace);
    }
  }

  /** `after` is `before` followed by `Exec` events only. */
  predicate ExecsAfter(before: seq<Event>, after: seq<Event>) {
    |before| <= |after| && after[..|before|] == before &&
    forall i :: |before| <= i < |after| ==> after[i].Exec?
  }

  /**
   * The controller pass of `run` on a coherent cache: exactly the first
   * matching route runs, if any; the cache is emptied when one runs and
   * kept otherwise; only `Exec` events are added.
   */
  lemma ControllerStageOutcome(cfg: Config, st: State)
    requires Coherent(EnvOf(cfg, None), st.cache)
    ensures var mw := MiddlewareStage(cfg, st);
      var ct := ControllerStage(cfg, st);
      var envC := EnvOf(cfg, Some(0));
      var routed := AnyMatch(envC, st.routes);
      ct.handled == (if routed then 1 else 0) &&
      ExecHandlers(ct.trace) ==
        ExecHandlers(mw.trace) + (if routed then [st.routes[FirstMatch(envC, st.routes)].handler] else []) &&
      (routed ==> ct.cache == map[]) &&
      (!routed ==> ct.cache == mw.cache) &&
      ExecsAfter(mw.trace, ct.trace)
  {
    MiddlewareStageOutcome(cfg, st);
    var mw := MiddlewareStage(cfg, st);
    var envC := EnvOf(cfg, Some(mw.handled));
    assert envC == EnvOf(cfg, Some(0));
    assert Coherent(envC, mw.cache);
    var s1 := Scan(0, None, mw.cache, mw.classHandle, mw.trace);
    ControllerPassCount(envC, s1, st.routes);
    PassAppendsExecs(envC, true, s1, st.routes);
  }

  /** Extending by `Exec` events twice is extending by `Exec` events. */
  lemma ExecsAfterTrans(a: seq<Event>, b: seq<Event>, c: seq<Event>)
    requires ExecsAfter(a, b) && ExecsAfter(b, c)
    ensures ExecsAfter(a, c)
  {
    assert c[..|a|] == c[..|b|][..|a|];
  }

  /** `run` records how many middleware entries matched; `getNumHundledMiddleware` then returns that count. */
  lemma RunMiddlewareCount(cfg: Config, st: State, callback: Option<nat>)
    requires Coherent(EnvOf(cfg, None), st.cache)
    ensures HandledMiddlewareCount(RunOutcome(cfg, st, callback).numHandledMiddleware) ==
      |MatchingHandlers(EnvOf(cfg, st.numHandledMiddleware), st.middleware)|
  {
    MiddlewareStageOutcome(cfg, st);
  }

  /**
   * `run` runs the handlers of the matching middleware, in order, and then
   * the handler of the first matching route, if any.
   */
  lemma RunHandlers(cfg: Config, st: State, callback: Option<nat>)
    requires Coherent(EnvOf(cfg, None), st.cache)
    ensures var envC := EnvOf(cfg, Some(0));
      ExecHandlers(RunOutcome(cfg, st, callback).trace) ==
        ExecHandlers(st.trace) + MatchingHandlers(EnvOf(cfg, st.numHandledMiddleware), st.middleware) +
        (if AnyMatch(envC, st.routes) then [st.routes[FirstMatch(envC, st.routes)].handler] else [])
  {
    MiddlewareStageOutcome(cfg, st);
    ControllerStageOutcome(cfg, st);
    var ct := ControllerStage(cfg, st);
    ExecHandlersEpilogue(ct.trace, Epilogue(ct.handled, cfg.notFound, callback), ct.handled, cfg.notFound, callback);
  }

  /** `run` empties the cache when a route ran, and keeps what the middleware pass left otherwise. */
  lemma RunCache(cfg: Config, st: State, callback: Option<nat>)
    requires Coherent(EnvOf(cfg, None), st.cache)
    ensures AnyMatch(EnvOf(cfg, Some(0)), st.routes) ==> RunOutcome(cfg, st, callback).cache == map[]
    ensures !AnyMatch(EnvOf(cfg, Some(0)), st.routes) ==>
      RunOutcome(cfg, st, callback).cache == MiddlewareStage(cfg, st).cache
    ensures Coherent(EnvOf(cfg, None), RunOutcome(cfg, st, callback).cache)
  {
    MiddlewareStageOutcome(cfg, st);
    ControllerStageOutcome(cfg, st);
  }

  /**
   * The events `run` adds are `Exec` events followed by its callbacks:
   * the 404 callback exactly when no route matched and one is set, the
   * completion callback exactly when a route ran and one was given.
   */
  lemma RunEvents(cfg: Config, st: State, callback: Option<nat>)
    requires Coherent(EnvOf(cfg, None), st.cache)
    ensures var ct := ControllerStage(cfg, st);
      var routed := AnyMatch(EnvOf(cfg, Some(0)), st.routes);
      ExecsAfter(st.trace, ct.trace) &&
      RunOutcome(cfg, st, callback).trace == ct.trace + Epilogue(if routed then 1 else 0, cfg.notFound, callback)
  {
    MiddlewareStageOutcome(cfg, st);
    ControllerStageOutcome(cfg, st);
    ExecsAfterTrans(st.trace, MiddlewareStage(cfg, st).trace, ControllerStage(cfg, st).trace);
  }

  /**
   * The callbacks of `run`: the 404 callback runs exactly when no route
   * matched and one is set, the completion callback exactly when a route
   * ran and one was given, so never both.
   */
  lemma RunCallbacks(cfg: Config, st: State, callback: Option<nat>, id: nat)
    requires Coherent(EnvOf(cfg, None), st.cache)
    ensures var r := RunOutcome(cfg, st, callback);
      var routed := AnyMatch(EnvOf(cfg, Some(0)), st.routes);
      |st.trace| <= |r.trace| &&
      (NotFound(id) in r.trace[|st.trace|..] <==> !routed && cfg.notFound == Some(id)) &&
      (Completed(id) in r.trace[|st.trace|..] <==> routed && callback == Some(id))
  {
    RunEvents(cfg, st, callback);
    var r := RunOutcome(cfg, st, callback);
    var ct := ControllerStage(cfg, st);
    var routed := AnyMatch(EnvOf(cfg, Some(0)), st.routes);
    var ep := Epilogue(if routed then 1 else 0, cfg.notFound, callback);
    var execs := ct.trace[|st.trace|..];
    assert r.trace[|st.trace|..] == execs + ep;
    assert forall i :: 0 <= i < |execs| ==> execs[i] == ct.trace[|st.trace| + i];
    EpilogueExclusive(if routed then 1 else 0, cfg.notFound, callback);
    assert NotFound(id) !in execs;
    assert Completed(id) !in execs;
  }

  /** The callbacks `run` invokes add no handler to the trace. */
  lemma ExecHandlersEpilogue(trace: seq<Event>, ep: seq<Event>, handled: nat, notFound: Option<nat>, callback: Option<nat>)
    requires ep == Epilogue(handled, notFound, callback)
    ensures ExecHandlers(trace + ep) == ExecHandlers(trace)
  {
    if ep != [] {
      assert (trace + ep)[..|trace + ep| - 1] == trace;
    } else {
      assert trace + ep == trace;
    }
  }
}
