/**
 * The `Router` object: its registration lists, cache and bookkeeping
 * fields, updated in place by `middleware`, `route`, `any`, `set404`, the
 * parameter-transform setters, `handle`, `exec`, `trigger404` and `run`.
 * Every method is proved to agree with the value-level description in
 * module `Dispatch`.
 */
module Routing {
  import opened Wrappers
  import opened PhpStrings
  import opened Patterns
  import opened Methods
  import opened Extraction
  import opened Dispatch

  class Router {
    /** The request (its method and path) and the regex engine, fixed at construction. */
    const request: Request
    const matcher: Matcher

    var routes: seq<Entry>
    var middleware: seq<Entry>
    /** Parameters of matched patterns, keyed by pattern (the source keys by its MD5 hash). */
    var cache: map<string, Params>
    var notFoundCallback: Option<nat>
    /** `numHundledMiddleware`: unset until the first `run`. */
    var numHandledMiddleware: Option<nat>
    var paramsMiddleware: Option<Transform>
    var paramsController: Option<Transform>
    var classHandle: Option<string>
    /** The handlers and callbacks invoked so far. */
    ghost var trace: seq<Event>

    /** The settings `run` reads but does not change. */
    function Cfg(): Config
      reads this
    {
      Config(request, matcher, notFoundCallback, paramsMiddleware, paramsController)
    }

    /** The fields `run` changes. */
    ghost function Snapshot(): State
      reads this
    {
      State(routes, middleware, cache, numHandledMiddleware, classHandle, trace)
    }

    /** What a pass of `handle` reads, with the transform `exec` currently applies. */
    function CurrentEnv(): Env
      reads this
    {
      EnvOf(Cfg(), numHandledMiddleware)
    }

    /** The cache holds only patterns that match the request path, with the parameters they yield. */
    ghost predicate Valid()
      reads this
    {
      Coherent(EnvOf(Cfg(), None), cache)
    }

    constructor (request: Request, matcher: Matcher)
      ensures Valid()
      ensures this.request == request && this.matcher == matcher
      ensures routes == [] && middleware == [] && cache == map[] && classHandle.None?
      ensures notFoundCallback.None? && numHandledMiddleware.None?
      ensures paramsMiddleware.None? && paramsController.None?
      ensures trace == []
    {
      this.request := request;
      this.matcher := matcher;
      routes := [];
      middleware := [];
      cache := map[];
      notFoundCallback := None;
      numHandledMiddleware := None;
      paramsMiddleware := None;
      paramsController := None;
      classHandle := None;
      trace := [];
    }

    /** `getNumHundledMiddleware`. */
    function NumHandledMiddleware(): nat
      reads this
    {
      HandledMiddlewareCount(numHandledMiddleware)
    }

    /** `middleware`: adds the entry to the middleware list when the request method is admitted. */
    method Middleware(methods: string, pattern: string, handle: Handler)
      modifies this
      ensures var r := PrepareRoute(request.httpMethod, methods, pattern, handle);
        Snapshot() == old(Snapshot()).(middleware := old(middleware) + (if r.Some? then [r.value] else []))
      ensures Cfg() == old(Cfg())
    {
      var r := PrepareRoute(request.httpMethod, methods, pattern, handle);
      if r.None? {
        assert old(middleware) + [] == old(middleware);
        return;
      }
      middleware := middleware + [r.value];
    }

    /**
     * `route`: when the request method is admitted, adds the entry to the
     * route list and, for each extra handler in turn, the same pattern with
     * that handler to the middleware list.
     */
    method Route(methods: string, pattern: string, handle: Handler, extras: seq<Handler>)
      modifies this
      ensures var r := PrepareRoute(request.httpMethod, methods, pattern, handle);
        Snapshot() == if r.None? then old(Snapshot()) else
          old(Snapshot()).(routes := old(routes) + [r.value], middleware := old(middleware) + WithHandlers(r.value, extras))
      ensures Cfg() == old(Cfg())
    {
      var r := PrepareRoute(request.httpMethod, methods, pattern, handle);
      if r.None? {
        return;
      }
      routes := routes + [r.value];
      AppendCopies(r.value, extras);
    }

    /** The loop of `route`: one middleware entry per extra handler, in argument order. */
    method AppendCopies(e: Entry, extras: seq<Handler>)
      modifies this
      ensures middleware == old(middleware) + WithHandlers(e, extras)
      ensures routes == old(routes) && cache == old(cache) && numHandledMiddleware == old(numHandledMiddleware)
      ensures classHandle == old(classHandle) && trace == old(trace) && Cfg() == old(Cfg())
    {
      var i := 0;
      while i < |extras|
        invariant 0 <= i <= |extras|
        invariant middleware == old(middleware) + WithHandlers(e, extras[..i])
        invariant routes == old(routes) && cache == old(cache) && numHandledMiddleware == old(numHandledMiddleware)
        invariant classHandle == old(classHandle) && trace == old(trace) && Cfg() == old(Cfg())
      {
        WithHandlersPrefix(e, extras, i);
        middleware := middleware + [e.(handler := extras[i])];
        i := i + 1;
      }
      assert extras[..|extras|] == extras;
    }

    /** `any`: `route` with the full method list. */
    method Any(pattern: string, handle: Handler, extras: seq<Handler>)
      modifies this
      ensures var r := PrepareRoute(request.httpMethod, AllMethods, pattern, handle);
        Snapshot() == if r.None? then old(Snapshot()) else
          old(Snapshot()).(routes := old(routes) + [r.value], middleware := old(middleware) + WithHandlers(r.value, extras))
      ensures Cfg() == old(Cfg())
    {
      Route(AllMethods, pattern, handle, extras);
    }

    /** `set404`. */
    method Set404(callback: nat)
      modifies this
      ensures Snapshot() == old(Snapshot())
      ensures Cfg() == old(Cfg()).(notFound := Some(callback))
    {
      notFoundCallback := Some(callback);
    }

    /** `setHandleParamsMiddleware`. */
    method SetHandleParamsMiddleware(t: Transform)
      modifies this
      ensures Snapshot() == old(Snapshot())
      ensures Cfg() == old(Cfg()).(paramsMiddleware := Some(t))
    {
      paramsMiddleware := Some(t);
    }

    /** `setHandleParamsController`. */
    method SetHandleParamsController(t: Transform)
      modifies this
      ensures Snapshot() == old(Snapshot())
      ensures Cfg() == old(Cfg()).(paramsController := Some(t))
    {
      paramsController := Some(t);
    }

    /** `trigger404`: runs the 404 callback when one is set. */
    method Trigger404()
      modifies this
      ensures Snapshot() == old(Snapshot()).(trace := old(trace) + Epilogue(0, notFoundCallback, None))
      ensures Cfg() == old(Cfg())
    {
      if notFoundCallback.Some? {
        trace := trace + [NotFound(notFoundCallback.value)];
      } else {
        assert old(trace) + [] == old(trace);
      }
    }

    /**
     * `exec`: applies the current parameter transform, records the
     * handler's class and runs the handler.
     */
    method Exec(handle: Handler, params: Params)
      modifies this
      ensures Snapshot() == old(Snapshot()).(classHandle := Some(ClassHandle(handle)),
        trace := old(trace) + [Event.Exec(handle, Apply(old(CurrentEnv()).transform, params, request))])
      ensures Cfg() == old(Cfg())
    {
      var handleParams := if numHandledMiddleware.None? then paramsMiddleware else paramsController;
      var ps := params;
      if handleParams.Some? {
        ps := handleParams.value(params, request);
      }
      var owner: string;
      match handle {
        case Closure(_) =>
          owner := "Closure";
        case Named(name) =>
          owner := if Contains(name, "@") then Before(name, '@') else name;
      }
      classHandle := Some(owner);
      trace := trace + [Event.Exec(handle, ps)];
    }

    /**
     * One iteration of the loop of `handle` on entry `e`, with `$params`
     * as it stands: looks the pattern up in the cache or matches it, and
     * on a match fills and caches `$params` when still unset, empties the
     * cache in the controller pass and runs the handler; proved to do
     * what `Step` describes.
     */
    method Visit(isController: bool, e: Entry, params: Option<Params>, ghost handled: nat)
      returns (isMatch: bool, params': Option<Params>)
      modifies this
      ensures var step := Step(old(CurrentEnv()), isController, Scan(handled, params, old(cache), old(classHandle), old(trace)), e);
        isMatch == step.1 &&
        step.0 == Scan(if isMatch then handled + 1 else handled, params', cache, classHandle, trace)
      ensures routes == old(routes) && middleware == old(middleware)
      ensures numHandledMiddleware == old(numHandledMiddleware) && Cfg() == old(Cfg())
    {
      ghost var env := CurrentEnv();
      ghost var before := Scan(handled, params, cache, classHandle, trace);
      ghost var step := Step(env, isController, before, e);
      params' := params;
      var matches: Option<seq<Capture>> := None;
      if e.pattern in cache {
        isMatch := true;
        params' := Some(cache[e.pattern]);
      } else {
        matches := matcher(Compile(e.pattern), request.path);
        assert matches == MatchOf(env, e.pattern);
        isMatch := matches.Some?;
      }
      if !isMatch {
        assert step == (before, false);
        return;
      }
      if params'.None? {
        var p := ExtractParams(DropWhole(matches.value));
        params' := Some(p);
        cache := cache[e.pattern := p];
      }
      ghost var ready := Scan(handled, params', cache, classHandle, trace);
      assert step == (Fire(env, isController, ready, e), true);
      if isController {
        cache := map[];
      }
      ghost var ev := Event.Exec(e.handler, Apply(env.transform, params'.value, request));
      assert CurrentEnv() == env;
      Exec(e.handler, params'.value);
      assert trace == ready.trace + [ev];
      FireFields(env, isController, ready, e);
    }

    /**
     * `handle`: one pass over the route list (controller pass) or the
     * middleware list, removing each visited entry from it; proved to do
     * what `Pass` describes.
     */
    method Handle(isController: bool) returns (numHandled: nat)
      requires Valid()
      modifies this
      ensures Valid()
      ensures var r := Pass(old(CurrentEnv()), isController,
                            Scan(0, None, old(cache), old(classHandle), old(trace)),
                            if isController then old(routes) else old(middleware));
        numHandled == r.0.handled && cache == r.0.cache && classHandle == r.0.classHandle && trace == r.0.trace &&
        routes == (if isController then r.1 else old(routes)) &&
        middleware == (if isController then old(middleware) else r.1)
      ensures numHandledMiddleware == old(numHandledMiddleware) && Cfg() == old(Cfg())
    {
      numHandled := 0;
      var es := if isController then routes else middleware;
      var params: Option<Params> := None;
      ghost var env := CurrentEnv();
      ghost var target := Pass(env, isController, Scan(0, None, cache, classHandle, trace), es);
      CoherentTransformFree(EnvOf(Cfg(), None), env.transform, cache);
      PassCoherent(env, isController, Scan(0, None, cache, classHandle, trace), es);
      var i := 0;
      while i < |es|
        invariant 0 <= i <= |es|
        invariant routes == if isController then es[i..] else old(routes)
        invariant middleware == if isController then old(middleware) else es[i..]
        invariant numHandledMiddleware == old(numHandledMiddleware)
        invariant Cfg() == old(Cfg()) && CurrentEnv() == env
        invariant Pass(env, isController, Scan(numHandled, params, cache, classHandle, trace), es[i..]) == target
        decreases |es| - i
      {
        ghost var before := Scan(numHandled, params, cache, classHandle, trace);
        var e := es[i];
        ghost var step := Step(env, isController, before, e);
        assert Pass(env, isController, before, es[i..]) ==
          if step.1 && isController then (step.0, es[i + 1..]) else Pass(env, isController, step.0, es[i + 1..]);
        var isMatch;
        isMatch, params := Visit(isController, e, params, numHandled);
        if isController { routes := es[i + 1..]; } else { middleware := es[i + 1..]; }
        if isMatch {
          numHandled := numHandled + 1;
          if isController {
            break;
          }
        }
        i := i + 1;
      }
      CoherentTransformFree(EnvOf(Cfg(), None), env.transform, cache);
    }

    /**
     * The middleware block of `run`: a middleware pass when the list is
     * non-empty, recording its count (0 without middleware), and an empty
     * middleware list.
     */
    method RunMiddleware()
      requires Valid()
      modifies this
      ensures Valid() && Cfg() == old(Cfg())
      ensures Snapshot() == AfterMiddleware(old(Cfg()), old(Snapshot()))
    {
      ghost var mw := MiddlewareStage(Cfg(), Snapshot());
      if middleware != [] {
        var n := Handle(false);
        numHandledMiddleware := Some(n);
        middleware := [];
      } else {
        numHandledMiddleware := Some(0);
      }
      assert cache == mw.cache && classHandle == mw.classHandle && trace == mw.trace;
    }

    /** The controller block of `run`: a controller pass when there are routes, and an empty route list. */
    method RunControllers() returns (numHandled: nat)
      requires Valid()
      modifies this
      ensures Valid() && Cfg() == old(Cfg())
      ensures var ct := ControllerScan(old(Cfg()), old(Snapshot()));
        numHandled == ct.handled &&
        Snapshot() == old(Snapshot()).(routes := [], cache := ct.cache, classHandle := ct.classHandle, trace := ct.trace)
    {
      ghost var ct := ControllerScan(Cfg(), Snapshot());
      numHandled := 0;
      if routes != [] {
        numHandled := Handle(true);
        routes := [];
      }
      assert cache == ct.cache && classHandle == ct.classHandle && trace == ct.trace && numHandled == ct.handled;
    }

    /**
     * `run`: the middleware pass (recording its count), the controller
     * pass, then the 404 callback when no route ran or the completion
     * callback when one did; both lists end empty.
     */
    method Run(callback: Option<nat>)
      requires Valid()
      modifies this
      ensures Valid()
      ensures Snapshot() == RunOutcome(old(Cfg()), old(Snapshot()), callback)
      ensures Cfg() == old(Cfg())
    {
      ghost var cfg, st := Cfg(), Snapshot();
      ControllerStageAfter(cfg, st);
      RunMiddleware();
      var numHandled := RunControllers();
      ghost var done := Snapshot();
      ghost var epilogue := Epilogue(numHandled, cfg.notFound, callback);
      if numHandled == 0 {
        Trigger404();
        assert epilogue == Epilogue(0, notFoundCallback, None);
      } else if callback.Some? {
        trace := trace + [Completed(callback.value)];
      } else {
        assert trace + [] == trace;
      }
      assert Snapshot() == done.(trace := done.trace + epilogue);
    }
  }
}
