# inilim/router in Dafny

This project is a verified model of the routing engine of the PHP library
`inilim/router` (`Inilim\Router\Router`) and of its URL-template base class
`RouteAbstract`.

A `Router` is built around one request, which has a method and a path. Three
kinds of things are registered on it:

- middleware (`middleware`);
- routes (`route`, `any`), each optionally followed by extra middleware
  handlers for the same pattern;
- callbacks: a 404 callback and two parameter transforms.

`run` then does the following, in order:

1. **Middleware pass.** It runs **every** middleware entry whose pattern
   matches the path, in registration order, and records how many ran.
2. **Controller pass.** It runs the **first** matching route only.
3. **Epilogue.** It calls the 404 callback when no route ran, or the
   completion callback when one did.

Both lists are empty afterwards. Before a pattern is matched it is
compiled, in three steps:

1. The five fixed placeholders such as `{_INT_}` are replaced by their
   regex groups.
2. Every other `/{name}` becomes `/(.*?)`.
3. The result is anchored as `^…$`.

The parameters of a match come from the offset captures of its groups:

- a group is cut where the next group starts, then `/`-trimmed;
- a value is `null` exactly when its group did not take part and the next
  group did not take part either. A group that did not take part but is
  followed by one that did gives `''`.

A cache keyed by pattern remembers parameters across the entries of a pass
and across runs. A cached pattern counts as a match and runs with its cached
parameters. An uncached pattern computes and stores its parameters only when
no earlier entry of the same pass has set them. Once they are set, every later
uncached match in that pass runs with those same parameters and stores nothing
(`Dispatch.LaterMatchReusesParams`). The controller pass empties the cache
when a route runs.

`RouteAbstract` is the base class of routes that are declared as classes. It
holds a handler and a middleware. `route(...$params)` is meant to fill the
`{name}` tokens of the class's pattern with the given values. As written it
reads the base class's pattern, which is `null`, so it always fills `''`
(see "## Findings").

The model has eight modules:

| module | file | what it models |
|---|---|---|
| `Wrappers` | `wrappers.dfy` | `Option` |
| `PhpStrings` | `php_strings.dfy` | the PHP string functions the core uses: `trim($s, '/')`, `substr($s, 0, $n)`, `strtoupper`, `str_contains`, `str_replace` (single and array form), `strval` of integers |
| `Patterns` | `patterns.dfy` | pattern normalisation and compilation |
| `Methods` | `methods.dfy` | which method lists admit the request method |
| `Extraction` | `extraction.dfy` | offset captures to parameters, including the extraction loop |
| `Dispatch` | `dispatch.dfy` | value-level description of `prepareRoute`, `exec`, a pass of `handle` (`Step`, `Pass`) and `run` (`RunOutcome`), with their properties |
| `Routing` | `routing.dfy` | the class `Router` with its fields, each method proved to agree with `Dispatch` |
| `RouteTemplate` | `route_template.dfy` | the class `RouteAbstract` and the template filler of `route` |

`Router`'s state that the source updates in place is kept as fields that the
methods reassign. These fields are the lists, the cache, the middleware count,
the recorded class and the callbacks. Two functions collect them:
`Snapshot()` returns the fields `run` changes, and `Cfg()` returns the
settings it only reads. A ghost field `trace` records every handler and
callback that runs (its events are `Exec`, `NotFound` and `Completed`). The
class invariant `Valid()` says the cache is coherent: every cached pattern
matches the path, and its cached parameters are the ones that match yields.

The regex engine is a parameter of the router (`matcher`, a function from the
compiled pattern and the path to the offset captures). Every property is
proved for any engine. Two lemmas assume something of the offsets the engine
reports, and they say so in their preconditions:

- `Extraction.ExtractAbsentBeforePresent` assumes that an offset of -1 goes
  with the empty text (`WellFormed`).
- `Extraction.ExtractNestedParent` assumes that each participating group's
  text is the part of the path at its offset (`InPath`).

A string is a sequence of `char`, one per byte of the PHP string, so
lengths and offsets count bytes. This is how `substr`, `trim` and
`PREG_OFFSET_CAPTURE` count.

### Behaviour worth knowing

- **Cache lifetime.** The cache is emptied only when a route runs, just
  before its handler (src/Router.php:316-318). It is not emptied at the start
  of a controller pass. After a run in which no route matched, entries
  cached by the middleware pass survive into the next run
  (`Dispatch.RunCache`).
- **Duplicate routes.** A pattern registered twice as a route is never run
  twice in one controller pass, because the pass stops at the first match
  (src/Router.php:326-328, `Dispatch.ControllerPassFirstMatch`).
- **Start of a pattern group.** The `/{name}` rewrite that compiling a
  pattern performs (`#\/{(.*?)}#`, src/Router.php:263) needs only an opening
  brace after a slash. Its lazy `.*?` stops at the first `}` and, without the
  `s` modifier, cannot cross a newline (`Patterns.CloseBrace`).
- **Request method case.** Only the method list is upper-cased
  (src/Router.php:404). A request method with a lower-case letter is admitted
  by no list (`Methods.LowerCaseMethodRejected`).

Names: the source's field `numHundledMiddleware` and its getter
`getNumHundledMiddleware` are spelled `numHandledMiddleware` and
`NumHandledMiddleware` here.

## Model

| member | source | states |
|---|---|---|
| PhpStrings.TrimSlashFree | src/Router.php:244 | `trim($s, '/')` leaves a text that neither starts nor ends with a slash |
| PhpStrings.TrimSlashes | src/Router.php:244 | `trim($s, '/')` never makes a text longer; `TrimSplits`, `TrimUnique` and `TrimSlashFree` state which text it leaves |
| PhpStrings.TrimSplits | src/Router.php:244 | the trimmed text is the middle of `s` between an all-slash prefix and an all-slash suffix |
| PhpStrings.TrimUnique | src/Router.php:244 | trimming any all-slash prefix and suffix off a text whose ends are slash-free gives exactly that text back |
| PhpStrings.TrimIdempotent | src/Router.php:244 | trimming twice is trimming once |
| PhpStrings.Substr0 | src/Router.php:304 | `substr($s, 0, $n)` has length `n` clamped to `[0, |s|]`; a negative `n` drops `-n` characters from the end |
| PhpStrings.Substr0Prefix | src/Router.php:304 | `substr($s, 0, $n)` is a prefix of `s` |
| PhpStrings.Upper | src/Router.php:404 | `strtoupper` keeps the length and upper-cases exactly the ASCII letters `a`-`z` |
| PhpStrings.UpperIdempotent | src/Router.php:404 | upper-casing twice is upper-casing once |
| PhpStrings.Contains | src/Router.php:238 | the left-to-right scan answers true exactly when the needle occurs at some position |
| PhpStrings.ContainsInfix | src/Router.php:238 | a text contains every text it is built around |
| PhpStrings.ReplaceAllAbsent | src/Router.php:258-262 | replacing a text that does not occur changes nothing |
| PhpStrings.ReplaceAllUnchangedIff | src/Router.php:258-262 | `str_replace` of one non-empty text leaves `s` unchanged exactly when the text does not occur or is replaced by itself |
| PhpStrings.ReplaceAllLength | src/Router.php:258-262 | a same-length replacement keeps the length, a shorter one never grows it, a longer one never shrinks it |
| PhpStrings.ReplaceAllSkip | src/Router.php:258-262 | a prefix lacking the first character of the search text passes through `str_replace` unchanged |
| PhpStrings.ReplaceEachAbsent | src/Router.php:258-262 | the array form of `str_replace` changes nothing when no search text can start anywhere in the subject |
| PhpStrings.ReplaceAll | src/Router.php:258-262 | `str_replace` with one search string: replacing a text by itself gives the subject back; `ReplaceAllAbsent`, `ReplaceAllUnchangedIff` and `ReplaceAllLength` state the rest |
| PhpStrings.ReplaceEach | src/RouteAbstract.php:59 | `str_replace` with arrays: replacing each text by itself gives the subject back; `ReplaceEachAbsent` and `Patterns.ReplaceEachOneHit` state when it acts as one replacement or none |
| PhpStrings.NatToStringValue | src/RouteAbstract.php:58 | the decimal text of a natural number reads back as that number |
| PhpStrings.IntToString | src/RouteAbstract.php:58 | `strval` of an integer is a minus sign for negatives followed by the decimal digits of its magnitude |
| Patterns.NormalizePattern | src/Router.php:244 | a stored pattern starts with `/`, and unless it is the root it has no second leading slash and no trailing slash |
| Patterns.NormalizeIdempotent | src/Router.php:244 | normalising a stored pattern again changes nothing |
| Patterns.NormalizeFixpointIff | src/Router.php:244 | a pattern is unchanged by normalisation exactly when it is `/` followed by a text with slash-free ends |
| Patterns.NormalizeIgnoresOuterSlashes | src/Router.php:244 | extra slashes around a pattern never change its stored form |
| Patterns.CloseBrace | src/Router.php:263 | the lazy `{(.*?)}` ends at the first `}` that comes before any newline, and finds none when a newline comes first |
| Patterns.GenericGroupsBraceFree | src/Router.php:263 | text without `{` passes the `/{name}` rewrite unchanged |
| Patterns.GenericGroupsPlaceholder | src/Router.php:263 | `/{name}` after brace-free text becomes `/(.*?)`, and the rest is rewritten in turn |
| Patterns.GenericGroupsNoSlashBrace | src/Router.php:263 | text in which no `/` is followed by `{` passes the rewrite unchanged |
| Patterns.WithPlaceholdersGeneric | src/Router.php:263 | a pattern of brace-free pieces and `/{name}` placeholders becomes the same pieces joined by `/(.*?)` |
| Patterns.FixedTokensWellFormed | src/Router.php:259 | the five fixed placeholders are distinct tokens `{_…}` |
| Patterns.FixedFragmentsClean | src/Router.php:260 | each of the five regex fragments is a parenthesised group that can start neither a fixed placeholder nor a `/{` |
| Patterns.TokenNotPrefix | src/Router.php:259 | a `{…}` token cannot start with a different one |
| Patterns.OtherTokenAbsent | src/Router.php:258-262 | a token occurs only where it is written, never inside a different token |
| Patterns.ReplaceSingleHit | src/Router.php:258-262 | the one occurrence of a token between brace-free texts is replaced |
| Patterns.ReplaceFixedToken | src/Router.php:258-262 | the fixed substitution turns exactly the one fixed placeholder into its fragment and touches nothing else |
| Patterns.ReplaceEachOneHit | src/Router.php:258-262 | the array `str_replace` acts as a single replacement when only one of its search texts occurs before and after that step |
| Patterns.Compile | src/Router.php:258-265 | every compiled pattern is anchored: it starts with `^` and ends with `$` |
| Patterns.CompileBraceFree | src/Router.php:258-265 | a pattern without `{` is only anchored |
| Patterns.CompileFixedToken | src/Router.php:258-265 | a fixed placeholder between brace-free texts compiles to its regex group, anchored |
| Patterns.CompileGenericPlaceholders | src/Router.php:258-265 | a pattern of brace-free pieces and plain `/{name}` placeholders compiles to the pieces joined by `/(.*?)`, anchored |
| Patterns.GenericGroups | src/Router.php:263 | the `#\/{(.*?)}#` rewrite as a left-to-right scan; its behaviour is stated by `GenericGroupsBraceFree`, `GenericGroupsPlaceholder`, `GenericGroupsNoSlashBrace` and `GenericGroupsPrefix` |
| Patterns.GenericGroupsPrefix | src/Router.php:263 | the rewrite passes any text without `/{` that does not end in a slash through unchanged and goes on behind it |
| Patterns.CompileRaw | src/Router.php:258-265 | a raw regular expression in which no `{` is followed by `_` and no `/` by `{` (such as the blog pattern `/blog(/\d{4}…)?` of tests/RouterBramusTest.php:463), is only anchored |
| Patterns.ReplaceHitBefore | src/Router.php:258-262 | a search text starting with `{`, written after brace-free text, is replaced where it stands when it does not occur again behind |
| Patterns.FixedTokenAbsentBeside | src/Router.php:258-262 | a token `tj` does not occur in brace-free text followed by a different token and then text in which no `{` is followed by `_` |
| Patterns.ReplaceFixedTokenBefore | src/Router.php:258-262 | the fixed substitution turns one fixed placeholder after brace-free text into its fragment when no `{` behind it is followed by `_` |
| Patterns.CompileFixedThenPlaceholders | src/Router.php:258-265 | a fixed placeholder followed by generic `/{name}` placeholders compiles to its own fragment followed by the pieces joined by `/(.*?)`, anchored |
| Methods.HeadAsGet | src/Router.php:415-421 | `getRequestMethodWithOverride` (`EffectiveMethod`) checks a HEAD request as GET, so HEAD is admitted by exactly the registrations GET is |
| Methods.EmptyMethodRejected | src/Router.php:234-236 | a request without a method is admitted by nothing |
| Methods.CaseInsensitive | src/Router.php:402-404 | the method list is compared after upper-casing, so its letter case never matters |
| Methods.AllAdmitsEveryMethod | src/Router.php:402-410 | a list that mentions `ALL` in any letter case admits all seven methods of the full list |
| Methods.AllOverridesList | src/Router.php:406-408 | with `ALL` in the list, a method outside the full list is not admitted even if the list names it |
| Methods.ListedMethodAdmitted | src/Router.php:234-241 | without `ALL`, an upper-case method written anywhere in the list is admitted |
| Methods.PrepareMethod | src/Router.php:402-410 | the prepared method list has no lower-case letter |
| Methods.LowerCaseMethodRejected | src/Router.php:234-241 | a request method with a lower-case letter is admitted by no method list |
| Methods.Accepts | src/Router.php:234-241 | the registration test of `prepareRoute`; its behaviour is stated by `HeadAsGet`, `EmptyMethodRejected`, `CaseInsensitive`, `AllAdmitsEveryMethod`, `AllOverridesList`, `ListedMethodAdmitted` and `LowerCaseMethodRejected` |
| Extraction.DropWhole | src/Router.php:295 | `array_slice($matches, 1)` keeps the groups after the whole match, in order |
| Extraction.ExtractFrom | src/Router.php:297-310 | the values of groups `i` onwards: one per group |
| Extraction.Extract | src/Router.php:297-310 | the parameters of a match: exactly one value per group |
| Extraction.ExtractParams | src/Router.php:297-310 | the extraction loop computes `Extract` of the groups |
| Extraction.ExtractAt | src/Router.php:298-309 | position `k` of the parameters is the value the loop body (`ParamAt`) reads for group `k` |
| Extraction.ParamAt | src/Router.php:301-309 | the body of the extraction loop for one group; `ExtractNestedParent`, `ExtractSiblingWhole`, `ExtractWithoutNext` and `ExtractNullIff` state its cases |
| Extraction.ExtractTrimmed | src/Router.php:304-309 | every non-null value starts and ends without a slash |
| Extraction.ExtractNestedParent | src/Router.php:301-305 | a group whose next group starts inside it gets only the part of the path from its start to that group's start, trimmed |
| Extraction.ExtractSiblingWhole | src/Router.php:301-305 | a group whose next group starts after its end keeps its whole text, trimmed |
| Extraction.ExtractWithoutNext | src/Router.php:309 | without a participating next group a value is the trimmed text, or `null` when the group did not take part |
| Extraction.ExtractNullIff | src/Router.php:301-309 | a value is `null` exactly when its group did not take part and no participating group follows it |
| Extraction.ExtractAbsentBeforePresent | src/Router.php:301-305 | a group that did not take part but is followed by one that did gives `''`, not `null` |
| Extraction.ExtractNoneTookPart | src/Router.php:309 | when no group took part every value is `null` |
| Extraction.ExtractSiblingsExample | tests/RouterBramusTest.php:412-428 | `/(.*)/page([0-9]+)` on `/hello/bramus/page3` gives `hello/bramus` and `3` |
| Extraction.ExtractNestedExample | tests/RouterBramusTest.php:475-481 | the nested blog pattern on `/blog/1983/12` gives `1983`, `12`, `null`, `null` |
| Extraction.ExtractOverviewExample | tests/RouterBramusTest.php:459-465 | the nested blog pattern on `/blog` gives four `null`s |
| Dispatch.PrepareRoute | src/Router.php:232-247 | an entry is produced exactly when the method list admits the request method, with the normalised pattern and the given handler |
| Dispatch.WithHandlers | src/Router.php:145-150 | the middleware entries of `route`: one per extra handler, in order, each with the route's pattern |
| Dispatch.WithHandlersSnoc | src/Router.php:145-150 | one more extra handler adds one more entry at the end |
| Dispatch.Before | src/Router.php:364 | the first piece of `explode('@', …)`: the longest `@`-free prefix |
| Dispatch.ContainsChar | src/Router.php:360 | `str_contains` with a one-character needle is membership |
| Dispatch.ClassHandleNamed | src/Router.php:360-371 | a named handler's class is `@`-free, and it is either the whole name or the part before the first `@` |
| Dispatch.ClassHandleClosure | src/Router.php:355-356 | a closure's class is recorded as `Closure` |
| Dispatch.ClassHandle | src/Router.php:355-372 | the class `exec` records; `ClassHandleNamed` and `ClassHandleClosure` state its two cases |
| Dispatch.StepOutcome | src/Router.php:280-328 | an entry matches exactly when its pattern is cached or the engine matches it. A miss changes nothing. A match counts once, runs the handler once with the used parameters through the current transform, records the class, and in the controller pass empties the cache |
| Dispatch.Step | src/Router.php:280-328 | one iteration of the loop of `handle`; `StepOutcome`, `StepCounts`, `StepCoherent`, `FreshMatchCached`, `LaterMatchReusesParams` and `CacheHitIgnoresMatcher` state what it does |
| Dispatch.Pass | src/Router.php:272-332 | `handle` over a list of entries; `MiddlewarePass`, `ControllerPassNoMatch`, `ControllerPassFirstMatch`, `ControllerPassCount`, `PassCoherent` and `PassAppendsExecs` state what it does |
| Dispatch.CacheHitIgnoresMatcher | src/Router.php:282-284 | a cached pattern is never given to the regex engine: the step is the same whatever the engine |
| Dispatch.FreshMatchCached | src/Router.php:294-312 | the first uncached match of a middleware pass stores its parameters under its pattern and sets `$params` |
| Dispatch.LaterMatchReusesParams | src/Router.php:294 | a later uncached match in the same pass runs with the earlier match's parameters, and in the middleware pass nothing is cached for it |
| Dispatch.StepCoherent | src/Router.php:280-318 | a step keeps a coherent cache coherent, and then an entry matches exactly when the engine matches its pattern |
| Dispatch.PassCoherent | src/Router.php:278-329 | a whole pass keeps a coherent cache coherent |
| Dispatch.PassAppendsExecs | src/Router.php:278-329 | a pass only appends handler runs to the trace |
| Dispatch.StepCounts | src/Router.php:320-323 | a step increments the count and appends the entry's handler exactly when the entry matched |
| Dispatch.MiddlewarePass | src/Router.php:278-331 | the middleware pass runs and counts the handler of every matching entry, in order, visits the whole list and keeps the cache coherent |
| Dispatch.ControllerPassNoMatch | src/Router.php:278-331 | a controller pass with nothing matching changes nothing and visits the whole list |
| Dispatch.ControllerPassFirstMatch | src/Router.php:316-328 | the controller pass runs exactly the first matching entry, with that entry's own parameters. It empties the cache and leaves later entries unvisited |
| Dispatch.ControllerPassCount | src/Router.php:316-331 | the controller pass runs one handler, the first match's, when some entry matches, and otherwise none |
| Dispatch.FirstMatch | src/Router.php:326-328 | the index of the entry the controller pass stops at: it matches and no earlier one does |
| Dispatch.EpilogueExclusive | src/Router.php:106-110 | at most one callback ends `run`. The 404 callback runs exactly when nothing ran and it is set. The completion callback runs exactly when something ran and it is given |
| Dispatch.Epilogue | src/Router.php:106-110 | the callback `run` ends with; `EpilogueExclusive` and `RunCallbacks` state when each one runs |
| Dispatch.CurrentTransform | src/Router.php:341-349 | the transform `exec` applies; `RunClearsLists` states that after a run it is always the controller one |
| Dispatch.HandledMiddlewareCount | src/Router.php:167-170 | `getNumHundledMiddleware`, 0 before any run; `RunMiddlewareCount` states its value after a run |
| Dispatch.RunOutcome | src/Router.php:84-116 | the state after `run`; `RunClearsLists`, `RunHandlers`, `RunCache`, `RunEvents`, `RunCallbacks` and `RunMiddlewareCount` state what it is |
| Dispatch.RunClearsLists | src/Router.php:93-104 | after `run` both lists are empty and the middleware count is set, so later handler runs use the controller transform |
| Dispatch.MiddlewareStageOutcome | src/Router.php:93-98 | the middleware block runs and counts every matching middleware in order, adds only handler runs and keeps the cache coherent |
| Dispatch.ControllerStageOutcome | src/Router.php:100-104 | the controller block runs exactly the first matching route, if any. The cache is emptied when a route runs and kept otherwise |
| Dispatch.RunMiddlewareCount | src/Router.php:93-98 | after `run`, `getNumHundledMiddleware` returns the number of matching middleware entries |
| Dispatch.RunHandlers | src/Router.php:84-116 | `run` runs the matching middleware in order and then the first matching route, and no other handler |
| Dispatch.RunCache | src/Router.php:84-116 | `run` empties the cache when a route ran, keeps what the middleware pass left otherwise, and keeps it coherent |
| Dispatch.RunEvents | src/Router.php:84-116 | `run` adds handler runs followed by the epilogue callback for whether a route matched |
| Dispatch.RunCallbacks | src/Router.php:106-110 | the 404 callback runs exactly when no route matched and one is set. The completion callback runs exactly when a route ran and one was given |
| Dispatch.ExecHandlersEpilogue | src/Router.php:106-110 | the callbacks of `run` add no handler run |
| Routing.Router.constructor | src/Router.php:26-63 | a new router has empty lists, an empty cache, no callbacks, no recorded class and no middleware count |
| Routing.Router.Middleware | src/Router.php:122-129 | `middleware` appends the prepared entry exactly when the method is admitted and changes nothing else |
| Routing.Router.Route | src/Router.php:136-152 | `route` appends the entry to the routes and one entry per extra handler to the middleware. When the method is not admitted it changes nothing |
| Routing.Router.AppendCopies | src/Router.php:145-150 | the loop of `route` appends the entries for the extra handlers and changes no other field |
| Routing.Router.Any | src/Router.php:159-162 | `any` is `route` with the full method list |
| Routing.Router.Set404 | src/Router.php:184-188 | sets the 404 callback and nothing else |
| Routing.Router.NumHandledMiddleware | src/Router.php:167-170 | `getNumHundledMiddleware` reads the count through `Dispatch.HandledMiddlewareCount`, whose value after a run `Dispatch.RunMiddlewareCount` states |
| Routing.Router.SetHandleParamsMiddleware | src/Router.php:195-199 | sets the middleware parameter transform and nothing else |
| Routing.Router.SetHandleParamsController | src/Router.php:206-210 | sets the controller parameter transform and nothing else |
| Routing.Router.Trigger404 | src/Router.php:215-220 | runs the 404 callback when one is set and otherwise does nothing |
| Routing.Router.Exec | src/Router.php:339-372 | applies the middleware transform before a middleware count is recorded and the controller transform after. It records `ClassHandle` of the handler and runs it with the transformed parameters |
| Routing.Router.Visit | src/Router.php:280-328 | one iteration of the loop of `handle` does what `Dispatch.Step` describes |
| Routing.Router.Handle | src/Router.php:272-332 | `handle` does what `Dispatch.Pass` describes. It counts the handlers run and removes the visited entries from the list it was given. It keeps the cache invariant |
| Routing.Router.RunMiddleware | src/Router.php:93-98 | the middleware block of `run`: a pass when the list is non-empty, the count recorded (0 without middleware), the list emptied |
| Routing.Router.RunControllers | src/Router.php:100-104 | the controller block of `run`: a pass when there are routes, the route list emptied |
| Routing.Router.Run | src/Router.php:84-116 | `run` moves the router to `Dispatch.RunOutcome` of its state and keeps the cache invariant, so every `Dispatch.Run…` lemma describes it |
| RouteTemplate.NextBrace | src/RouteAbstract.php:53 | the first brace at or after a position, with no brace before it |
| RouteTemplate.Tokens | src/RouteAbstract.php:53 | the matches of `preg_match_all('#\{[^\{\}]+\}#')`, left to right; `TokensAreTokens`, `TokenFound`, `TokensExactly` and `TokensNoneIff` state what it finds |
| RouteTemplate.TokensAreTokens | src/RouteAbstract.php:53 | soundness of the scan: every match of `\{[^\{\}]+\}` found is such a token and occurs in the pattern |
| RouteTemplate.TokenFound | src/RouteAbstract.php:53 | completeness of the scan: every token written in the pattern is among the matches found |
| RouteTemplate.TokensExactly | src/RouteAbstract.php:53 | a text is among the matches found exactly when it is a token that occurs in the pattern |
| RouteTemplate.TokensNoneIff | src/RouteAbstract.php:53-54 | the scan finds no token exactly when no part of the pattern is one |
| RouteTemplate.TokensSkip | src/RouteAbstract.php:53 | text without `{` contributes no token |
| RouteTemplate.TokensOfToken | src/RouteAbstract.php:53 | a token followed by text without `{` is the only token found |
| RouteTemplate.TokensOfTwo | src/RouteAbstract.php:53 | two tokens between texts without `{` are found in order |
| RouteTemplate.Strval | src/RouteAbstract.php:58 | `strval`, applied to every parameter by `array_map` (`Strvals`): a string parameter is itself; an integer becomes its decimal text, with a minus sign exactly for negatives |
| RouteTemplate.StrvalNat | src/RouteAbstract.php:58 | the text of a non-negative integer parameter reads back as that integer |
| RouteTemplate.FillWithoutTokens | src/RouteAbstract.php:52-54 | a pattern without any token comes back unchanged, whatever the parameters |
| RouteTemplate.FillTemplate | src/RouteAbstract.php:51-59 | the filling step of `route`; `FillWithoutTokens`, `FillOneToken`, `FillTwoTokens` and `FillRepeatedToken` state its result |
| RouteTemplate.OtherTokenSkipped | src/RouteAbstract.php:59 | replacing one token leaves a different token alone |
| RouteTemplate.FillOneToken | src/RouteAbstract.php:55-59 | one token is replaced by the first parameter, and further parameters are ignored |
| RouteTemplate.FillTwoTokens | src/RouteAbstract.php:55-59 | two different tokens take the first and second parameters in order. The second becomes `''` when only one parameter is given |
| RouteTemplate.FillRepeatedToken | src/RouteAbstract.php:55-59 | a token written twice is filled in both places by the first parameter, and the second parameter is never used |
| RouteTemplate.RouteAbstract.Make | src/RouteAbstract.php:15-26 | `make()` gives a route with neither handler nor middleware |
| RouteTemplate.RouteAbstract.SetHandle | src/RouteAbstract.php:28-31 | sets the handler and leaves the middleware unchanged |
| RouteTemplate.RouteAbstract.SetMiddleware | src/RouteAbstract.php:33-36 | sets the middleware and leaves the handler unchanged |
| RouteTemplate.SetThenGetHandle | src/RouteAbstract.php:28-46 | `setHandle` then `getHandle` (`GetHandle`) returns the handler set, and the middleware is untouched |
| RouteTemplate.SetThenGetMiddleware | src/RouteAbstract.php:28-46 | `setMiddleware` then `getMiddleware` (`GetMiddleware`) returns the middleware set, and the handler is untouched |
| RouteTemplate.RouteAbstract.Route | src/RouteAbstract.php:20-21 | `route` as written reads the base class's `null` pattern and builds `''` for every call |
| RouteTemplate.RouteAbstract.RouteWithPattern | src/RouteAbstract.php:48-60 | `route` reading the class's own pattern. Without parameters, or for a pattern without tokens, it returns the pattern itself |
| RouteTemplate.RouteIgnoresPattern | src/RouteAbstract.php:50 | for a route class with a non-empty pattern the as-written `route()` differs from the pattern it should return |
| RouteTemplate.RouteWithPatternOneToken | src/RouteAbstract.php:50-59 | with a one-token pattern, the corrected `route` puts the first parameter in place of the token |

## Left out

- Regular-expression matching itself (`preg_match_all` with `/u`, `\p{L}`, lazy and greedy groups). It is the `matcher` parameter; the model takes the compiled pattern it is given and the offset captures it returns.
- The MD5 hashing of cache keys. The cache is keyed by the pattern string, which treats MD5 as collision-free.
- HEAD output buffering (`ob_start`, `ob_end_clean`): output is not modelled. A HEAD request is checked as GET.
- How `exec` invokes a handler: `class_exists`, `method_exists`, `new`, the method call and the spreading of parameters into arguments. A run is the trace event `Exec(handler, params)`. As in the source, a handler whose class does not exist still counts as handled.
- Closures: a closure handler, the 404 callback and the completion callback are told apart by a number. The parameter transforms are Dafny functions of the parameters and the request. A handler that calls back into the router (for example into `trigger404`) is not modelled.
- The external `Request` (only its method and path are read) and `Str::_contains`, which is substring containment (`PhpStrings.Contains`).
- `getRequestMethod`, `getCurrentUri`, `getClassHandle` and `isOverrideHead`: plain getters of the request or of a field that the model holds directly.
- Multi-byte characters: a string is one `char` per byte, and the `/u` flag's decoding of UTF-8 is left to the regex engine.
- `RouteTemplate.Strval`: float parameters of `route` are left out. PHP's float-to-string formatting is not modelled, so parameters are strings or integers.
- `RouteTemplate.FillTwoTokens`, `RouteTemplate.FillRepeatedToken`: stated only when the first value contains no `{` (a value spelling a later token would itself be replaced, as `str_replace` does). Templates with more than two tokens are defined by `Tokens` and `ReplaceEach` but have no closed-form lemma.
- `RouteTemplate.RouteAbstract.Route`: `preg_match_all` failing and returning `false` is not modelled; the token regex cannot fail on a character sequence.
- Patterns with two or more fixed placeholders have no closed-form lemma about `Compile`; one fixed placeholder alone (`Patterns.CompileFixedToken`) or followed by generic placeholders (`Patterns.CompileFixedThenPlaceholders`) does.
- `Methods.ListedMethodAdmitted`: states only the admitted direction. The converse does not hold: containment admits any upper-case fragment of the list.
- The test suites and `index.php`, which are a PHPUnit harness and a demo script.

## Findings

| source | as written | input that shows it | evidently intended | confidence | as-written member | corrected member |
|---|---|---|---|---|---|---|
| src/RouteAbstract.php:50 | `$p = self::PATTERN ?? ''` reads the constant of `RouteAbstract` itself, which is `null`, so `route` uses `''` as its pattern in every subclass | a subclass with `PATTERN = '/user/{id}'`; `route(5)` returns `''` and `route()` returns `''` instead of `/user/{id}` | `static::PATTERN`, the subclass's pattern, so `route(5)` gives `/user/5` | high, not executed | RouteTemplate.RouteAbstract.Route (with RouteTemplate.RouteIgnoresPattern) | RouteTemplate.RouteAbstract.RouteWithPattern (with RouteTemplate.RouteWithPatternOneToken) |
